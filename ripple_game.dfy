// The wave/particle game of _main.go: without a latch, every frame the
// button is held inside the circle appends a wave; waves grow and expire,
// each wave sheds at most two particles per frame, and particles age, slow
// down and expire. The trigonometry that places particles and the
// reflection at the circle are left abstract as `candidate` and `move`.
module RippleGame {
  import opened Slices
  import opened GoNumerics

  const CenterX: real := 500.0
  const CenterY: real := 400.0
  const ShapeRadius: real := 150.0

  datatype Wave = Wave(x: real, y: real, radius: real, maxRadius: real, vx: real, vy: real)
  datatype Particle = Particle(x: real, y: real, vx: real, vy: real, age: real, maxAge: real, distFromEdge: real)

  /** A position and a velocity as produced by geometry the model keeps
      abstract (a point on a wave front with its outward velocity, or a
      particle after moving and reflecting off the circle). */
  datatype Motion = Motion(x: real, y: real, vx: real, vy: real)

  /** The circle test `math.Sqrt(dx*dx + dy*dy) < shapeRadius`, on squares. */
  predicate InCircle(x: real, y: real)
  {
    (x - CenterX) * (x - CenterX) + (y - CenterY) * (y - CenterY) < ShapeRadius * ShapeRadius
  }

  function NewWave(mx: int, my: int): Wave
  {
    Wave(mx as real, my as real, 5.0, 300.0, 0.0, 0.0)
  }

  function Grow(w: Wave): Wave
  {
    w.(radius := w.radius + 2.5)
  }

  predicate Faded(w: Wave)
  {
    w.radius > w.maxRadius
  }

  /** One frame of a particle: `move` gives its position and velocity after
      moving and bouncing, then the velocity is damped by 0.98 and the age
      grows by 0.016. */
  function Advance(move: Particle -> Motion, p: Particle): (q: Particle)
    ensures q.maxAge == p.maxAge && q.distFromEdge == p.distFromEdge && q.age > p.age
    ensures Dead(q) <==> p.age + 0.016 > p.maxAge
  {
    var m := move(p);
    p.(x := m.x, y := m.y, vx := m.vx * 0.98, vy := m.vy * 0.98, age := p.age + 0.016)
  }

  function Stepper(move: Particle -> Motion): Particle -> Particle
  {
    p => Advance(move, p)
  }

  predicate Dead(p: Particle)
  {
    p.age > p.maxAge
  }

  /** Candidate `j` of `n` on the front of `w`, kept as a new particle of
      age 0 and maximum age 0.8 only when it lies inside the circle. */
  function Emit(candidate: (Wave, int, int) -> Motion, w: Wave, j: int, n: int): (e: Option<Particle>)
    ensures e.Some? <==> InCircle(candidate(w, j, n).x, candidate(w, j, n).y)
    ensures e.Some? ==> e.value.age == 0.0 && e.value.maxAge == 0.8 && InCircle(e.value.x, e.value.y) && !Dead(e.value)
  {
    var m := candidate(w, j, n);
    if InCircle(m.x, m.y) then Some(Particle(m.x, m.y, m.vx, m.vy, 0.0, 0.8, 0.0)) else None
  }

  function Emitter(candidate: (Wave, int, int) -> Motion): (Wave, int, int) -> Option<Particle>
  {
    (w, j, n) => Emit(candidate, w, j, n)
  }

  /** `numParticles := int(w.radius / 5)`, capped at 2. */
  function Quota(w: Wave): (n: int)
    ensures n <= 2
    ensures n <= Trunc(w.radius / 5.0)
    ensures w.radius >= 0.0 ==> n >= 0
    ensures w.radius >= 10.0 ==> n == 2
    ensures n == 2 || n == Trunc(w.radius / 5.0)
  {
    var n := Trunc(w.radius / 5.0);
    if n > 2 then 2 else n
  }

  /** Waves appended by the mouse handling on one frame: one whenever the
      button is down with the cursor strictly inside the circle. */
  function Clicked(button: bool, mx: int, my: int): (r: seq<Wave>)
    ensures |r| == if button && InCircle(mx as real, my as real) then 1 else 0
    ensures forall w :: w in r ==> w == NewWave(mx, my) && InCircle(w.x, w.y) && !Faded(w)
  {
    if button && InCircle(mx as real, my as real) then [NewWave(mx, my)] else []
  }

  /** Waves a run of frames appends, one entry per frame (button, x, y). */
  function ClickedOver(frames: seq<(bool, int, int)>): seq<Wave>
  {
    if frames == [] then []
    else
      var f := frames[|frames| - 1];
      ClickedOver(frames[..|frames| - 1]) + Clicked(f.0, f.1, f.2)
  }

  /** Without a latch, holding the button with the cursor inside the circle
      appends one wave on every frame, each of radius 5, maximum radius 300
      and no velocity. */
  lemma {:induction false} HoldAppendsEveryFrame(frames: seq<(bool, int, int)>)
    requires forall i :: 0 <= i < |frames| ==> frames[i].0 && InCircle(frames[i].1 as real, frames[i].2 as real)
    ensures |ClickedOver(frames)| == |frames|
    ensures forall i :: 0 <= i < |frames| ==>
      ClickedOver(frames)[i] == Wave(frames[i].1 as real, frames[i].2 as real, 5.0, 300.0, 0.0, 0.0)
  {
    if frames != [] {
      HoldAppendsEveryFrame(frames[..|frames| - 1]);
    }
  }

  /** Each wave sheds at most min(int(radius/5), 2) particles on a frame. */
  lemma ShedPerWave(w: Wave, candidate: (Wave, int, int) -> Motion)
    ensures |Emitted(w, Quota(w), Runs(Quota(w)), Emitter(candidate))| <= 2
    ensures Quota(w) >= 0 ==> |Emitted(w, Quota(w), Runs(Quota(w)), Emitter(candidate))| <= Trunc(w.radius / 5.0)
  {
  }

  /** The waves after the grow-and-expire loop: exactly the grown waves that
      have not passed their maximum radius, in their original order. */
  lemma WavesAfterUpdate(ws: seq<Wave>, w: Wave)
    ensures w in Sweep(ws, Grow, Faded) <==>
            exists i :: 0 <= i < |ws| && w == Grow(ws[i]) && w.radius <= w.maxRadius
    ensures Embedded(Sweep(ws, Grow, Faded), Advanced(ws, Grow))
    ensures multiset(Sweep(ws, Grow, Faded))[w] == if w.radius > w.maxRadius then 0 else multiset(Advanced(ws, Grow))[w]
  {
    SweepMembers(ws, Grow, Faded, w);
    SweepCount(ws, Grow, Faded, w);
    SweepKeepsOrder(ws, Grow, Faded);
  }

  /** The particles after the update loop: exactly the advanced particles
      (one frame older, velocity 0.98 times the one `move` gave them) whose
      age is still within their maximum age, in their original order. */
  lemma ParticlesAfterUpdate(ps: seq<Particle>, move: Particle -> Motion, q: Particle)
    ensures q in Sweep(ps, Stepper(move), Dead) <==>
            exists i :: 0 <= i < |ps| && q == Advance(move, ps[i]) && q.age <= q.maxAge
    ensures Embedded(Sweep(ps, Stepper(move), Dead), Advanced(ps, Stepper(move)))
    ensures multiset(Sweep(ps, Stepper(move), Dead))[q] == if q.age > q.maxAge then 0 else multiset(Advanced(ps, Stepper(move)))[q]
  {
    SweepMembers(ps, Stepper(move), Dead, q);
    SweepCount(ps, Stepper(move), Dead, q);
    assert forall i :: 0 <= i < |ps| ==> Stepper(move)(ps[i]) == Advance(move, ps[i]);
    SweepKeepsOrder(ps, Stepper(move), Dead);
  }

  /** Every spawned particle starts inside the circle with age 0 and
      maximum age 0.8, and is one of the first Quota candidates of a wave. */
  lemma SpawnedParticles(ws: seq<Wave>, candidate: (Wave, int, int) -> Motion, p: Particle)
    requires p in SpawnAll(ws, Quota, Emitter(candidate))
    ensures p.age == 0.0 && p.maxAge == 0.8 && InCircle(p.x, p.y)
    ensures exists i, j :: 0 <= i < |ws| && 0 <= j < Quota(ws[i]) && Emit(candidate, ws[i], j, Quota(ws[i])) == Some(p)
  {
    SpawnOrigin(ws, Quota, Emitter(candidate), p);
    var i, j :| 0 <= i < |ws| && 0 <= j < Quota(ws[i]) && Emitter(candidate)(ws[i], j, Quota(ws[i])) == Some(p);
    assert Emit(candidate, ws[i], j, Quota(ws[i])) == Some(p);
  }

  class Game {
    var particles: seq<Particle>
    var waves: seq<Wave>

    /** `&Game{}`: no waves, no particles. */
    constructor ()
      ensures particles == [] && waves == []
    {
      particles, waves := [], [];
    }

    /** The mouse handling of Update: while the button is down, a cursor
        strictly inside the circle appends a new wave. */
    method Press(button: bool, mx: int, my: int)
      modifies this
      ensures waves == old(waves) + Clicked(button, mx, my)
      ensures particles == old(particles)
    {
      if button {
        var x, y := mx as real, my as real;
        if InCircle(x, y) {
          waves := waves + [Wave(x, y, 5.0, 300.0, 0.0, 0.0)];
        }
      }
    }

    /** Update: the mouse handling, the wave loop, the particle spawn and
        the particle loop, in the program's order. `button` and (mx, my) stand
        for ebiten's mouse state. */
    method Update(button: bool, mx: int, my: int,
                  move: Particle -> Motion, candidate: (Wave, int, int) -> Motion)
      modifies this
      ensures waves == Sweep(old(waves) + Clicked(button, mx, my), Grow, Faded)
      ensures particles == Sweep(old(particles) + SpawnAll(waves, Quota, Emitter(candidate)), Stepper(move), Dead)
      ensures forall w :: w in waves ==> w.radius <= w.maxRadius
      ensures forall p :: p in particles ==> p.age <= p.maxAge
    {
      Press(button, mx, my);
      var ws := Splice(waves, Grow, Faded);
      var ps := Spawn(ws, Quota, Emitter(candidate), particles);
      ps := Splice(ps, Stepper(move), Dead);
      waves, particles := ws, ps;
    }
  }
}
