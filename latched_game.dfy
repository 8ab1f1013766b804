// The wave/particle game of _mainv1.go: a press latch lets one wave through
// per mouse press; waves grow and expire, each wave sheds particles on its
// front, and particles age, slow down and expire. The trigonometry that
// places particles and the reflection at the circle are left abstract as the
// functions `candidate` and `move`.
module LatchedGame {
  import opened Slices

  const CenterX: real := 500.0
  const CenterY: real := 400.0
  const ShapeRadius: real := 150.0
  const ParticlesPerWave: int := 8

  datatype Wave = Wave(x: real, y: real, radius: real, maxRadius: real)
  datatype Particle = Particle(x: real, y: real, vx: real, vy: real, age: real, maxAge: real)

  /** A position and a velocity as produced by geometry the model keeps
      abstract (a point on a wave front with its outward velocity, or a
      particle after moving and reflecting off the circle). */
  datatype Motion = Motion(x: real, y: real, vx: real, vy: real)

  /** The circle test `math.Sqrt(dx*dx + dy*dy) < shapeRadius`, on squares. */
  predicate InCircle(x: real, y: real)
  {
    (x - CenterX) * (x - CenterX) + (y - CenterY) * (y - CenterY) < ShapeRadius * ShapeRadius
  }

  function NewWave(mx: int, my: int): Wave
  {
    Wave(mx as real, my as real, 5.0, 300.0)
  }

  function Grow(w: Wave): Wave
  {
    w.(radius := w.radius + 2.5)
  }

  predicate Faded(w: Wave)
  {
    w.radius > w.maxRadius
  }

  /** One frame of a particle: `move` gives its position and velocity after
      moving and bouncing, then the velocity is damped by 0.98 and the age
      grows by 0.016. */
  function Advance(move: Particle -> Motion, p: Particle): (q: Particle)
    ensures q.maxAge == p.maxAge && q.age > p.age
    ensures Dead(q) <==> p.age + 0.016 > p.maxAge
  {
    var m := move(p);
    Particle(m.x, m.y, m.vx * 0.98, m.vy * 0.98, p.age + 0.016, p.maxAge)
  }

  function Stepper(move: Particle -> Motion): Particle -> Particle
  {
    p => Advance(move, p)
  }

  predicate Dead(p: Particle)
  {
    p.age > p.maxAge
  }

  /** Candidate `j` of `n` on the front of `w`, kept as a new particle of
      age 0 and maximum age 0.8 only when it lies inside the circle. */
  function Emit(candidate: (Wave, int, int) -> Motion, w: Wave, j: int, n: int): (e: Option<Particle>)
    ensures e.Some? <==> InCircle(candidate(w, j, n).x, candidate(w, j, n).y)
    ensures e.Some? ==> e.value.age == 0.0 && e.value.maxAge == 0.8 && InCircle(e.value.x, e.value.y) && !Dead(e.value)
  {
    var m := candidate(w, j, n);
    if InCircle(m.x, m.y) then Some(Particle(m.x, m.y, m.vx, m.vy, 0.0, 0.8)) else None
  }

  function Emitter(candidate: (Wave, int, int) -> Motion): (Wave, int, int) -> Option<Particle>
  {
    (w, j, n) => Emit(candidate, w, j, n)
  }

  function Quota(w: Wave): int
  {
    ParticlesPerWave
  }

  /** The wave the mouse handling appends on a frame: one at the cursor when
      the button is down, the latch is open and the cursor is strictly inside
      the circle. */
  function Clicked(pressed: bool, button: bool, mx: int, my: int): (r: seq<Wave>)
    ensures |r| == if Latch(pressed, button).fire && InCircle(mx as real, my as real) then 1 else 0
    ensures forall w :: w in r ==> w == NewWave(mx, my) && InCircle(w.x, w.y)
  {
    if button && !pressed && InCircle(mx as real, my as real) then [NewWave(mx, my)] else []
  }

  /** The latch: on a frame with the button down, a click fires only when
      the latch was open; the latch is closed while the button is down and
      opened again by a release. */
  datatype Edge = Edge(fire: bool, pressed: bool)

  function Latch(pressed: bool, button: bool): (e: Edge)
    ensures e.pressed == button
    ensures e.fire ==> e.pressed && !pressed
  {
    if button then Edge(!pressed, true) else Edge(false, false)
  }

  /** Number of frames, over a run of button states, on which the latch fires. */
  function Fires(pressed: bool, buttons: seq<bool>): nat
    decreases |buttons|
  {
    if buttons == [] then 0
    else
      var e := Latch(pressed, buttons[0]);
      (if e.fire then 1 else 0) + Fires(e.pressed, buttons[1..])
  }

  /** Number of rising edges of the button (released, then pressed), where
      `before` is the state before the first frame. */
  function RisingEdges(before: bool, buttons: seq<bool>): nat
  {
    if buttons == [] then 0
    else
      var n := |buttons|;
      var prior := if n == 1 then before else buttons[n - 2];
      RisingEdges(before, buttons[..n - 1]) + (if buttons[n - 1] && !prior then 1 else 0)
  }

  /** The latch fires exactly once per press: over any run of frames it
      fires as often as the button goes from released to pressed. */
  lemma {:induction false} FiresOnRisingEdges(pressed: bool, buttons: seq<bool>)
    ensures Fires(pressed, buttons) == RisingEdges(pressed, buttons)
    decreases |buttons|
  {
    if buttons != [] {
      var n := |buttons|;
      if n == 1 {
        assert buttons[1..] == [];
        assert buttons[..0] == [];
      } else {
        var rest := buttons[1..];
        FiresOnRisingEdges(buttons[0], rest);
        RisingEdgesCons(pressed, buttons);
      }
    }
  }

  /** RisingEdges, taken apart at the first frame instead of the last. */
  lemma {:induction false} RisingEdgesCons(before: bool, buttons: seq<bool>)
    requires |buttons| >= 1
    ensures RisingEdges(before, buttons) ==
            (if buttons[0] && !before then 1 else 0) + RisingEdges(buttons[0], buttons[1..])
    decreases |buttons|
  {
    var n := |buttons|;
    if n == 1 {
      assert buttons[..0] == [] && buttons[1..] == [];
    } else {
      var init := buttons[..n - 1];
      RisingEdgesCons(before, init);
      assert init[1..] == buttons[1..][..n - 2];
      assert init[0] == buttons[0];
      if n == 2 {
        assert buttons[1..][..0] == [];
      } else {
        assert buttons[1..][n - 3] == buttons[n - 2];
      }
    }
  }

  /** Holding the button down for a run of frames fires at most once: once
      if the run starts with the latch open, never if it was already closed. */
  lemma {:induction false} HoldFiresOnce(pressed: bool, buttons: seq<bool>)
    requires |buttons| > 0
    requires forall i :: 0 <= i < |buttons| ==> buttons[i]
    ensures Fires(pressed, buttons) == if pressed then 0 else 1
    decreases |buttons|
  {
    if |buttons| > 1 {
      HoldFiresOnce(true, buttons[1..]);
    }
  }

  /** The button states of a run of frames (button, x, y). */
  function Buttons(frames: seq<(bool, int, int)>): (b: seq<bool>)
    ensures |b| == |frames| && forall i :: 0 <= i < |frames| ==> b[i] == frames[i].0
  {
    seq(|frames|, i requires 0 <= i < |frames| => frames[i].0)
  }

  /** Waves the mouse handling appends over a run of frames, the latch
      starting as `pressed` and following the button from frame to frame. */
  function ClickedOver(pressed: bool, frames: seq<(bool, int, int)>): seq<Wave>
    decreases |frames|
  {
    if frames == [] then []
    else
      var f := frames[0];
      Clicked(pressed, f.0, f.1, f.2) + ClickedOver(Latch(pressed, f.0).pressed, frames[1..])
  }

  /** With every click inside the circle, a run of frames appends one wave
      per rising edge of the button: one per press, however long it is held. */
  lemma {:induction false} ClicksOnRisingEdges(pressed: bool, frames: seq<(bool, int, int)>)
    requires forall i :: 0 <= i < |frames| ==> InCircle(frames[i].1 as real, frames[i].2 as real)
    ensures |ClickedOver(pressed, frames)| == RisingEdges(pressed, Buttons(frames))
  {
    ClicksFire(pressed, frames);
    FiresOnRisingEdges(pressed, Buttons(frames));
  }

  /** With every click inside the circle, a run of frames appends one wave
      per frame on which the latch fires. */
  lemma {:induction false} ClicksFire(pressed: bool, frames: seq<(bool, int, int)>)
    requires forall i :: 0 <= i < |frames| ==> InCircle(frames[i].1 as real, frames[i].2 as real)
    ensures |ClickedOver(pressed, frames)| == Fires(pressed, Buttons(frames))
    decreases |frames|
  {
    if frames != [] {
      ClicksFire(Latch(pressed, frames[0].0).pressed, frames[1..]);
      assert Buttons(frames)[1..] == Buttons(frames[1..]);
    }
  }

  /** The waves after the grow-and-expire loop: exactly the grown waves that
      have not passed their maximum radius, in their original order. */
  lemma WavesAfterUpdate(ws: seq<Wave>, w: Wave)
    ensures w in Sweep(ws, Grow, Faded) <==>
            exists i :: 0 <= i < |ws| && w == Grow(ws[i]) && w.radius <= w.maxRadius
    ensures Embedded(Sweep(ws, Grow, Faded), Advanced(ws, Grow))
    ensures multiset(Sweep(ws, Grow, Faded))[w] == if w.radius > w.maxRadius then 0 else multiset(Advanced(ws, Grow))[w]
  {
    SweepMembers(ws, Grow, Faded, w);
    SweepCount(ws, Grow, Faded, w);
    SweepKeepsOrder(ws, Grow, Faded);
  }

  /** The particles after the update loop: exactly the advanced particles
      (one frame older, velocity 0.98 times the one `move` gave them) whose
      age is still within their maximum age, in their original order. */
  lemma ParticlesAfterUpdate(ps: seq<Particle>, move: Particle -> Motion, q: Particle)
    ensures q in Sweep(ps, Stepper(move), Dead) <==>
            exists i :: 0 <= i < |ps| && q == Advance(move, ps[i]) && q.age <= q.maxAge
    ensures Embedded(Sweep(ps, Stepper(move), Dead), Advanced(ps, Stepper(move)))
    ensures multiset(Sweep(ps, Stepper(move), Dead))[q] == if q.age > q.maxAge then 0 else multiset(Advanced(ps, Stepper(move)))[q]
  {
    SweepMembers(ps, Stepper(move), Dead, q);
    SweepCount(ps, Stepper(move), Dead, q);
    assert forall i :: 0 <= i < |ps| ==> Stepper(move)(ps[i]) == Advance(move, ps[i]);
    SweepKeepsOrder(ps, Stepper(move), Dead);
  }

  /** Every spawned particle starts inside the circle with age 0 and
      maximum age 0.8, and is one of the first Quota (8) candidates of a
      wave. */
  lemma SpawnedParticles(ws: seq<Wave>, candidate: (Wave, int, int) -> Motion, p: Particle)
    requires p in SpawnAll(ws, Quota, Emitter(candidate))
    ensures p.age == 0.0 && p.maxAge == 0.8 && InCircle(p.x, p.y)
    ensures exists i, j :: 0 <= i < |ws| && 0 <= j < Quota(ws[i]) && Emit(candidate, ws[i], j, Quota(ws[i])) == Some(p)
  {
    SpawnOrigin(ws, Quota, Emitter(candidate), p);
    var i, j :| 0 <= i < |ws| && 0 <= j < Quota(ws[i]) && Emitter(candidate)(ws[i], j, Quota(ws[i])) == Some(p);
    assert Emit(candidate, ws[i], j, Quota(ws[i])) == Some(p);
  }

  /** Each wave sheds at most ParticlesPerWave (8) particles on a frame. */
  lemma ShedPerWave(w: Wave, candidate: (Wave, int, int) -> Motion)
    ensures Quota(w) == ParticlesPerWave
    ensures |Emitted(w, Quota(w), Runs(Quota(w)), Emitter(candidate))| <= ParticlesPerWave
  {
  }

  class Game {
    var particles: seq<Particle>
    var waves: seq<Wave>
    var pressed: bool

    /** `&Game{}`: no waves, no particles, latch open. */
    constructor ()
      ensures particles == [] && waves == [] && !pressed
    {
      particles, waves, pressed := [], [], false;
    }

    /** The mouse handling of Update: with the button down and the latch
        open, a click strictly inside the circle appends a new wave; the latch
        then follows the button. */
    method Press(button: bool, mx: int, my: int)
      modifies this
      ensures pressed == button == Latch(old(pressed), button).pressed
      ensures waves == old(waves) + Clicked(old(pressed), button, mx, my)
      ensures particles == old(particles)
    {
      if button {
        if !pressed {
          var x, y := mx as real, my as real;
          if InCircle(x, y) {
            waves := waves + [Wave(x, y, 5.0, 300.0)];
          }
          pressed := true;
        }
      } else {
        pressed := false;
      }
    }

    /** Update: the mouse handling, the wave loop, the particle spawn and
        the particle loop, in the program's order. `button` and (mx, my) stand
        for ebiten's mouse state. */
    method Update(button: bool, mx: int, my: int,
                  move: Particle -> Motion, candidate: (Wave, int, int) -> Motion)
      modifies this
      ensures pressed == button
      ensures waves == Sweep(old(waves) + Clicked(old(pressed), button, mx, my), Grow, Faded)
      ensures particles == Sweep(old(particles) + SpawnAll(waves, Quota, Emitter(candidate)), Stepper(move), Dead)
      ensures forall w :: w in waves ==> w.radius <= w.maxRadius
      ensures forall p :: p in particles ==> p.age <= p.maxAge
    {
      Press(button, mx, my);
      var ws := Splice(waves, Grow, Faded);
      var ps := Spawn(ws, Quota, Emitter(candidate), particles);
      ps := Splice(ps, Stepper(move), Dead);
      waves, particles := ws, ps;
    }
  }
}
