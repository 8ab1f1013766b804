// The height + velocity wave grid of _mainv16-.go. The lattice is W columns
// by H rows (the program uses 1200 by 800 with a grid size of 1, so lattice
// and screen coordinates coincide); arrays are indexed [y, x] as the
// program's `height[y][x]`.
module VelocityGrid {
  import opened GoNumerics

  const ShapeRadius: real := 150.0
  const WaveSpeed: real := 1.0
  const Damping: real := 1.0

  /** Energy an impulse gives a cell at distance `d` from the click: 40·(1 − d/8)². */
  function Falloff(d: real): (e: real)
    ensures e >= 0.0
    ensures d == 0.0 ==> e == 40.0
    ensures d == 8.0 ==> e == 0.0
  {
    var f := 1.0 - d / 8.0;
    assert f * f >= 0.0 by {
      if f < 0.0 { assert f * f == (-f) * (-f); }
    }
    40.0 * f * f
  }

  /** What addWave adds to the velocity of the cell at offset (dx, dy) from
      the click cell: the offset is within the 17×17 box the loops visit, the
      cell is masked, and `norm(dx, dy)` (math.Sqrt of dx² + dy²) is at most 8. */
  function Impulse(masked: bool, dx: int, dy: int, norm: (int, int) -> real): (r: real)
    ensures r >= 0.0
    ensures !masked ==> r == 0.0
    ensures dx < -8 || 8 < dx || dy < -8 || 8 < dy ==> r == 0.0
  {
    if masked && -8 <= dx <= 8 && -8 <= dy <= 8 && norm(dx, dy) <= 8.0
    then Falloff(norm(dx, dy))
    else 0.0
  }

  /** `norm` is the Euclidean length of integer offsets. */
  ghost predicate IsNorm(norm: (int, int) -> real)
  {
    forall dx: int, dy: int :: 0.0 <= norm(dx, dy) && norm(dx, dy) * norm(dx, dy) == (dx * dx + dy * dy) as real
  }

  /** The impulse is never negative, and it reaches exactly the masked cells
      within distance 8 of the click: the square box the loops walk adds
      nothing beyond the disk test. */
  lemma ImpulseReach(masked: bool, dx: int, dy: int, norm: (int, int) -> real)
    requires IsNorm(norm)
    ensures Impulse(masked, dx, dy, norm) >= 0.0
    ensures masked && dx * dx + dy * dy <= 64 ==> Impulse(masked, dx, dy, norm) == Falloff(norm(dx, dy))
    ensures !masked || dx * dx + dy * dy > 64 ==> Impulse(masked, dx, dy, norm) == 0.0
  {
    var d := norm(dx, dy);
    RootCompare((dx * dx + dy * dy) as real, d, 8.0);
  }

  /** A wall neighbour's share of the Laplacian is what a neighbour of
      height 0 inside the shape would contribute. */
  function Share(masked: bool, hn: real, h: real): real
  {
    if masked then hn - h else -h
  }

  /** The velocity a masked interior cell gets from its old velocity and the
      four neighbour shares: the mean Laplacian (always divided by 4) times c²,
      then damped. */
  function Verlet(v: real, up: real, down: real, left: real, right: real): real
  {
    (v + (up + down + left + right) / 4.0 * WaveSpeed * WaveSpeed) * Damping
  }

  class WaveGrid {
    const W: int
    const H: int
    const height: array2<real>
    var velocity: array2<real>
    const mask: array2<bool>
    const cx: real
    const cy: real
    const radius: real

    ghost predicate Valid()
      reads this
    {
      3 <= W && 3 <= H &&
      height.Length0 == H && height.Length1 == W &&
      velocity.Length0 == H && velocity.Length1 == W &&
      mask.Length0 == H && mask.Length1 == W &&
      height != velocity
    }

    /** The mask test of initializeMask: math.Sqrt(dx² + dy²) < radius,
        compared on squares (see GoNumerics.RootCompare). */
    predicate InShape(x: int, y: int)
    {
      var dx := x as real - cx;
      var dy := y as real - cy;
      dx * dx + dy * dy < radius * radius
    }

    /** Unmasked cells hold height 0 and velocity 0. */
    ghost predicate Quiet()
      reads this, height, velocity, mask
      requires Valid()
    {
      forall y, x :: 0 <= y < H && 0 <= x < W && !mask[y, x] ==> height[y, x] == 0.0 && velocity[y, x] == 0.0
    }

    /** The lattice border holds height 0 and velocity 0. */
    ghost predicate BorderZero()
      reads this, height, velocity
      requires Valid()
    {
      forall y, x :: 0 <= y < H && 0 <= x < W && (y == 0 || y == H - 1 || x == 0 || x == W - 1) ==>
        height[y, x] == 0.0 && velocity[y, x] == 0.0
    }

    /** Height of (y, x) after the position pass of update. */
    ghost function Moved(y: int, x: int): (r: real)
      reads this, height, velocity, mask
      requires Valid() && 0 <= y < H && 0 <= x < W
      ensures Quiet() && !mask[y, x] ==> r == 0.0
    {
      if mask[y, x] then height[y, x] + velocity[y, x] else height[y, x]
    }

    /** Velocity of (y, x) after update: computed from the moved heights and
        the cell's old velocity only, and 0 for unmasked cells and for the
        lattice border. While the walls
        are quiet, a wall's share is that of a neighbour at height 0, so a
        masked interior cell gains the plain 4-neighbour Laplacian of the
        moved field, divided by 4. */
    ghost function NextVelocity(y: int, x: int): (r: real)
      reads this, height, velocity, mask
      requires Valid() && 0 <= y < H && 0 <= x < W
      ensures !(1 <= y < H - 1 && 1 <= x < W - 1 && mask[y, x]) ==> r == 0.0
      ensures Quiet() && 1 <= y < H - 1 && 1 <= x < W - 1 && mask[y, x] ==>
        r == velocity[y, x] +
          (Moved(y - 1, x) + Moved(y + 1, x) + Moved(y, x - 1) + Moved(y, x + 1) - 4.0 * Moved(y, x)) / 4.0
    {
      if 1 <= y < H - 1 && 1 <= x < W - 1 && mask[y, x] then
        var h := Moved(y, x);
        Verlet(velocity[y, x],
               Share(mask[y - 1, x], Moved(y - 1, x), h),
               Share(mask[y + 1, x], Moved(y + 1, x), h),
               Share(mask[y, x - 1], Moved(y, x - 1), h),
               Share(mask[y, x + 1], Moved(y, x + 1), h))
      else 0.0
    }

    /** Height of (y, x) after update: the moved height, 0 on the border. */
    ghost function NextHeight(y: int, x: int): (r: real)
      reads this, height, velocity, mask
      requires Valid() && 0 <= y < H && 0 <= x < W
      ensures y == 0 || y == H - 1 || x == 0 || x == W - 1 ==> r == 0.0
      ensures Quiet() && !mask[y, x] ==> r == 0.0
    {
      if y == 0 || y == H - 1 || x == 0 || x == W - 1 then 0.0 else Moved(y, x)
    }

    /** NewWaveGrid: all heights and velocities 0, the mask is the disk of
        radius 150 around the centre of the screen. */
    constructor (w: int, h: int)
      requires 3 <= w && 3 <= h
      ensures Valid() && W == w && H == h
      ensures fresh(height) && fresh(velocity) && fresh(mask)
      ensures cx == w as real / 2.0 && cy == h as real / 2.0 && radius == ShapeRadius
      ensures forall y, x :: 0 <= y < H && 0 <= x < W ==>
        height[y, x] == 0.0 && velocity[y, x] == 0.0 && (mask[y, x] <==> InShape(x, y))
      ensures Quiet() && BorderZero()
    {
      W, H := w, h;
      height := new real[h, w]((_, _) => 0.0);
      velocity := new real[h, w]((_, _) => 0.0);
      mask := new bool[h, w];
      cx, cy := w as real / 2.0, h as real / 2.0;
      radius := ShapeRadius;
      new;
      InitializeMask();
    }

    method InitializeMask()
      requires Valid()
      modifies mask
      ensures forall y, x :: 0 <= y < H && 0 <= x < W ==> (mask[y, x] <==> InShape(x, y))
    {
      for y := 0 to H
        invariant forall b, a :: 0 <= b < y && 0 <= a < W ==> (mask[b, a] <==> InShape(a, b))
      {
        for x := 0 to W
          invariant forall b, a :: 0 <= b < H && 0 <= a < W && (b < y || (b == y && a < x)) ==>
            (mask[b, a] <==> InShape(a, b))
        {
          mask[y, x] := InShape(x, y);
        }
      }
    }

    /** addWave: adds Impulse to the velocity of every cell around the click
        cell (int(mx), int(my)); heights and the mask are not touched. */
    method AddWave(mx: real, my: real, norm: (int, int) -> real)
      requires Valid()
      modifies velocity
      ensures forall y, x :: 0 <= y < H && 0 <= x < W ==>
        velocity[y, x] == old(velocity[y, x]) + Impulse(mask[y, x], x - Trunc(mx), y - Trunc(my), norm)
      ensures old(Quiet()) ==> Quiet()
    {
      var gridX, gridY := Trunc(mx), Trunc(my);
      var dy := -8;
      while dy <= 8
        invariant -8 <= dy <= 9
        invariant forall y, x :: 0 <= y < H && 0 <= x < W ==>
          velocity[y, x] == old(velocity[y, x]) +
            (if y - gridY < dy then Impulse(mask[y, x], x - gridX, y - gridY, norm) else 0.0)
      {
        var dx := -8;
        while dx <= 8
          invariant -8 <= dx <= 9
          invariant forall y, x :: 0 <= y < H && 0 <= x < W ==>
            velocity[y, x] == old(velocity[y, x]) +
              (if y - gridY < dy || (y - gridY == dy && x - gridX < dx)
               then Impulse(mask[y, x], x - gridX, y - gridY, norm) else 0.0)
        {
          var x, y := gridX + dx, gridY + dy;
          if 0 <= x < W && 0 <= y < H && mask[y, x] {
            var dist := norm(dx, dy);
            if dist <= 8.0 {
              var energy := Falloff(dist);
              velocity[y, x] := velocity[y, x] + energy;
            }
          }
          dx := dx + 1;
        }
        dy := dy + 1;
      }
    }

    /** update: one time step. Velocities are computed into a fresh buffer
        from the moved heights and the old velocities only, so the result does
        not depend on the order of the sweep; the border of the height field
        is zeroed afterwards. */
    method Update()
      requires Valid()
      modifies this, height
      ensures Valid() && fresh(velocity)
      ensures forall y, x :: 0 <= y < H && 0 <= x < W ==>
        height[y, x] == old(NextHeight(y, x)) && velocity[y, x] == old(NextVelocity(y, x))
      ensures BorderZero()
      ensures old(Quiet()) ==> Quiet()
    {
      MovePass();
      var newVelocity := new real[H, W]((_, _) => 0.0);
      for y := 1 to H - 1
        invariant velocity == old(velocity)
        invariant forall b, a :: 0 <= b < H && 0 <= a < W ==> height[b, a] == old(Moved(b, a))
        invariant forall b, a :: 0 <= b < H && 0 <= a < W ==>
          newVelocity[b, a] == if b < y then old(NextVelocity(b, a)) else 0.0
      {
        for x := 1 to W - 1
          invariant velocity == old(velocity)
          invariant forall b, a :: 0 <= b < H && 0 <= a < W ==> height[b, a] == old(Moved(b, a))
          invariant forall b, a :: 0 <= b < H && 0 <= a < W ==>
            newVelocity[b, a] == if b < y || (b == y && a < x) then old(NextVelocity(b, a)) else 0.0
        {
          if !mask[y, x] {
            newVelocity[y, x] := 0.0;
          } else {
            var h := height[y, x];
            // the neighbours (0,-1), (0,1), (-1,0), (1,0); `neighbors` is
            // counted outside the bounds check, so it is always 4 and the sum
            // is always divided by 4 (in the sweep range all four are on the
            // lattice anyway)
            var up := Share(mask[y - 1, x], height[y - 1, x], h);
            var down := Share(mask[y + 1, x], height[y + 1, x], h);
            var left := Share(mask[y, x - 1], height[y, x - 1], h);
            var right := Share(mask[y, x + 1], height[y, x + 1], h);
            newVelocity[y, x] := Verlet(velocity[y, x], up, down, left, right);
          }
        }
      }
      velocity := newVelocity;
      ClearBorder();
    }

    /** Position pass of update: masked cells move by their velocity. */
    method MovePass()
      requires Valid()
      modifies height
      ensures forall y, x :: 0 <= y < H && 0 <= x < W ==> height[y, x] == old(Moved(y, x))
    {
      for y := 0 to H
        invariant forall b, a :: 0 <= b < H && 0 <= a < W ==>
          height[b, a] == if b < y then old(Moved(b, a)) else old(height[b, a])
      {
        for x := 0 to W
          invariant forall b, a :: 0 <= b < H && 0 <= a < W ==>
            height[b, a] == if b < y || (b == y && a < x) then old(Moved(b, a)) else old(height[b, a])
        {
          if mask[y, x] {
            height[y, x] := height[y, x] + velocity[y, x];
          }
        }
      }
    }

    /** Zeroes rows 0 and H-1 and columns 0 and W-1 of the height field. */
    method ClearBorder()
      requires Valid()
      modifies height
      ensures forall y, x :: 0 <= y < H && 0 <= x < W ==>
        height[y, x] == if y == 0 || y == H - 1 || x == 0 || x == W - 1 then 0.0 else old(height[y, x])
    {
      for x := 0 to W
        invariant forall b, a :: 0 <= b < H && 0 <= a < W ==>
          height[b, a] == if (b == 0 || b == H - 1) && a < x then 0.0 else old(height[b, a])
      {
        height[0, x] := 0.0;
        height[H - 1, x] := 0.0;
      }
      for y := 0 to H
        invariant forall b, a :: 0 <= b < H && 0 <= a < W ==>
          height[b, a] == if b == 0 || b == H - 1 || ((a == 0 || a == W - 1) && b < y) then 0.0 else old(height[b, a])
      {
        height[y, 0] := 0.0;
        height[y, W - 1] := 0.0;
      }
    }
  }
}
