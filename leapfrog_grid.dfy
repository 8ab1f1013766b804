// The leapfrog wave grid of _mainv15.go: two height snapshots, `current` and
// `previous`, updated in place by one row-major sweep. The lattice is W
// columns by H rows (1200 by 800 in the program, grid size 1); arrays are
// indexed [y, x] as the program's `current[y][x]`.
module LeapfrogGrid {
  import opened GoNumerics

  const GridSize: int := 1
  const WaveSpeed: real := 0.25
  const Damping: real := 0.995
  const Kick: real := 20.0

  /** pointInShape: the screen point (px, py) lies strictly within radius 150
      of the screen centre (screenWidth/2, screenHeight/2), where the centre is
      computed by integer division; math.Sqrt is compared on squares. */
  predicate PointInShape(screenWidth: int, screenHeight: int, px: real, py: real)
  {
    var dx := px - (screenWidth / 2) as real;
    var dy := py - (screenHeight / 2) as real;
    dx * dx + dy * dy < 150.0 * 150.0
  }

  /** For `dist` the square root of dx² + dy², PointInShape is the program's
      test `dist < radius` with radius 150. */
  lemma PointInShapeByDistance(screenWidth: int, screenHeight: int, px: real, py: real, dist: real)
    requires 0.0 <= dist
    requires dist * dist == (px - (screenWidth / 2) as real) * (px - (screenWidth / 2) as real)
                          + (py - (screenHeight / 2) as real) * (py - (screenHeight / 2) as real)
    ensures PointInShape(screenWidth, screenHeight, px, py) <==> dist < 150.0
  {
    RootCompare(dist * dist, dist, 150.0);
  }

  /** One neighbour's term of the Laplacian sum: its height when it is inside
      the shape, −cur for a wall. Since −4·cur is subtracted afterwards, a wall
      neighbour weighs in with −2·cur in total. */
  function Term(masked: bool, hn: real, cur: real): real
  {
    if masked then hn else -cur
  }

  /** The leapfrog rule: damping·(2·cur − prev + c²·lap). */
  function Leap(cur: real, prev: real, lap: real): (r: real)
    ensures cur == prev && lap == 0.0 ==> r == Damping * cur
    ensures cur == prev && lap == 0.0 && 0.0 < cur ==> 0.0 < r < cur
  {
    (2.0 * cur - prev + WaveSpeed * WaveSpeed * lap) * Damping
  }

  /** The values of a 2-D array, row by row. */
  ghost function Rows<T>(a: array2<T>): (g: seq<seq<T>>)
    reads a
    ensures |g| == a.Length0
    ensures forall y :: 0 <= y < a.Length0 ==> |g[y]| == a.Length1
    ensures forall y, x :: 0 <= y < a.Length0 && 0 <= x < a.Length1 ==> g[y][x] == a[y, x]
  {
    seq(a.Length0, y requires 0 <= y < a.Length0 reads a =>
      seq(a.Length1, x requires 0 <= x < a.Length1 reads a => a[y, x]))
  }

  /** The state of a grid as a value: `h` rows of `w` heights in each
      snapshot, and the mask. */
  datatype Lattice = Lattice(h: int, w: int, cur: seq<seq<real>>, prev: seq<seq<real>>, mask: seq<seq<bool>>)
  {
    predicate Valid()
    {
      3 <= h && 3 <= w && |cur| == h && |prev| == h && |mask| == h &&
      forall y :: 0 <= y < h ==> |cur[y]| == w && |prev[y]| == w && |mask[y]| == w
    }
  }

  /** The value the interior cell (y, x) of `g` holds after one in-place
      row-major sweep: an unmasked cell keeps its height; a masked one gets
      the leapfrog value from a Laplacian that reads the neighbours above and
      to the left after the sweep has already overwritten them (unless they
      lie on the border, which the sweep never writes) and the neighbours
      below and to the right as they were. */
  function After(g: Lattice, y: int, x: int): (r: real)
    requires g.Valid() && 1 <= y < g.h - 1 && 1 <= x < g.w - 1
    ensures !g.mask[y][x] ==> r == g.cur[y][x]
    decreases y, x
  {
    var c := g.cur[y][x];
    if !g.mask[y][x] then c
    else
      var up := if 2 <= y then After(g, y - 1, x) else g.cur[y - 1][x];
      var left := if 2 <= x then After(g, y, x - 1) else g.cur[y][x - 1];
      var lap := Term(g.mask[y - 1][x], up, c) + Term(g.mask[y + 1][x], g.cur[y + 1][x], c)
               + Term(g.mask[y][x - 1], left, c) + Term(g.mask[y][x + 1], g.cur[y][x + 1], c)
               - 4.0 * c;
      Leap(c, g.prev[y][x], lap)
  }

  /** The leapfrog value of the interior cell (y, x) when every neighbour is
      read from the snapshot, as a simultaneous update of the lattice would. */
  function Simultaneous(g: Lattice, y: int, x: int): real
    requires g.Valid() && 1 <= y < g.h - 1 && 1 <= x < g.w - 1
  {
    var c := g.cur[y][x];
    if !g.mask[y][x] then c
    else
      var lap := Term(g.mask[y - 1][x], g.cur[y - 1][x], c) + Term(g.mask[y + 1][x], g.cur[y + 1][x], c)
               + Term(g.mask[y][x - 1], g.cur[y][x - 1], c) + Term(g.mask[y][x + 1], g.cur[y][x + 1], c)
               - 4.0 * c;
      Leap(c, g.prev[y][x], lap)
  }

  /** The sweep agrees with the simultaneous update at every cell whose
      neighbours above and to the left are on the border or walls: only
      those two neighbours are read after being overwritten. */
  lemma AfterWhereNothingIsOverwritten(g: Lattice, y: int, x: int)
    requires g.Valid() && 1 <= y < g.h - 1 && 1 <= x < g.w - 1
    requires y == 1 || !g.mask[y - 1][x]
    requires x == 1 || !g.mask[y][x - 1]
    ensures After(g, y, x) == Simultaneous(g, y, x)
  {
  }

  /** A 3 by 4 lattice, all inside the shape, at rest except for a unit
      height at (1, 1). */
  function Pulse(): (g: Lattice)
    ensures g.Valid() && g.h == 3 && g.w == 4
  {
    var zero := [0.0, 0.0, 0.0, 0.0];
    var open := [true, true, true, true];
    Lattice(3, 4, [zero, [0.0, 1.0, 0.0, 0.0], zero], [zero, zero, zero], [open, open, open])
  }

  /** The in-place sweep is not the simultaneous update: at (1, 2) it reads
      the value (1, 1) has just been given (1.74125) instead of its old height
      1, so the two disagree there (0.108283984375 against 0.0621875). */
  lemma InPlaceDiffersFromSimultaneous()
    ensures After(Pulse(), 1, 1) == 1.74125
    ensures Simultaneous(Pulse(), 1, 2) == 0.0621875
    ensures After(Pulse(), 1, 2) == 0.108283984375
  {
    var g := Pulse();
    assert g.cur[1][1] == 1.0 && g.cur[0][1] == 0.0 && g.cur[2][1] == 0.0 && g.cur[1][0] == 0.0 && g.cur[1][2] == 0.0;
    assert g.cur[1][2] == 0.0 && g.cur[0][2] == 0.0 && g.cur[2][2] == 0.0 && g.cur[1][3] == 0.0;
    assert g.prev[1][1] == 0.0 && g.prev[1][2] == 0.0;
  }

  /** A lattice at rest stays at rest: when both snapshots are 0 everywhere,
      every interior cell is 0 after the sweep. */
  lemma {:induction false} RestStaysAtRest(g: Lattice, y: int, x: int)
    requires g.Valid() && 1 <= y < g.h - 1 && 1 <= x < g.w - 1
    requires forall b, a :: 0 <= b < g.h && 0 <= a < g.w ==> g.cur[b][a] == 0.0 && g.prev[b][a] == 0.0
    ensures After(g, y, x) == 0.0
    decreases y, x
  {
    if 2 <= y {
      RestStaysAtRest(g, y - 1, x);
    }
    if 2 <= x {
      RestStaysAtRest(g, y, x - 1);
    }
  }

  class WaveGrid {
    const W: int
    const H: int
    const current: array2<real>
    const previous: array2<real>
    const mask: array2<bool>

    ghost predicate Valid()
      reads this
    {
      3 <= W && 3 <= H &&
      current.Length0 == H && current.Length1 == W &&
      previous.Length0 == H && previous.Length1 == W &&
      mask.Length0 == H && mask.Length1 == W &&
      current != previous
    }

    /** Unmasked cells hold 0 in both snapshots. */
    ghost predicate Quiet()
      reads this, current, previous, mask
      requires Valid()
    {
      forall y, x :: 0 <= y < H && 0 <= x < W && !mask[y, x] ==> current[y, x] == 0.0 && previous[y, x] == 0.0
    }

    /** (y, x) is one of the cells the sweep visits. */
    predicate Interior(y: int, x: int)
    {
      1 <= y < H - 1 && 1 <= x < W - 1
    }

    /** NewWaveGrid: both snapshots are 0 everywhere and the mask holds
        pointInShape at each cell's screen position (x·gridSize, y·gridSize). */
    constructor (w: int, h: int)
      requires 3 <= w && 3 <= h
      ensures Valid() && W == w && H == h
      ensures fresh(current) && fresh(previous) && fresh(mask)
      ensures forall y, x :: 0 <= y < H && 0 <= x < W ==>
        current[y, x] == 0.0 && previous[y, x] == 0.0 &&
        (mask[y, x] <==> PointInShape(W * GridSize, H * GridSize, (x * GridSize) as real, (y * GridSize) as real))
      ensures Quiet()
    {
      W, H := w, h;
      current := new real[h, w]((_, _) => 0.0);
      previous := new real[h, w]((_, _) => 0.0);
      mask := new bool[h, w];
      new;
      InitializeMask();
    }

    method InitializeMask()
      requires Valid()
      modifies mask
      ensures forall y, x :: 0 <= y < H && 0 <= x < W ==>
        (mask[y, x] <==> PointInShape(W * GridSize, H * GridSize, (x * GridSize) as real, (y * GridSize) as real))
    {
      for y := 0 to H
        invariant forall b, a :: 0 <= b < y && 0 <= a < W ==>
          (mask[b, a] <==> PointInShape(W * GridSize, H * GridSize, (a * GridSize) as real, (b * GridSize) as real))
      {
        for x := 0 to W
          invariant forall b, a :: 0 <= b < H && 0 <= a < W && (b < y || (b == y && a < x)) ==>
            (mask[b, a] <==> PointInShape(W * GridSize, H * GridSize, (a * GridSize) as real, (b * GridSize) as real))
        {
          var px := (x * GridSize) as real;
          var py := (y * GridSize) as real;
          mask[y, x] := PointInShape(W * GridSize, H * GridSize, px, py);
        }
      }
    }

    /** addWave: adds 20 to `current` at the single cell
        (int(mx/gridSize), int(my/gridSize)) when it is on the lattice and
        masked; `previous` is never touched. */
    method AddWave(mx: real, my: real)
      requires Valid()
      modifies current
      ensures forall y, x :: 0 <= y < H && 0 <= x < W ==>
        current[y, x] == old(current[y, x]) +
          (if x == Trunc(mx / GridSize as real) && y == Trunc(my / GridSize as real) && mask[y, x] then Kick else 0.0)
      ensures old(Quiet()) ==> Quiet()
    {
      var gridX := Trunc(mx / GridSize as real);
      var gridY := Trunc(my / GridSize as real);
      if 0 <= gridX < W && 0 <= gridY < H && mask[gridY, gridX] {
        current[gridY, gridX] := current[gridY, gridX] + Kick;
      }
    }

    /** The values the grid holds now, as a lattice value. */
    ghost function Snapshot(): (g: Lattice)
      reads this, current, previous, mask
      requires Valid()
      ensures g.Valid() && g.h == H && g.w == W
    {
      Lattice(H, W, Rows(current), Rows(previous), Rows(mask))
    }

    /** update: the in-place leapfrog sweep followed by zeroing the border of
        `current` (`previous` is not reset there). */
    method Update()
      requires Valid()
      modifies current, previous
      ensures forall y, x :: Interior(y, x) ==>
        current[y, x] == After(old(Snapshot()), y, x) &&
        previous[y, x] == if mask[y, x] then old(current[y, x]) else old(previous[y, x])
      ensures forall y, x :: 0 <= y < H && 0 <= x < W && !Interior(y, x) ==>
        current[y, x] == 0.0 && previous[y, x] == old(previous[y, x])
      ensures old(Quiet()) ==> Quiet()
    {
      Sweep();
      ClearBorder();
    }

    /** The nested loop of update: every interior cell, in row-major order,
        ends with the value After gives it, and each masked one hands its old
        `current` to `previous`; the border is not touched. */
    method Sweep()
      requires Valid()
      modifies current, previous
      ensures forall y, x :: Interior(y, x) ==>
        current[y, x] == After(old(Snapshot()), y, x) &&
        previous[y, x] == if mask[y, x] then old(current[y, x]) else old(previous[y, x])
      ensures forall y, x :: 0 <= y < H && 0 <= x < W && !Interior(y, x) ==>
        current[y, x] == old(current[y, x]) && previous[y, x] == old(previous[y, x])
    {
      ghost var g := Snapshot();
      for y := 1 to H - 1
        invariant Reached(g, y, 1)
      {
        SweepRow(y, g);
      }
    }

    /** One row of the sweep, the inner loop of update, from the state in
        which every earlier row has been visited. */
    method SweepRow(y: int, ghost g: Lattice)
      requires Valid() && 1 <= y < H - 1
      requires Tracks(g) && Reached(g, y, 1)
      modifies current, previous
      ensures Reached(g, y + 1, 1)
    {
      for x := 1 to W - 1
        invariant Reached(g, y, x)
      {
        if mask[y, x] {
          ReachedLaplacian(g, y, x);
        }
        Visit(y, x);
      }
    }

    /** When the sweep reaches a masked cell, the neighbours it reads are
        exactly those After reads, so the leapfrog value it stores there is
        the cell's value after the sweep. */
    lemma ReachedLaplacian(g: Lattice, y: int, x: int)
      requires Valid() && Interior(y, x) && Tracks(g) && Reached(g, y, x) && mask[y, x]
      ensures After(g, y, x) == Leap(current[y, x], previous[y, x], Laplacian(y, x))
    {
      assert Visited(y - 1, x, y, x) <==> 2 <= y;
      assert Visited(y, x - 1, y, x) <==> 2 <= x;
    }

    /** `g` is a snapshot of this grid: same shape and same mask. */
    ghost predicate Tracks(g: Lattice)
      reads this, mask
      requires Valid()
    {
      g.Valid() && g.h == H && g.w == W &&
      forall b, a :: 0 <= b < H && 0 <= a < W ==> mask[b, a] == g.mask[b][a]
    }

    /** The sweep that started from snapshot `g` has reached (y, x): the
        cells visited so far hold their value after the sweep and, when
        masked, their old height in `previous`; all others still hold the
        snapshot's values. */
    ghost predicate Reached(g: Lattice, y: int, x: int)
      reads this, current, previous, mask
      requires Valid() && Tracks(g)
    {
      forall b, a :: 0 <= b < H && 0 <= a < W ==>
        current[b, a] == (if Visited(b, a, y, x) then After(g, b, a) else g.cur[b][a]) &&
        previous[b, a] == (if Visited(b, a, y, x) && g.mask[b][a] then g.cur[b][a] else g.prev[b][a])
    }

    /** The sweep has reached (y, x): the cells it visited before come
        before (y, x) in row-major order. */
    predicate Visited(b: int, a: int, y: int, x: int)
    {
      Interior(b, a) && (b < y || (b == y && a < x))
    }

    /** The Laplacian of the interior cell (y, x) from the values `current`
        holds now: Σ Term over the four neighbours − 4·cur. */
    function Laplacian(y: int, x: int): real
      reads this, current, mask
      requires Valid() && Interior(y, x)
    {
      var c := current[y, x];
      Term(mask[y - 1, x], current[y - 1, x], c)
      + Term(mask[y + 1, x], current[y + 1, x], c)
      + Term(mask[y, x - 1], current[y, x - 1], c)
      + Term(mask[y, x + 1], current[y, x + 1], c)
      - 4.0 * c
    }

    /** Number of wall (unmasked) cells among the four neighbours of (y, x). */
    function Walls(y: int, x: int): (n: nat)
      reads this, mask
      requires Valid() && Interior(y, x)
      ensures n <= 4
    {
      (if mask[y - 1, x] then 0 else 1) + (if mask[y + 1, x] then 0 else 1)
      + (if mask[y, x - 1] then 0 else 1) + (if mask[y, x + 1] then 0 else 1)
    }

    /** While the walls are quiet, the sweep's Laplacian is the plain
        4-neighbour Laplacian (walls reading 0) minus cur once more for every
        wall neighbour: a wall weighs −2·cur in all, where _mainv16-.go's
        wall weighs −h, like a neighbour at height 0. */
    lemma WallWeighsTwice(y: int, x: int)
      requires Valid() && Quiet() && Interior(y, x)
      ensures Laplacian(y, x) ==
        current[y - 1, x] + current[y + 1, x] + current[y, x - 1] + current[y, x + 1]
        - 4.0 * current[y, x] - Walls(y, x) as real * current[y, x]
    {
    }

    /** The body of the sweep for one cell: an unmasked cell is skipped; a
        masked one gets the leapfrog value from the neighbours as they are
        now, and `previous` receives its current value. */
    method Visit(y: int, x: int)
      requires Valid() && Interior(y, x)
      modifies current, previous
      ensures mask[y, x] ==>
        current[y, x] == Leap(old(current[y, x]), old(previous[y, x]), old(Laplacian(y, x))) &&
        previous[y, x] == old(current[y, x])
      ensures forall b, a :: 0 <= b < H && 0 <= a < W && (b != y || a != x || !mask[y, x]) ==>
        current[b, a] == old(current[b, a]) && previous[b, a] == old(previous[b, a])
    {
      if !mask[y, x] {
        return;
      }
      var c2 := WaveSpeed * WaveSpeed;
      var cur := current[y, x];
      // the neighbours (0,-1), (0,1), (-1,0), (1,0); in the sweep range all
      // four are on the lattice, so `numNeighbors` always reaches 4
      var laplacian := Term(mask[y - 1, x], current[y - 1, x], cur)
                     + Term(mask[y + 1, x], current[y + 1, x], cur)
                     + Term(mask[y, x - 1], current[y, x - 1], cur)
                     + Term(mask[y, x + 1], current[y, x + 1], cur);
      laplacian := laplacian - 4.0 * cur;
      var newHeight := (2.0 * cur - previous[y, x] + c2 * laplacian) * Damping;
      previous[y, x] := cur;
      current[y, x] := newHeight;
    }

    /** Zeroes rows 0 and H-1 and columns 0 and W-1 of `current`. */
    method ClearBorder()
      requires Valid()
      modifies current
      ensures forall y, x :: 0 <= y < H && 0 <= x < W ==>
        current[y, x] == if Interior(y, x) then old(current[y, x]) else 0.0
    {
      for x := 0 to W
        invariant forall b, a :: 0 <= b < H && 0 <= a < W ==>
          current[b, a] == if (b == 0 || b == H - 1) && a < x then 0.0 else old(current[b, a])
      {
        current[0, x] := 0.0;
        current[H - 1, x] := 0.0;
      }
      for y := 0 to H
        invariant forall b, a :: 0 <= b < H && 0 <= a < W ==>
          current[b, a] == if b == 0 || b == H - 1 || ((a == 0 || a == W - 1) && b < y) then 0.0 else old(current[b, a])
      {
        current[y, 0] := 0.0;
        current[y, W - 1] := 0.0;
      }
    }
  }
}
