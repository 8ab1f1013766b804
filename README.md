# go-wave in Dafny

A model of the simulation cores of go-wave, a set of small Go programs that
simulate ripples in a circular pond.

- **Wave grids.** A 2D lattice holds a height field, a boundary mask (the
  cells inside a circle of radius 150) and a second field. A click injects an
  impulse, and each frame advances the field by one step.
  - `_mainv16-.go` keeps height and velocity. Its `update` moves each masked
    cell by its velocity. It then computes every new velocity into a fresh
    buffer from those heights and the old velocities, swaps the buffer in,
    and zeroes the border rows and columns of the height field.
  - `_mainv15.go` keeps two snapshots, `current` and `previous`. It runs a
    leapfrog step in place: one row-major sweep overwrites each cell, so
    cells further on read neighbours above and to the left that this sweep
    has already overwritten.
- **Wave/particle games.** `_mainv1.go` and `_main.go` keep slices of
  expanding circular waves and short-lived particles. Every frame each wave
  grows by 2.5 and each particle ages by 0.016. Expired entries are spliced
  out in place (`append(s[:i], s[i+1:]...)`, then `i--`). `_mainv1.go` adds
  a press latch that lets one wave through per mouse press.

Modules:

| module | file | models |
|---|---|---|
| `GoNumerics` | go_numerics.dfy | Go's `int(f)` truncation; `math.Sqrt` distance tests as squared comparisons |
| `Slices` | slices.dfy | the advance-and-splice loop and the nested particle-spawn loop, shared by both games |
| `VelocityGrid` | velocity_grid.dfy | `_mainv16-.go`: `WaveGrid`, `NewWaveGrid`, `initializeMask`, `addWave`, `update` |
| `LeapfrogGrid` | leapfrog_grid.dfy | `_mainv15.go`: `WaveGrid`, `NewWaveGrid`, `initializeMask`, `pointInShape`, `addWave`, `update` |
| `LatchedGame` | latched_game.dfy | `_mainv1.go`: `Game.Update` with the press latch |
| `RippleGame` | ripple_game.dfy | `_main.go`: `Game.Update` without a latch, with the particle cap |

Modelling choices:

- The grid size is W columns by H rows, with W, H ≥ 3. The programs use
  1200 by 800 with `gridSize = 1`, so lattice and screen coordinates agree.
  Arrays are `array2` indexed `[y, x]`, as in the source's `height[y][x]`.
- Values are exact `real`s; float64 rounding is not modelled.
- Every `math.Sqrt(dx*dx + dy*dy) < r` test is a comparison of
  `dx*dx + dy*dy` with `r*r`. `GoNumerics.RootCompare` proves the two agree.
- The impulse of `_mainv16-.go` needs the distance itself
  (`40·(1 − d/8)²`). `AddWave` therefore takes `norm`, the distance of an
  integer offset, as a parameter. `ImpulseReach` assumes `norm` is the
  Euclidean length.
- In the games, the trigonometry and reflection geometry are the function
  parameters `candidate` and `move`. `candidate` gives a point on a wave
  front with its outward velocity. `move` gives a particle's position and
  velocity after moving and bouncing off the circle. Mouse state is the
  parameters `button`, `mx` and `my`.
- The splice loop is one generic method, `Slices.Splice`, used for waves and
  for particles in both games. Its loop walks index `i`, advances the entry,
  and on expiry cuts it out and steps `i` back, as the source does.

Behaviour of the programs worth knowing when reading the model:

- `_mainv15.go` updates in place. A cell read after its neighbours above and
  to the left have been overwritten uses their new values. `LeapfrogGrid.After`
  states this, and `InPlaceDiffersFromSimultaneous` exhibits a 3 by 4 lattice on
  which the result differs from the simultaneous update `Simultaneous`.
  `_mainv16-.go` computes all new velocities into a fresh buffer from the
  moved heights and the old velocities, so its result does not depend on the
  sweep order.
- In `_mainv15.go`, a wall neighbour adds `−cur` to a sum from which `4·cur`
  is then subtracted. The wall therefore weighs in with `−2·cur`
  (`LeapfrogGrid.WaveGrid.WallWeighsTwice`). In `_mainv16-.go`, a wall adds
  `−h`, the same as a neighbour of height 0 (`VelocityGrid.WaveGrid.NextVelocity`).
- The programs have fixed lattice sizes and no height query. The model takes
  W and H as parameters and requires W, H ≥ 3.

## Model

| member | source | states |
|---|---|---|
| `GoNumerics.Trunc` | _mainv16-.go:81-82 | `int(f)` truncates toward zero: for f ≥ 0 the result is the largest integer ≤ f, for f < 0 the smallest integer ≥ f |
| `GoNumerics.RootCompare` | _mainv16-.go:74-75 | for d = √s ≥ 0 and a positive bound, `d < bound` iff `s < bound²`, and `d <= bound` iff `s <= bound²`; this justifies the squared-distance tests |
| `Slices.Sweep` | _mainv1.go:67-74 | the result of the advance-and-splice loop is no longer than the input, and no survivor is expired |
| `Slices.Splice` | _mainv1.go:67-74 | the in-place loop (`append(s[:i], s[i+1:]...)`, `i--`) returns exactly `Sweep` of its input |
| `Slices.SweepMembers` | _mainv1.go:106-136 | an entry survives iff it is the advanced form of some input entry and is not expired |
| `Slices.SweepCount` | _mainv1.go:106-136 | each value occurs in the result as often as among the advanced entries if it is not expired, and never if it is; with `SweepKeepsOrder` this fixes the result, duplicates included |
| `Slices.SweepKeepsOrder` | _main.go:65-73 | survivors keep their relative order: the result embeds in order into the advanced slice |
| `Slices.SweepNoneExpired` | _mainv1.go:67-68 | when no advanced entry expires, the loop only advances: every entry is stepped (every wave grows by 2.5), none is dropped |
| `Slices.Emitted` | _main.go:83-109 | one wave emits at most as many particles as candidates tried |
| `Slices.EmittedOrigin` | _mainv1.go:79-103 | every particle a wave emits is one of its first `k` candidates that `emit` accepted |
| `Slices.EmitWave` | _mainv1.go:79-103 | the inner spawn loop appends exactly `Emitted` of the wave's candidates, in order; a non-positive count runs no candidate |
| `Slices.SpawnOrigin` | _mainv1.go:77-104 | every spawned particle comes from some wave and one of its first `quota` candidates that `emit` accepted |
| `Slices.Spawn` | _main.go:76-110 | the nested loop appends exactly `SpawnAll` of the waves to the existing particles, wave by wave and candidate by candidate |
| `VelocityGrid.Falloff` | _mainv16-.go:94 | the impulse energy 40·(1 − d/8)² is never negative, is 40 at the click and 0 at distance 8 |
| `VelocityGrid.ImpulseReach` | _mainv16-.go:86-96 | the impulse is never negative; it equals `Falloff(d)` on masked cells with dx² + dy² ≤ 64 and is 0 on every other cell, so the 17×17 box adds nothing beyond the disk test |
| `VelocityGrid.Impulse` | _mainv16-.go:86-96 | the impulse is never negative, is 0 on unmasked cells and is 0 outside the 17×17 box the loops visit |
| `VelocityGrid.WaveGrid.constructor` | _mainv16-.go:36-55 | all heights and velocities are 0; `mask[y, x]` holds iff (x, y) is strictly within radius 150 of (W/2, H/2); unmasked cells and the border are quiet |
| `VelocityGrid.WaveGrid.InitializeMask` | _mainv16-.go:69-78 | every mask cell is set to the disk test for its own coordinates |
| `VelocityGrid.WaveGrid.AddWave` | _mainv16-.go:80-100 | every velocity grows by `Impulse` for its offset from (int(mx), int(my)), so repeated calls add up; heights and mask are untouched; unmasked cells stay at 0 |
| `VelocityGrid.WaveGrid.Update` | _mainv16-.go:102-168 | new heights and velocities are functions of the previous state only (`NextHeight`, `NextVelocity`); the velocity array is a fresh buffer; border heights and velocities are 0; unmasked cells stay at 0 |
| `VelocityGrid.WaveGrid.Moved` | _mainv16-.go:104-110 | the height after the position pass; a quiet wall stays at 0 |
| `VelocityGrid.WaveGrid.NextVelocity` | _mainv16-.go:117-157 | the border and unmasked cells get velocity 0; with quiet walls, a masked interior cell gets its old velocity plus the plain 4-neighbour Laplacian of the moved heights divided by 4, a wall reading as height 0 |
| `VelocityGrid.WaveGrid.NextHeight` | _mainv16-.go:104-167 | the border height becomes 0, and a quiet wall stays at 0 |
| `VelocityGrid.WaveGrid.MovePass` | _mainv16-.go:104-110 | each masked height grows by its velocity; unmasked heights are unchanged |
| `VelocityGrid.WaveGrid.ClearBorder` | _mainv16-.go:159-167 | rows 0 and H−1 and columns 0 and W−1 of `height` become 0; all other cells are unchanged |
| `LeapfrogGrid.PointInShapeByDistance` | _mainv15.go:74-83 | `PointInShape` holds iff the square root of the squared distance to (screenWidth/2, screenHeight/2), centre by integer division, is below 150 |
| `LeapfrogGrid.Leap` | _mainv15.go:131-133 | a cell level with its previous height and without curvature keeps damping·cur, so a positive height strictly decays |
| `LeapfrogGrid.After` | _mainv15.go:98-137 | the value of an interior cell after the in-place sweep, defined in row-major order from the new values above and to the left; an unmasked cell keeps its height |
| `LeapfrogGrid.WaveGrid.WallWeighsTwice` | _mainv15.go:113-131 | with quiet walls, the sweep's Laplacian is the plain 4-neighbour Laplacian minus cur once more per wall neighbour |
| `LeapfrogGrid.WaveGrid.constructor` | _mainv15.go:34-50 | `current` and `previous` are 0 everywhere; `mask[y, x]` holds iff (x·gridSize, y·gridSize) is strictly within 150 of (W/2, H/2) with integer division |
| `LeapfrogGrid.WaveGrid.InitializeMask` | _mainv15.go:64-83 | every mask cell is set to `pointInShape` of its screen position |
| `LeapfrogGrid.WaveGrid.AddWave` | _mainv15.go:85-92 | `current` gains exactly 20 at the one cell (int(mx/gridSize), int(my/gridSize)) if it is on the lattice and masked; nothing else changes; `previous` is not touched |
| `LeapfrogGrid.AfterWhereNothingIsOverwritten` | _mainv15.go:98-139 | at a cell whose upper and left neighbours are border or wall cells, the in-place sweep gives the same value as a simultaneous update |
| `LeapfrogGrid.InPlaceDiffersFromSimultaneous` | _mainv15.go:98-139 | on a 3 by 4 lattice with one unit pulse, cell (1, 1) becomes 1.74125 and cell (1, 2) becomes 0.108283984375 in place, against 0.0621875 under a simultaneous update |
| `LeapfrogGrid.RestStaysAtRest` | _mainv15.go:94-139 | when both snapshots are 0 everywhere, every interior cell is 0 after the sweep |
| `LeapfrogGrid.WaveGrid.Update` | _mainv15.go:94-150 | every interior cell gets its value `After` the in-place sweep of the old state; masked cells hand their old height to `previous`, other cells keep `previous`; the border of `current` becomes 0; unmasked cells stay at 0 |
| `LeapfrogGrid.WaveGrid.Sweep` | _mainv15.go:98-139 | the row-major sweep: every interior cell ends with its value `After` the sweep of the old snapshot (new values above and to the left, old ones below and to the right); masked cells hand their old height to `previous`; the border is unchanged |
| `LeapfrogGrid.WaveGrid.SweepRow` | _mainv15.go:99-138 | one pass of the inner loop takes the sweep from the start of row y to the start of row y + 1 |
| `LeapfrogGrid.WaveGrid.ReachedLaplacian` | _mainv15.go:104-134 | when the sweep reaches a masked cell, the leapfrog value from the neighbours as they stand equals the cell's value `After` the sweep |
| `LeapfrogGrid.WaveGrid.Visit` | _mainv15.go:100-137 | one sweep step: an unmasked cell is skipped; a masked one gets the leapfrog value from its neighbours as they stand, and `previous` gets its current value; no other cell changes |
| `LeapfrogGrid.WaveGrid.ClearBorder` | _mainv15.go:142-149 | rows 0 and H−1 and columns 0 and W−1 of `current` become 0; interior cells are unchanged |
| `LatchedGame.Latch` | _mainv1.go:42-64 | the latch ends up equal to the button, and it fires only from an open latch, which it then closes |
| `LatchedGame.Clicked` | _mainv1.go:42-64 | exactly one wave is appended when the latch fires and the click is inside the circle, none otherwise; the wave is the new one at the cursor |
| `LatchedGame.ClicksFire` | _mainv1.go:42-64 | over a run of frames with clicks inside the circle, as many waves are appended as the latch fires |
| `LatchedGame.ClicksOnRisingEdges` | _mainv1.go:42-64 | over a run of frames with clicks inside the circle, one wave is appended per released-to-pressed edge of the button |
| `LatchedGame.Advance` | _mainv1.go:107-131 | a particle keeps its maxAge, gets strictly older, and is dead afterwards iff age + 0.016 exceeds maxAge |
| `LatchedGame.Emit` | _mainv1.go:79-103 | a candidate becomes a particle iff it lies inside the circle; the particle has age 0 and maxAge 0.8 and is alive |
| `LatchedGame.FiresOnRisingEdges` | _mainv1.go:42-64 | over any run of frames, the latch lets exactly as many clicks through as the button has released-to-pressed edges |
| `LatchedGame.HoldFiresOnce` | _mainv1.go:42-64 | holding the button for any number of frames fires once if the latch was open, never if it was closed |
| `LatchedGame.WavesAfterUpdate` | _mainv1.go:67-74 | after the wave loop the waves are exactly the grown waves with radius ≤ maxRadius, each as often as among the grown waves, in their original order |
| `LatchedGame.ParticlesAfterUpdate` | _mainv1.go:106-136 | after the particle loop the particles are exactly the advanced particles (age + 0.016, velocity × 0.98) with age ≤ maxAge, each as often as among the advanced particles, in their original order |
| `LatchedGame.ShedPerWave` | _mainv1.go:77-79 | every wave tries exactly 8 candidates and so sheds at most 8 particles per frame |
| `LatchedGame.SpawnedParticles` | _mainv1.go:77-104 | every spawned particle has age 0 and maxAge 0.8, lies inside the circle, and is one of the first `Quota` (8) candidates of some wave |
| `LatchedGame.Game.Press` | _mainv1.go:42-64 | the waves gain exactly `Clicked` of the old latch: a wave of radius 5 and maxRadius 300 iff the latch fires and the click is strictly inside the circle; afterwards the latch is `Latch`'s new state, the button |
| `LatchedGame.Game.Update` | _mainv1.go:40-139 | waves and particles become the sweeps of the clicked, grown and spawned slices in the program's order; no wave exceeds its maxRadius and no particle its maxAge |
| `RippleGame.Quota` | _main.go:78-81 | a wave tries min(int(radius/5), 2) candidates: at most 2, at most int(radius/5) and one of the two; a non-negative radius never gives a negative count; radius ≥ 10 gives exactly 2 |
| `RippleGame.Clicked` | _main.go:42-62 | a frame appends exactly one wave when the button is down with the cursor strictly inside the circle and none otherwise; the wave is the new one at the cursor, inside the circle and not faded |
| `RippleGame.Advance` | _main.go:113-141 | a particle keeps its maxAge and distFromEdge, gets strictly older, and is dead afterwards iff age + 0.016 exceeds maxAge |
| `RippleGame.Emit` | _main.go:83-109 | a candidate becomes a particle iff it lies inside the circle; the particle has age 0 and maxAge 0.8 and is alive |
| `RippleGame.HoldAppendsEveryFrame` | _main.go:42-62 | without a latch, holding the button inside the circle appends one wave per frame, each with radius 5, maxRadius 300 and vx = vy = 0 |
| `RippleGame.ShedPerWave` | _main.go:76-110 | a wave sheds at most min(int(radius/5), 2) particles per frame |
| `RippleGame.WavesAfterUpdate` | _main.go:64-73 | after the wave loop the waves are exactly the grown waves with radius ≤ maxRadius, each as often as among the grown waves, in their original order |
| `RippleGame.ParticlesAfterUpdate` | _main.go:112-148 | after the particle loop the particles are exactly the advanced particles (age + 0.016, velocity × 0.98) with age ≤ maxAge, each as often as among the advanced particles, in their original order |
| `RippleGame.SpawnedParticles` | _main.go:83-109 | every spawned particle has age 0 and maxAge 0.8, lies inside the circle, and is one of the first `Quota` candidates of some wave |
| `RippleGame.Game.Press` | _main.go:42-62 | while the button is down, a cursor strictly inside the circle appends a wave of radius 5, maxRadius 300 and no velocity |
| `RippleGame.Game.Update` | _main.go:41-151 | waves and particles become the sweeps of the clicked, grown and spawned slices in the program's order; no wave exceeds its maxRadius and no particle its maxAge |

## Left out

- Rendering and window plumbing are not modelled: `draw`/`Draw`, `Layout`, `main`, `generateCircleShape` and the `shape` field, `drawCircle`, and colour mapping. `_main.go`'s `Draw` does not compile as written (lines 157-160, 165 and 172).
- ebiten input (`IsMouseButtonPressed`, `CursorPosition`) becomes the method parameters `button`, `mx` and `my`.
- The analytical wave variants (`_mainx10.go`, `_mainv7.go`, `_mainv12.go`, `_mainx4.go`, `_mainv6.go`, `_mainv2.go`) and the spring ring of `_mainx13.go` are not part of this model.
- Float64 rounding, NaN and stability or energy-decay behaviour are not modelled: values are exact reals.
- Particle spawn angles, outward normals and the reflection at the circle are the abstract functions `candidate` and `move`. A zero distance, which would make the source divide by zero, is abstracted away with them.
- `VelocityGrid.WaveGrid.AddWave`: the distance `math.Sqrt(dx²+dy²)` is the parameter `norm`. The method does not require `norm` to be the square root. `ImpulseReach` assumes it and derives which cells can change.
- `RippleGame.Particle.distFromEdge` is never written by the program. It stays 0 in new particles and is carried unchanged.
- Go's `int(f)` for floats outside the `int` range is implementation-defined and is not modelled. The cursor coordinates the programs pass are small integers.
