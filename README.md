# Particle gas on a uniform grid

This is a Dafny model of the simulation core of `main.cpp`. The `Gas` class holds 1000 particles on a 1600 × 800 screen. Each frame, `Iterate` does five things, in this order:

1. It files every particle into a grid of 80 × 40 cells, each 20 wide (`Partition`, `ClearCells`).
2. It clears the accelerations (`ClearAcc`).
3. It lets each particle be pushed away by the particles in the 3 × 3 block of cells around its own (`Repulsion`, `Repel`).
4. It integrates velocity and position (`Step`, `SetPosition`).
5. It respawns every particle that left the screen at a random point of the inset rectangle `[50, 1550] × [50, 750]` (`RespawnOffScreen`, `Respawn`).

`_LegacyRepulsion` is the all-pairs version of step 3, which the grid replaced. The model also covers the window of recent frame rates kept by `DisplayFPS`.

The model takes the source's own form.

- `Gas` is a class, `Simulation.Gas`. Its particle and vertex vectors are arrays, and its grid is a field holding a sequence of columns of cells. Each cell is a sequence of particle indices.
- The methods update that state in place with the source's loops. Each method states its new state through a specification function of the old state.
- `DisplayFPS` is a class, `Fps.DisplayFPS`, whose history is a sequence field.
- `Vec2` and `Particle` are copied by value in C++, so they are datatypes here.

Modules:

- `Vectors`: vector arithmetic.
- `Particles`: configuration constants, the particle record, cell indices and the repulsion law.
- `Grid`: cell buckets and the cells a scan visits.
- `Forces`: accumulated pushes, and the theorem that the grid scan equals the all-pairs scan.
- `Dynamics`: motion and respawning as functions.
- `Simulation`: the `Gas` class.
- `Fps`: the frame-rate history.

Three choices shape the model:

- `rand() / RAND_MAX` is a function `rand` from the position in the stream of draws to a value in `[0, 1]`. The class counts the values drawn so far in `drawn`.
- The C library's `sqrt` is a function parameter `sqrt`. The `Gas` class and `Forces.GridMatchesLegacy` assume nothing about it. Two lemmas assume an exact root at the one value they use: `Particles.RepelAlongAxis` (`sqrt(25) == 5`) and `Particles.ContributionAway`.
- The cutoff test `sqrt(dx*dx + dy*dy) > interaction_threshold` is stated on squares, `dx*dx + dy*dy > threshold²`. That is the same test for the true square root.

Main results:

- `Forces.GridMatchesLegacy`: once `Partition` has run, the cells `Repulsion` visits around a particle give it exactly the force that all particles give it in `_LegacyRepulsion`. This holds because the cell width equals the interaction threshold.
- `Simulation.Gas.Iterate`: one frame moves every particle as the all-pairs force moves it, then leaves every particle on screen.

## Model

| member | source | states |
|---|---|---|
| `Vectors.Add` | main.cpp:312-313 | component-wise sum, the `+=` on both components of `acc` in `Repel` and of `vel` and `pos` in `Step` (main.cpp:346-347) |
| `Vectors.Sub` | main.cpp:301-302 | component-wise difference: `dx` and `dy` of `Repel` |
| `Vectors.SquaredLength` | main.cpp:303 | `dx*dx + dy*dy`, the value `Repel` takes the square root of |
| `Vectors.Zero` | main.cpp:134-137 | both components of the result are zero |
| `Vectors.ScaleSquaredLength` | main.cpp:129-132 | scaling by `s` multiplies the squared length by `s*s` |
| `Vectors.Scale` | main.cpp:129-132 | both components multiplied by the scalar |
| `Vectors.Normalise` | main.cpp:123-127 | both components divided by the magnitude |
| `Vectors.NormaliseScalesBack` | main.cpp:123-127 | dividing by a non-zero magnitude and scaling back by it restores the vector: normalising loses nothing but the length |
| `Vectors.NormaliseThenScale` | main.cpp:123-132 | normalising by `magnitude` and then scaling by `s` is scaling by `s / magnitude` |
| `Vectors.ScaledToLength` | main.cpp:123-132 | a vector whose true length is `magnitude`, normalised and scaled by `s`, has length `|s|` |
| `Particles.TruncDiv` | main.cpp:222-223 | C++ integer division of a coordinate by the cell width, which truncates toward zero on both signs |
| `Particles.Trunc` | main.cpp:222-223 | `static_cast<int>` truncates toward zero: the result is within 1 of `x` on the side of zero |
| `Particles.CellIndex` | main.cpp:222-223 | a non-negative coordinate falls in `[20c, 20(c+1))`; coordinates in `(-20, 0)` also get cell 0; coordinates at or below -20 get a negative cell |
| `Particles.InsideScreenInGrid` | main.cpp:219-229 | every position in `[0, W) × [0, H)` has a cell of the grid |
| `Particles.RightEdgeOutsideGrid` | main.cpp:205-206 | a particle at `x == W` passes the on-screen test of `RespawnOffScreen`, but its column index is `cell_i_max`, outside the grid |
| `Particles.OnScreen` | main.cpp:205-206 | neither test of `RespawnOffScreen` fires: `0 <= x <= W` and `0 <= y <= H` |
| `Particles.InInset` | main.cpp:188-189 | the rectangle `[50, W-50] × [50, H-50]` that the draws of `Initialise` and `Respawn` (main.cpp:196-197) range over |
| `Particles.InsetPoint` | main.cpp:188-189 | the position computed from two draws in `[0, 1]` lies in the inset rectangle, on screen and in the grid |
| `Particles.CellIndexStep` | main.cpp:157-158 | coordinates at most one threshold apart have cell indices at most one apart |
| `Particles.Interacts` | main.cpp:300-304 | neither early return of `Repel` is taken: the ids differ and the squared distance is at most the squared threshold |
| `Particles.InteractingAreClose` | main.cpp:302-305 | interacting particles differ by at most the threshold on each axis |
| `Particles.InteractingNeighbourCells` | main.cpp:157-161 | interacting particles lie in the same or adjacent cells, on both axes |
| `Particles.Contribution` | main.cpp:299-314 | `Repel` adds nothing when the neighbour is the particle itself or lies beyond the threshold |
| `Particles.StrengthBounds` | main.cpp:309-310 | within the threshold, the strength `(1 - distance/threshold) * repulsive_force` is non-negative, and so is the strength divided by the distance |
| `Particles.ContributionAway` | main.cpp:299-314 | where `sqrt` is exact, a distinct neighbour within the threshold pushes the particle away from itself, along `p.pos - q.pos` with a non-negative factor, and the push has length `(1 - distance/threshold) * repulsive_force` |
| `Particles.RepelAlongAxis` | main.cpp:299-314 | two particles 5 apart on the x axis push each other apart with strength 0.0075, in opposite directions |
| `Particles.ContributionFrame` | main.cpp:299-314 | the push depends only on the positions and identities of the two particles |
| `Particles.Respawned` | main.cpp:195-201 | a respawned particle is in the inset rectangle, on screen and in the grid, and at rest; its identity and cell are unchanged |
| `Particles.Advance` | main.cpp:344-350 | one step adds the acceleration to the velocity and the new velocity to the position; acceleration, identity and cell are unchanged |
| `Grid.IndicesCount` | main.cpp:318-319 | the all-pairs loop visits every particle index exactly once |
| `Grid.Bucket` | main.cpp:219-229 | the indices among the first `count` particles whose position falls in cell `c`, in index order: what `Partition` appends to that cell |
| `Grid.BucketCount` | main.cpp:221-228 | after `k` particles are filed, a cell lists index `n` exactly once if `n < k` and particle `n` lies in that cell, and not at all otherwise |
| `Grid.BucketBelow` | main.cpp:221-228 | a cell lists only particles already filed |
| `Grid.BucketFrame` | main.cpp:221-228 | the buckets depend only on the positions |
| `Grid.CellOf` | main.cpp:222-223 | the cell `(i, j)` that `Partition` computes from a position |
| `Grid.Filed` | main.cpp:222-225 | each particle records the cell `(trunc(x)/20, trunc(y)/20)` of its position, and nothing else of it changes |
| `Grid.FiledPrefix` | main.cpp:220-225 | the loop of `Partition` keeps the number of particles |
| `Grid.FiledPrefixAt` | main.cpp:220-225 | after `count` passes of the loop, the first `count` particles have recorded their cells and the rest are untouched |
| `Grid.FiledPrefixAll` | main.cpp:220-225 | once all `|ps|` passes of the loop have run, the particles are `Filed` |
| `Grid.Append` | main.cpp:226-227 | `pointers.push_back`: particle `n` appended to cell `(i, j)`, every other cell unchanged and the grid's shape kept |
| `Grid.FileOne` | main.cpp:226-227 | appending particle `k` to the cell of its position extends exactly that cell's bucket by `k` |
| `Grid.FiledGrid` | main.cpp:221-228 | filing only appends to existing cells: the grid keeps its number of columns and of cells per column |
| `Grid.FiledGridBuckets` | main.cpp:219-228 | starting from an empty grid, appending each of the first `count` particles to the cell of its position leaves in every cell the bucket of those particles |
| `Grid.FiledPartitioned` | main.cpp:219-229 | filing every particle into the bucket of its position yields a partitioned grid |
| `Grid.Partitioned` | main.cpp:219-229 | every particle records the in-grid cell of its position, and every cell of the grid holds exactly its bucket |
| `Grid.PartitionedFrame` | main.cpp:212-215 | a partitioned grid stays partitioned while only velocities and accelerations change |
| `Grid.PartitionedPlacesOnce` | main.cpp:219-229 | after partitioning, a cell lists a particle exactly once when it is the cell the particle records, and not at all otherwise |
| `Grid.PartitionedCoversAll` | main.cpp:219-238 | together the cells list every particle index exactly once, so their sizes sum to the population |
| `Grid.Column` | main.cpp:244-257 | the cells one column scan visits, in order: `(a, j)`, then `(a, j-1)` and `(a, j+1)` where those rows exist |
| `Grid.NeighbourCells` | main.cpp:242-295 | the cells the scan around `(i, j)` visits, in order: column `i`, then column `i-1` and column `i+1` where they exist |
| `Grid.ColumnCount` | main.cpp:244-257 | the scan of one column visits each of the rows `j-1`, `j`, `j+1` that exist exactly once, and nothing else |
| `Grid.NeighbourCellsCount` | main.cpp:240-297 | the scan visits exactly the grid cells at most one column and one row away, each once, with no wrap-around |
| `Grid.NeighbourCellsInRange` | main.cpp:240-297 | every cell the scan visits exists in the grid |
| `Grid.Visited` | main.cpp:240-297 | the particles listed in a sequence of cells, cell after cell and in list order within a cell: the order of the pointer loops of `Repulsion` |
| `Grid.VisitedAppend` | main.cpp:240-297 | scanning two lists of cells one after the other visits the particles of both, in order |
| `Grid.VisitedCount` | main.cpp:240-297 | in a partitioned grid, a scan visits particle `n` as often as it visits the cell of `n` |
| `Grid.VisitedCountIn` | main.cpp:240-297 | when the grid lists index `n` exactly once, in one home cell, a scan visits `n` as often as it visits that home cell |
| `Grid.AllCellsCount` | main.cpp:219-238 | listing the cells column by column names every cell of the grid exactly once, which is the order over which `PartitionedCoversAll` sums the cell sizes |
| `Forces.Force` | main.cpp:312-313 | the `acc +=` of a sequence of `Repel` calls: the pushes of the neighbours `ns`, added in order |
| `Forces.LegacyForce` | main.cpp:316-336 | the all-pairs force on particle `k`: the pushes of particles `0 .. N-1`, in index order |
| `Forces.ScanForce` | main.cpp:240-297 | the force of the particles listed in a sequence of cells, the cells and their lists taken in order |
| `Forces.GridForce` | main.cpp:240-297 | what `Repulsion` adds to particle `k`: the scan force over `NeighbourCells` of the cell the particle records |
| `Forces.Pushes` | main.cpp:299-314 | entry `n` is what `Repel(particle k, particle n)` adds to the acceleration of particle `k` |
| `Forces.PushesFrame` | main.cpp:241-296 | the pushes do not depend on the accelerations that `Repel` changes |
| `Forces.VisitedBelow` | main.cpp:240-297 | a scan over cells that list particles of the vector yields only particles of the vector |
| `Forces.ScanForceAppend` | main.cpp:240-297 | scanning two lists of cells adds the forces of both scans |
| `Forces.ScanForceOne` | main.cpp:244-247 | scanning one cell adds the pushes of the particles it lists |
| `Forces.ColumnForce` | main.cpp:244-257 | the scan of a column adds the force of its own cell, then of the cell above and the cell below where they exist |
| `Forces.NeighbourForce` | main.cpp:240-297 | the scan around a cell adds the force of its own column, then of the columns to the left and right where they exist |
| `Forces.PartitionedIndexed` | main.cpp:219-229 | after `Partition`, every particle records a cell of the grid and every cell lists particles of the vector |
| `Forces.BelowAppend` | main.cpp:240-297 | proof step of `VisitedBelow`, a general fact about index lists and not code of its own: joining two lists of valid particle indices gives a list of valid indices |
| `Forces.ForceAppend` | main.cpp:240-297 | repelling from one list of neighbours and then another adds the two forces |
| `Forces.ForceRemove` | main.cpp:240-297 | taking one neighbour out of the list takes its push out of the force |
| `Forces.MultisetRemove` | main.cpp:240-297 | proof step of `ForcePermutation`, a general fact about sequences and not code of its own: removing one position from a list removes exactly one occurrence of its value |
| `Forces.ForcePermutation` | main.cpp:240-297 | visiting the same neighbours in another order gives the same force |
| `Forces.InteractingCount` | main.cpp:299-304 | the interacting neighbours of a list are exactly those of its entries within the threshold, with their multiplicity |
| `Forces.InteractingBelow` | main.cpp:299-304 | the interacting neighbours of a list of valid indices are valid indices |
| `Forces.ForceFilter` | main.cpp:299-304 | neighbours that do not interact contribute nothing to the force |
| `Forces.NearCount` | main.cpp:157-158 | the grid scan and the all-pairs loop find the same interacting neighbours, each as often |
| `Forces.GridMatchesLegacy` | main.cpp:240-336 | after `Partition`, the grid scan gives each particle the same force as the all-pairs scan of `_LegacyRepulsion` |
| `Forces.IsolatedParticle` | main.cpp:316-336 | a particle with no other particle within the threshold feels no force |
| `Dynamics.OffCount` | main.cpp:203-208 | no more particles are off screen than were examined |
| `Dynamics.RespawnedOne` | main.cpp:205-206 | an on-screen particle is kept; an off-screen one is respawned with draws `d` and `d+1` |
| `Dynamics.RespawnedAll` | main.cpp:203-208 | respawning keeps the number of particles |
| `Dynamics.OffCountPrefix` | main.cpp:203-208 | the count of off-screen particles among the first `n` depends only on those `n` |
| `Dynamics.RespawnedAllAt` | main.cpp:203-208 | particle `n` is respawned, if at all, with the two draws that follow the draws of the off-screen particles before it |
| `Dynamics.RespawnedAllOnScreen` | main.cpp:203-208 | afterwards every particle is on screen; a particle that was on screen is untouched; one that was off screen is in the inset rectangle at rest; identities and cells are kept |
| `Dynamics.OffCountNone` | main.cpp:203-208 | when every particle is on screen, none is counted off screen |
| `Dynamics.RespawnIdempotent` | main.cpp:203-208 | a second pass finds nothing off screen, draws nothing and changes nothing |
| `Dynamics.Moved` | main.cpp:211-215 | every particle advanced one step, with the all-pairs force as its acceleration |
| `Dynamics.MovedIsolated` | main.cpp:344-350 | a particle with no neighbour in range keeps its velocity and moves by it |
| `Dynamics.ClearedGridForce` | main.cpp:211-213 | after `Partition`, `ClearAcc` and `Repulsion`, every particle is the filed particle with the all-pairs force as its acceleration |
| `Dynamics.ClearedGridForceAt` | main.cpp:211-213 | once the accelerations are cleared on a partitioned grid, the grid force on a particle equals the all-pairs force on the filed particles |
| `Simulation.Gas.constructor` | main.cpp:168 | a gas with no particles, no vertices and no cells, at the start of the stream of draws |
| `Simulation.Gas.Draw` | main.cpp:196-197 | `rand() / RAND_MAX` returns the next draw, which lies in `[0, 1]`, and advances the stream by one |
| `Simulation.Gas.SetPosition` | main.cpp:352-358 | the particle moves to `(x, y)`; vertex `id` follows it and no other vertex changes |
| `Simulation.Gas.NewGrid` | main.cpp:171-178 | the grid has `cell_i_max` columns of `cell_j_max` cells, all empty |
| `Simulation.Gas.Initialise` | main.cpp:170-193 | an empty grid of the right shape; `population` particles with `id == k`, each at the inset point of the next two draws and at rest; vertices mirror positions |
| `Simulation.Gas.Populate` | main.cpp:185-192 | particle `k` gets identity `k` and the inset point of draws `2k` and `2k+1`; its vertex mirrors it |
| `Simulation.Gas.PopulateOne` | main.cpp:185-191 | particle `k` gets identity `k` and the inset point of the next two draws, and its vertex mirrors it; the particles before it keep theirs |
| `Simulation.Gas.Respawn` | main.cpp:195-201 | only particle `k` changes: it becomes `Respawned` with the next two draws; the vertex follows |
| `Simulation.Gas.RespawnIfOffScreen` | main.cpp:205-206 | the x test then the y test respawn an off-screen particle exactly once (two draws) and leave an on-screen particle untouched (no draw) |
| `Simulation.Gas.RespawnOffScreen` | main.cpp:203-208 | the particles become `RespawnedAll` of the old particles, and two draws are used per off-screen particle |
| `Simulation.Gas.RespawnStep` | main.cpp:204-207 | particle `k` takes its value in `RespawnedAll`, the particles after it are untouched, and the draws used count two per off-screen particle among the first `k+1` |
| `Simulation.Gas.ClearCells` | main.cpp:231-238 | every cell of the grid becomes empty and the grid keeps its shape |
| `Simulation.Gas.Partition` | main.cpp:219-229 | the particles record their cells (`Filed`) and the grid is partitioned: every cell lists, in index order, exactly the particles in it |
| `Simulation.Gas.FileAll` | main.cpp:220-228 | on an empty grid, the particles become `Filed` and the grid becomes `FiledGrid`: every particle is appended, in index order, to the cell of its position |
| `Simulation.Gas.FileParticle` | main.cpp:222-227 | particle `k` records its cell and is appended to it: the particles advance from `FiledPrefix(ps, k)` to `FiledPrefix(ps, k + 1)` and the grid from `FiledGrid(g, ps, k)` to `FiledGrid(g, ps, k + 1)` |
| `Simulation.Gas.ClearAcc` | main.cpp:338-342 | every acceleration becomes zero and nothing else changes |
| `Simulation.Gas.Step` | main.cpp:344-350 | every particle becomes `Advance` of itself, and vertices mirror the new positions |
| `Simulation.Gas.Repel` | main.cpp:299-314 | only the particle's acceleration changes, by `Contribution`; the neighbour and all other particles are unchanged |
| `Simulation.Gas.RepelNext` | main.cpp:244-247 | one `Repel` call of a scan adds the push of one more neighbour to the force accumulated so far; no other particle changes |
| `Simulation.Gas.RepelCell` | main.cpp:244-247 | the particle's acceleration grows by the pushes of the particles listed in one cell, and nothing else changes |
| `Simulation.Gas.RepelAboveBelow` | main.cpp:248-257 | the particle's acceleration grows by the forces of the cells above and below, where they exist |
| `Simulation.Gas.RepelSideCell` | main.cpp:248-253 | where row `b` exists, the acceleration grows by the pushes of the particles listed in cell `(a, b)`; otherwise nothing changes |
| `Simulation.Gas.RepelColumn` | main.cpp:244-257 | the particle's acceleration grows by the force of the column scan |
| `Simulation.Gas.RepelLeftRight` | main.cpp:260-295 | the particle's acceleration grows by the forces of the columns to the left and right, where they exist |
| `Simulation.Gas.RepelSideColumn` | main.cpp:260-277 | where column `a` exists, the acceleration grows by the force of that column's scan; otherwise nothing changes |
| `Simulation.Gas.RepelNeighbourhood` | main.cpp:242-295 | the particle's acceleration grows by the force of the scan around the cell it records |
| `Simulation.Gas.SamePlacesPushes` | main.cpp:241-296 | while only accelerations have changed, the pushes on particle `k` are those of the particles before the loop |
| `Simulation.Gas.Repulsion` | main.cpp:240-297 | each acceleration grows by the grid force computed from the positions before the loop; nothing else changes |
| `Simulation.Gas.LegacyRepulsion` | main.cpp:316-336 | each acceleration becomes the all-pairs force; nothing else changes |
| `Simulation.Gas.RepelAll` | main.cpp:318-335 | each acceleration grows by the all-pairs force computed from the positions before the loop |
| `Simulation.Gas.RepelAllStep` | main.cpp:318-335 | one pass of the outer loop: particle `k` gets its all-pairs force, the particles before it keep theirs and those after it are untouched |
| `Simulation.Gas.RepelEveryone` | main.cpp:319-334 | the particle's acceleration grows by the pushes of all particles, in index order, and nothing else changes |
| `Simulation.Gas.Accelerate` | main.cpp:212-213 | on a partitioned grid, `ClearAcc` then `Repulsion` set each acceleration to the all-pairs force |
| `Simulation.Gas.Move` | main.cpp:212-215 | the particles become `Moved` of the filed particles: each is advanced under the all-pairs force |
| `Simulation.Gas.Iterate` | main.cpp:210-217 | one frame: the grid is partitioned by the positions at the start of the frame; the particles move under the all-pairs force and are then respawned; every particle ends on screen; the draws used are two per particle that left the screen |
| `Fps.Window` | main.cpp:50-55 | the last `historySize` values of a sequence, or all of them when there are fewer: the bounded history |
| `Fps.Pushed` | main.cpp:50-55 | the new frame rate comes last; the oldest value is dropped when the history was full, and the order of the rest is kept; a history within bounds stays within bounds |
| `Fps.PushedWindow` | main.cpp:50-55 | pushing onto the window of a sequence gives the window of the sequence extended |
| `Fps.PushedAllWindow` | main.cpp:50-55 | a history that starts within bounds always holds the latest values pushed, at most 100 of them, oldest first |
| `Fps.LatestValues` | main.cpp:50-55 | from an empty history, the window holds exactly the last `min(n, 100)` values pushed |
| `Fps.Sum` | main.cpp:58-61 | the sum of the history, added oldest first |
| `Fps.SumBounds` | main.cpp:57-63 | values between `lo` and `hi` sum to between `n*lo` and `n*hi` |
| `Fps.AverageBounds` | main.cpp:57-63 | the rolling average lies between the smallest and the largest frame rate |
| `Fps.DisplayFPS.constructor` | main.cpp:34-39 | the history starts empty |
| `Fps.DisplayFPS.PushAndPop` | main.cpp:50-55 | the history becomes `Pushed` of the old history, and never holds more than `historySize` values |
| `Fps.DisplayFPS.RollingAverage` | main.cpp:57-63 | the result is the sum of the history divided by its length |

## Left out

- Rendering and input are left out: `main()`, the window and event loop, the grid lines, text and drawing (main.cpp:362-471), the `Mouse` class (main.cpp:73-113), and `DisplayFPS::getFPS` and `drawFPS`, which read an `sf::Clock` and draw text.
- `Game`'s constructor is left out. It seeds `rand` from the clock and loads a font. The seeded stream is the parameter `rand`.
- `double` is modelled as `real`. IEEE rounding, and with it any dependence on the order in which pushes are summed, is not modelled. The all-pairs equivalence holds exactly over the reals, not bit for bit over doubles.
- `Vertex` positions are not cast to `float`. A vertex is a plain copy of the particle position.
- `Vec2` is a value type, not an object: `Zero`, `Scale` and `Normalise` return new vectors instead of updating `x` and `y` in place. The source always applies them to a vector it then stores, so the results agree.
- `Normalise` takes its magnitude from the caller instead of computing `sqrt(x*x + y*y)`, because `Repel` has just computed that same value.
- `Particles.Contribution`: for two distinct particles at the same position, the source divides by a zero distance and adds NaN to the acceleration. The model adds nothing there.
- `Particles.ContributionAway` states the direction and length of a push only where `sqrt` returns the true square root of the squared distance, because `sqrt` is otherwise a parameter the model assumes nothing about.
- `Particles.Contribution`: the cutoff is compared on squared distances. It agrees with the source's `sqrt(...) > threshold` for the true square root, and nothing is assumed about `sqrt` beyond that.
- `Simulation.Gas.Partition` requires every particle to have a grid cell, which is what the source needs in order not to index outside `cells`. A particle can be exactly on the right or bottom edge of the screen (`x == W` or `y == H`). `RespawnOffScreen` keeps such a particle (`Particles.RightEdgeOutsideGrid`), and the next `Partition` would then index outside the grid. For this reason `Simulation.Gas.Iterate` keeps the same requirement and does not promise it for the next frame.
- `Simulation.Gas.Initialise` requires the empty state the constructor leaves. Called a second time, the source would append a second grid and a second population, which the program never does.
- `Simulation.Gas.LegacyRepulsion`: the source writes out the body of `Repel` inside its inner loop instead of calling it. The two bodies are the same, so the model calls `Repel`.
- `Simulation.Gas.Iterate`: `Repulsion` is proved equal to the all-pairs force, so the motion is stated through `Dynamics.Moved`, which uses the all-pairs force.
- `Fps.DisplayFPS.RollingAverage` requires a non-empty history. On an empty history the source divides zero by zero. `drawFPS` always pushes a value first.
- `historySize` is a constant. The source declares it as a mutable member but never changes it.
