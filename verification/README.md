# Distance-matrix benchmark kernel, modelled in Dafny

The repository is four copies of one benchmark kernel, each a stage of a
code-optimisation exercise:

- naive-algorithm.cpp reads the points from a file and uses the
  cache-unfriendly access `matrix[j][i]` everywhere.
- loop-interchange.cpp generates the points into two arrays `x` and `y` and
  interchanges the scan and the normalisation to `matrix[i][j]`. Its fill
  still writes `matrix[j][i]`.
- array-merge.cpp merges the coordinates into an array of `struct point`.
- parallel-algorithm.cpp fuses the fill with the search for the longest
  distance. It runs the rows in an OpenMP parallel loop, and each worker
  merges its private maximum into a shared one in a critical section.

Each copy computes three things:

- the `n x n` matrix of distances between `n` points;
- the longest distance `maxD`, found by a running maximum that starts at 0;
- the matrix divided by `maxD`.

The three generating copies share `generateVertices`. It draws random
numbers:

- a draw `d` with `d % 4 != 0` admits a point and bumps the counter `j`;
- the draws after it are counted while `d % 10 != 0`;
- the point is `(j, count)`;
- a draw with `d % 4 == 0` is wasted.

The model has these modules:

- `Wrappers`: the `Option` type.
- `Plane`: the vertex type `Point`.
- `Generator`: `generateVertices`. The generator is a pure function
  `Generate` of an explicit sequence of draws that stand in for `rand()`. It
  has a declarative characterisation, `Explains`, and the imperative
  nested-loop version `GenerateVertices` is proved to return the same result.
- `Distance`: the `DISTANCE(x1, x2, y1, y2)` macro, `computeDistance(x1, y1,
  x2, y2)` and the Euclidean distance. All three are built on the integer
  squared distance. `sqrt` is a parameter `root`, of which only `root(0) ==
  0` and strict monotonicity are assumed.
- `Matrix`: the matrix as a sequence of rows, and the fill, scan and
  normalisation passes in column order and row order.
- `DistanceGrid`: the facts every copy shares about a distance matrix.
  These are the shape of the matrix, when the maximum is zero, and what the
  normalisation leaves.
- `Reduction`: the local/global maximum of the parallel loop, as a fold over
  the critical sections in the order they happen.
- `Naive`, `LoopInterchange`, `ArrayMerge`, `Parallel`: the kernel of each
  copy of `main`.

The matrix is modelled as `seq<seq<real>>` rather than a mutable array.
Each pass is a method that returns the new matrix. The value the freshly
allocated matrix holds is a parameter `init`.

## Model

| member | source | states |
|---|---|---|
| Generator.RemFour | parallel-algorithm.cpp:24 | the subtraction remainder `Rem(d, 4)` is C's `d % 4` for the non-negative values `rand()` returns |
| Generator.RemTen | parallel-algorithm.cpp:27 | `Rem(d, 10)` is C's `d % 10` for non-negative draws |
| Generator.FirstAdmitting | parallel-algorithm.cpp:24 | the result is the first draw from `p` on with `d % 4 != 0`; every draw before it has `d % 4 == 0`; it is `None` exactly when no such draw remains |
| Generator.FirstStopping | parallel-algorithm.cpp:27 | the result is the first draw from `p` on with `d % 10 == 0`; no earlier draw stops; it is `None` exactly when none remains |
| Generator.Step | parallel-algorithm.cpp:24-32 | a successful step keeps every earlier point and start index and appends one of each; the new point has `x == n`; its start index is an admitting (`% 4 != 0`) draw at or after the old end; the step consumes at least one more draw, never past the end |
| Generator.Generate | parallel-algorithm.cpp:22-38 | a finished run has exactly `n` points; it never consumes more draws than exist; it consumes none exactly when `n == 0` |
| Generator.GenerateSound | parallel-algorithm.cpp:22-32 | every run the generator finishes satisfies `Explains`: point `t` is `(t + 1, k)`, where `k` counts the non-stopping draws after its admitting draw; only `% 4 == 0` draws lie between points; the run ends on the last point's stopping draw |
| Generator.GenerateComplete | parallel-algorithm.cpp:22-32 | conversely, any run that `Explains` describes is the one the generator returns |
| Generator.GenerateCharacterised | parallel-algorithm.cpp:22-38 | `Generate(n, draws) == Some(g)` if and only if `g` has `n` points and the draws explain it |
| Generator.NoneUpward | parallel-algorithm.cpp:23-24 | if the draws run out before `m` points, they run out before any larger count |
| Generator.NoPointLeft | parallel-algorithm.cpp:24 | if only `% 4 == 0` draws remain after an unfinished run, the generator returns `None` |
| Generator.RunNeverStops | parallel-algorithm.cpp:27-29 | if the run of a new point never meets a `% 10 == 0` draw, the generator returns `None` |
| Generator.PointWritten | parallel-algorithm.cpp:25-32 | an admitted point `(|g| + 1, run length)` extends an explained run to a longer explained run |
| Generator.GeneratedDistinct | parallel-algorithm.cpp:25-30 | generated points are pairwise distinct, because `x` counts from 1 |
| Generator.WastedDrawIgnored | parallel-algorithm.cpp:23-24 | a leading draw with `d % 4 == 0` leaves the points unchanged; it only moves every draw index one place later |
| Generator.PrefixSuffices | array-merge.cpp:21-36 | the generator reads no draw past the ones it consumes: any draw sequence that agrees on them gives the same run |
| Generator.StopsAfterLastPoint | array-merge.cpp:32-35 | the last consumed draw is needed, because one fewer draw does not finish; the draws after it are never read |
| Generator.CountRun | parallel-algorithm.cpp:27-29 | the inner loop stops exactly when a `% 10 == 0` draw exists; it returns the count of non-stopping draws before that draw and the index after it |
| Generator.ExplainedCoordinates | array-merge.cpp:28-29 | in an explained run every point has `x == t + 1` and `y >= 0` |
| Generator.GenerateVertices | parallel-algorithm.cpp:19-38 | the nested loops with the running `j`, the reset `k` and the `break` return exactly the run `Generate` defines; point `t` has `x == t + 1` and `y >= 0` |
| Generator.GenerateCoordinates | loop-interchange.cpp:15-33 | the `x`/`y` arrays exist exactly when the run finishes; both have length `n`; `x[i] == i + 1` and `y[i] >= 0`; entry `i` is point `i` of the run |
| Distance.Square | parallel-algorithm.cpp:10 | a squared coordinate difference is zero exactly when the difference is, and at least 1 otherwise |
| Distance.Macro | parallel-algorithm.cpp:10 | `DISTANCE(x1, x2, y1, y2)` is the Euclidean distance between the points `(x1, y1)` and `(x2, y2)`: its first two arguments are the `x` coordinates |
| Distance.ComputeDistance | naive-algorithm.cpp:5-8 | `computeDistance(x1, y1, x2, y2)` is the Euclidean distance between the points `(x1, y1)` and `(x2, y2)`: its arguments are one point after the other |
| Distance.Radicand | parallel-algorithm.cpp:10 | the argument of `sqrt` is zero exactly when both coordinate pairs are equal |
| Distance.ComputeDistanceProperties | naive-algorithm.cpp:5-8 | `computeDistance` is symmetric under swapping the points and never negative; it is zero exactly for identical points; it equals the macro and the Euclidean distance |
| Distance.DistProperties | parallel-algorithm.cpp:10 | the distance is symmetric, never negative, and zero exactly for identical points |
| Matrix.FillColumnOrder | naive-algorithm.cpp:36-40 | after the fill, cell `[j][i]` holds the expression of points `i` and `j`, and every cell is written exactly once |
| Matrix.FillRowOrder | loop-interchange.cpp:73-78 | the row-order fill the comment promises leaves the expression of points `r` and `c` in cell `[r][c]`, and writes each cell exactly once |
| Matrix.InterchangeSound | loop-interchange.cpp:74-78 | for a symmetric expression, the transposed writes still leave the expression of points `r` and `c` in cell `[r][c]` |
| Matrix.InterchangeSameMatrix | loop-interchange.cpp:73-78 | for a symmetric expression, the column-order fill and the row-order fill give the same matrix |
| Matrix.ColumnOrderTransposes | array-merge.cpp:76-80 | without symmetry, the column-order fill stores the expression with its arguments swapped |
| Matrix.ScanColumnOrder | naive-algorithm.cpp:54-60 | the column-order scan returns a `maxD` that is at least 0 and every cell, and is either 0 or the value of some cell |
| Matrix.ScanRowOrder | loop-interchange.cpp:92-98 | the row-order scan returns the same kind of maximum |
| Matrix.MaxUnique | array-merge.cpp:94-100 | two maxima of the same matrix are equal, so the column-order and row-order scans agree |
| Matrix.NormaliseColumnOrder | naive-algorithm.cpp:63-67 | every cell becomes its old value divided by `maxD`, and each cell is divided exactly once |
| Matrix.NormaliseRowOrder | loop-interchange.cpp:101-105 | the row-order normalisation divides every cell by `maxD`, each exactly once |
| Matrix.NormalisedRange | parallel-algorithm.cpp:108-113 | dividing a non-negative matrix by its positive maximum leaves every cell in [0, 1]; a cell is 1 exactly where the maximum was, and some cell is 1 |
| Reduction.RowScan | parallel-algorithm.cpp:82-86 | the inner scan never lowers the private maximum; the result bounds every scanned cell and is the start value or one of the cells |
| Reduction.RunTask | parallel-algorithm.cpp:82-92 | one row scan plus its critical section: the worker's copy rises to at least its old value and every cell of the row; the shared maximum rises to at least the copy and is either its old value or the copy; no other worker's copy changes |
| Reduction.Reduce | parallel-algorithm.cpp:78-92 | the state after any prefix of the critical sections has one copy per worker, and the shared maximum never falls below its initial 0 |
| Reduction.IdleKeepsStart | parallel-algorithm.cpp:80 | a worker that has run none of the tasks so far still holds the value its private copy started with |
| Reduction.ReduceBounds | parallel-algorithm.cpp:80-93 | after any prefix of the critical sections, the shared maximum is at least 0, every cell of every scanned row, and every copy of a worker that has run; no copy falls below its start |
| Reduction.ZeroStartAttained | parallel-algorithm.cpp:84-92 | with every private copy starting at 0, each copy and the shared maximum are always 0 or the value of some cell |
| Reduction.ZeroStartFindsMax | parallel-algorithm.cpp:78-93 | with private copies starting at 0, any schedule of the rows on a team of any size leaves in `globalMaxD` the maximum of the matrix that the sequential scans find |
| Reduction.ScheduleIndependent | parallel-algorithm.cpp:80-92 | with every private copy starting at 0, two schedules, on teams of any two sizes, with any order of critical sections and any assignment of rows to workers, give the same `globalMaxD`, equal to any sequential maximum |
| Reduction.StaleLocalOvershoots | parallel-algorithm.cpp:79-80 | if the uninitialised copy of any worker that runs at least one row starts above every cell, `globalMaxD` ends above every cell and is not the maximum |
| Reduction.AssignmentMatters | parallel-algorithm.cpp:80-92 | as written, the assignment of rows to workers changes `globalMaxD`: for the matrix `[[0]]` and copies `[0, 5]`, worker 0 running the row leaves the maximum 0, and worker 1 leaves 5, which is not the maximum |
| DistanceGrid.DistanceGridShape | parallel-algorithm.cpp:81-86 | a distance matrix is non-negative and symmetric with a zero diagonal; a cell is zero exactly when its two points coincide |
| DistanceGrid.MaxZeroIffCoincide | naive-algorithm.cpp:54-65 | the maximum distance is 0, so the normalisation divides by zero, exactly when all points coincide |
| DistanceGrid.GeneratedMaxPositive | parallel-algorithm.cpp:22-32 | for generated points the maximum distance is positive exactly when there are at least two points |
| DistanceGrid.ScaledIsNormalised | loop-interchange.cpp:101-105 | dividing a distance matrix by its positive maximum meets `NormalisedFrom`: each cell is the distance over the maximum, lies in [0, 1], and is 1 exactly where the maximum was |
| DistanceGrid.NormaliseIdempotent | parallel-algorithm.cpp:108-113 | normalisation is idempotent: a normalised matrix has maximum 1, and normalising it again by that maximum meets `NormalisedFrom` with the matrix itself as the result |
| Naive.CellIsDistance | naive-algorithm.cpp:38 | the cell expression `computeDistance(x[i], y[i], x[j], y[j])` is the distance between the points, in either order |
| Naive.Kernel | naive-algorithm.cpp:36-67 | the matrix is the distance matrix; `maxD` is its maximum; the normalised matrix exists exactly when `maxD != 0` and meets `NormalisedFrom` |
| LoopInterchange.CellIsDistance | loop-interchange.cpp:76 | `DISTANCE(x[i], x[j], y[i], y[j])` is the distance between the points, so it is symmetric |
| LoopInterchange.Kernel | loop-interchange.cpp:74-105 | although the fill still writes `[j][i]`, the matrix is the distance matrix with a zero diagonal; `maxD` is its maximum; the normalisation meets `NormalisedFrom` |
| LoopInterchange.CoordinatesMaxPositive | loop-interchange.cpp:92-98 | with the generated `x`/`y` arrays, `maxD` is positive exactly when there are at least two points |
| ArrayMerge.CellAsWritten | array-merge.cpp:78 | the expression as written is the distance between the points `(pi.x, pj.x)` and `(pi.y, pj.y)`, not between `pi` and `pj` |
| ArrayMerge.CellAsWrittenShape | array-merge.cpp:78 | the expression as written is symmetric and never negative, but its diagonal cell is zero only for a point with `x == y` |
| ArrayMerge.DiagonalCounterexample | array-merge.cpp:78 | the draws `[1, 0]` generate the single point `(1, 0)`; the expression as written gives it a positive diagonal cell, while its distance to itself is 0 |
| ArrayMerge.SinglePointRun | array-merge.cpp:20-35 | the draws `[1, 0]` make the generator write the single point `(1, 0)`, after consuming both draws |
| ArrayMerge.AsWrittenMaxZeroIff | array-merge.cpp:78-100 | with the expression as written, the scanned maximum is 0, so line 105 divides by zero, exactly when every point has `x == y` |
| ArrayMerge.ZeroMaxCounterexample | array-merge.cpp:78-107 | for the two points `(1, 1)` and `(2, 2)`, which the generator writes (`TwoPointRun`), every cell as written is 0, so `maxD` is 0 and line 105 divides by zero, although the points are a positive distance apart |
| ArrayMerge.TwoPointRun | array-merge.cpp:20-35 | the draws `[1, 1, 0, 1, 1, 1, 0]` make the generator write `(1, 1)` and `(2, 2)`, consuming all seven draws |
| ArrayMerge.CellIsDistance | array-merge.cpp:8 | the expression with the arguments in macro order is the distance, and it is symmetric |
| ArrayMerge.ScanAndNormalise | array-merge.cpp:94-107 | `maxD` is the maximum; the matrix is divided, cell by cell, exactly when `maxD != 0` |
| ArrayMerge.KernelAsWritten | array-merge.cpp:76-107 | `main` as written: every cell holds the expression as written; the matrix is symmetric; `maxD` is its maximum; the normalisation meets `NormalisedFrom` |
| ArrayMerge.Kernel | array-merge.cpp:76-107 | with the corrected expression, the matrix is the distance matrix; `maxD` is its maximum; the normalisation meets `NormalisedFrom` |
| Parallel.CellIsDistance | parallel-algorithm.cpp:83 | a matrix filled with `DISTANCE(points[i].x, points[j].x, points[i].y, points[j].y)` is the distance matrix |
| Parallel.FillRow | parallel-algorithm.cpp:82-86 | one task fills its row with the cell expression and leaves the other rows alone; its private copy ends as the scan of the row from the copy's old value |
| Parallel.FusedTask | parallel-algorithm.cpp:81-92 | one iteration, the row plus its critical section, advances the state by exactly one critical section of the fold and fills one more row |
| Parallel.FusedFillMax | parallel-algorithm.cpp:78-93 | after the fused loop every cell holds the cell expression, and `globalMaxD` is the fold of the critical sections over the filled matrix, from any start values of the private copies |
| Parallel.Kernel | parallel-algorithm.cpp:78-113 | on a team of any size, with copies starting at 0: the matrix is the distance matrix and `globalMaxD` is its maximum for every schedule; the row-order normalisation meets `NormalisedFrom` |
| Parallel.TwoPointGrid | parallel-algorithm.cpp:83 | for the points `(a, 0)` and `(a + 1, 0)` the fill leaves `[[root(0), root(1)], [root(1), root(0)]]` |
| Parallel.OvershootExample | parallel-algorithm.cpp:79-80 | with those two points, a worker whose uninitialised copy holds `root(1) + 1` leaves `globalMaxD` above the longest distance, so it is not the maximum |
| Parallel.GeneratedFusedMax | parallel-algorithm.cpp:78-93 | for generated points, with every private copy starting at 0, the fused loop's `globalMaxD` is positive exactly when there are at least two points, so only one point makes the normalisation divide by zero |

## Left out

- Timing, file output and the outer `main` loop over `nVertices`. These are
  benchmark plumbing: `std::chrono`, `ofstream` and `MAX_N`.
- `srand(time(nullptr))` and `rand()`. The draws are an explicit sequence.
  When it runs out before the last point, the result is `None`; the C++
  loop would simply still be running.
- The file read of naive-algorithm.cpp:12-20. It can overrun `x`/`y` or
  leave them partly filled. The model takes the points as a sequence whose
  length is `nVertices`.
- `DEBUG` print blocks. Some reference undeclared variables, for example
  array-merge.cpp:39.
- `allocateMatrix` and `deallocate`, which are memory management.
  `deallocate` also leaks the row-pointer array. The freshly allocated
  contents are the parameter `init`.
- OpenMP scheduling. Only the order of the critical sections matters to the
  result, and it is the order of the task sequence. A task is an
  iteration `i` run by some worker `w`. Each row is handed to exactly one
  task. The pragma at parallel-algorithm.cpp:80 names no team size, and the
  `numThreads` constant of line 9 is not used there. The team size is
  therefore a parameter, `workers`, with one private copy per worker. The `collapse(2)` normalisation is modelled as the row-order
  loop: every cell is divided independently, so the schedule does not
  change the result.
- IEEE-754 `double` and `sqrt`. Cells are `real`, and `sqrt` of the integer
  squared distance is any `root` with `root(0) == 0` that is strictly
  increasing. Rounding is not modelled.
- The integer coordinates are unbounded. The C++ `int` arithmetic
  `(x1 - x2) * (x1 - x2)` could overflow only for coordinates far beyond
  what the generator produces; the model does not model wrap-around.
- Division by a zero maximum. The copies divide unconditionally, and a
  zero maximum turns each cell into `0 / 0`, a NaN. The kernels return
  `None` for the normalised matrix in that case. In naive-algorithm.cpp,
  loop-interchange.cpp and parallel-algorithm.cpp, and in the corrected
  array-merge kernel, the maximum is zero when every point coincides; for
  generated points that means `nVertices == 1`. In array-merge.cpp as
  written it is zero when every point has `x == y`
  (`ArrayMerge.AsWrittenMaxZeroIff`). A single generated point `(1, 0)`
  then gives a positive maximum, and two points such as `(1, 1)` and
  `(2, 2)` give a zero one (`ArrayMerge.ZeroMaxCounterexample`).
  `Matrix.NormaliseColumnOrder` and `Matrix.NormaliseRowOrder` require
  `maxD != 0`.
- Matrix.NormaliseColumnOrder: requires `maxD != 0`, because the NaN that
  `0 / 0` gives in C++ has no counterpart in `real`.
- Matrix.NormaliseRowOrder: requires `maxD != 0`, for the same reason.
- Reduction.ScheduleIndependent: holds only for private copies that start
  at 0, the corrected behaviour. With the uninitialised copies of
  parallel-algorithm.cpp:80, a stale copy reaches `globalMaxD` only through
  the rows its worker runs, so the assignment of rows to workers can change
  the result (`Reduction.AssignmentMatters`).
- Parallel.GeneratedFusedMax: holds only for private copies that start at
  0. With a positive stale copy, one point already gives a positive
  `globalMaxD`, so the division by zero need not happen.
- Parallel.Kernel: starts the private copies at 0, the corrected behaviour.
  The copies as written are covered by `Parallel.FusedFillMax` with
  arbitrary start values, and by the finding below.
- The two layouts of the points (the `x`/`y` arrays versus `struct point`)
  are both `seq<Point>`. `GenerateCoordinates` and `LoopInterchange.Points`
  relate the array layout to it.

## Findings

| source | as written | input that shows it | evidently intended | confidence | as-written member | corrected member |
|---|---|---|---|---|---|---|
| array-merge.cpp:78 | the fill passes one point's coordinates after the other, `(pi.x, pi.y, pj.x, pj.y)`, to a macro whose first two arguments are both `x` coordinates; the cell is the root of `(xi - yi)^2 + (xj - yj)^2` | draws `[1, 0]` give the single point `(1, 0)`, whose diagonal cell is `root(2) > 0` instead of 0 | the distance `DISTANCE(pi.x, pj.x, pi.y, pj.y)`, as in parallel-algorithm.cpp:83 | high, not executed | ArrayMerge.DiagonalCounterexample | ArrayMerge.Kernel |
| parallel-algorithm.cpp:80 | `private(localMaxD)` gives each worker a copy of `localMaxD` that is not initialised; the 0 assigned at line 79 is not copied in | points `(a, 0)` and `(a + 1, 0)`, with worker 0's copy holding `root(1) + 1` before its first row | every copy starts at 0, as `firstprivate(localMaxD)` would do | high, not executed | Parallel.OvershootExample | Reduction.ZeroStartFindsMax |
