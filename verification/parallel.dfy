/** parallel-algorithm.cpp: the fill is fused with the maximum (each
    worker of the parallel loop fills and scans whole rows `matrix[i][j]`,
    then merges its private maximum in a critical section), and the
    normalisation runs in row order. */
module Parallel {
  import opened Wrappers
  import opened Plane
  import opened Generator
  import opened Distance
  import opened Matrix
  import opened Reduction
  import opened DistanceGrid

  /** The cell expression `DISTANCE(points[i].x, points[j].x, points[i].y, points[j].y)`. */
  function Cell(root: nat -> real, p: Point, q: Point): real {
    Macro(root, p.x, q.x, p.y, q.y)
  }

  /** The cell expression as the function the fill applies. */
  function CellOf(root: nat -> real): (Point, Point) -> real {
    (p, q) => Cell(root, p, q)
  }

  /** The cell expression is the distance between the two points. */
  lemma CellIsDistance(root: nat -> real, m: Grid, pts: seq<Point>)
    requires IsRoot(root) && Holds(m, pts, CellOf(root))
    ensures IsDistanceGrid(m, root, pts)
  {
    forall r, c | 0 <= r < |pts| && 0 <= c < |pts|
      ensures m[r][c] == Dist(root, pts[r], pts[c])
    {
      assert m[r][c] == Cell(root, pts[r], pts[c]);
    }
  }

  /** Some matrix holds `f` of every pair of points. */
  lemma SomeFilledGrid(pts: seq<Point>, f: (Point, Point) -> real) returns (g: Grid)
    ensures Holds(g, pts, f)
  {
    g := seq(|pts|, r requires 0 <= r < |pts| => seq(|pts|, c requires 0 <= c < |pts| => f(pts[r], pts[c])));
  }

  /** The fused parallel loop, with the tasks run in the order of their
      critical sections. `f` is the cell expression, and `start[w]` is the
      value worker `w`'s private `localMaxD` holds before its first row.
      Every cell ends holding `f` of its two points, and `globalMaxD` is the
      fold of the critical sections over the filled matrix. */
  method FusedFillMax(f: (Point, Point) -> real, pts: seq<Point>, tasks: seq<Task>, start: seq<real>, init: Grid)
    returns (m: Grid, globalMaxD: real)
    requires IsSchedule(tasks, |pts|) && Staffed(tasks, start) && IsSquare(init, |pts|)
    ensures Holds(m, pts, f)
    ensures InRange(m, tasks)
    ensures globalMaxD == Reduce(m, tasks, start, |tasks|).global
  {
    ghost var g := SomeFilledGrid(pts, f);
    assert InRange(g, tasks);
    m := init;
    var merge := Merge(start, 0.0);
    for t := 0 to |tasks|
      invariant IsSquare(m, |pts|)
      invariant merge == Reduce(g, tasks, start, t)
      invariant forall s :: 0 <= s < t ==> m[tasks[s].row] == g[tasks[s].row]
    {
      m, merge := FusedTask(f, pts, tasks, start, t, m, merge, g);
    }
    FilledEverywhere(m, g, tasks);
    globalMaxD := merge.global;
  }

  /** One iteration `i` of the parallel loop, run by worker `w`: the row is
      filled and scanned into `w`'s private copy, and the critical section
      merges the copy into `globalMaxD`. The state afterwards is that of one
      more critical section over the filled matrix `g`, and one more task's
      row is filled. */
  method FusedTask(f: (Point, Point) -> real, pts: seq<Point>, tasks: seq<Task>, start: seq<real>, t: nat,
                   m0: Grid, merge0: Merge, ghost g: Grid)
    returns (m: Grid, merge: Merge)
    requires IsSchedule(tasks, |pts|) && Staffed(tasks, start) && t < |tasks| && IsSquare(m0, |pts|)
    requires Holds(g, pts, f) && InRange(g, tasks)
    requires merge0 == Reduce(g, tasks, start, t)
    requires forall s :: 0 <= s < t ==> m0[tasks[s].row] == g[tasks[s].row]
    ensures IsSquare(m, |pts|)
    ensures merge == Reduce(g, tasks, start, t + 1)
    ensures forall s :: 0 <= s < t + 1 ==> m[tasks[s].row] == g[tasks[s].row]
  {
    var w := tasks[t].worker;
    var localMaxD;
    m, localMaxD := FillRow(f, pts, m0, tasks[t].row, merge0.locals[w]);
    assert m[tasks[t].row] == g[tasks[t].row];
    OtherRowsKept(m, m0, g, tasks, t);
    NextTask(g, tasks, start, t, merge0, localMaxD);
    merge := Merge(merge0.locals[w := localMaxD], if localMaxD > merge0.global then localMaxD else merge0.global);
  }

  /** The inner loop of one task: row `i` is filled with the cell
      expression and scanned into the private copy `localMaxD`, which
      starts at `acc`; the other rows are untouched. */
  method FillRow(f: (Point, Point) -> real, pts: seq<Point>, m0: Grid, i: nat, acc: real)
    returns (m: Grid, localMaxD: real)
    requires IsSquare(m0, |pts|) && i < |pts|
    ensures IsSquare(m, |pts|)
    ensures forall c :: 0 <= c < |pts| ==> m[i][c] == f(pts[i], pts[c])
    ensures forall r :: 0 <= r < |pts| && r != i ==> m[r] == m0[r]
    ensures localMaxD == RowScan(m[i], 0, acc)
  {
    ghost var row := seq(|pts|, c requires 0 <= c < |pts| => f(pts[i], pts[c]));
    m, localMaxD := m0, acc;
    for j := 0 to |pts|
      invariant IsSquare(m, |pts|)
      invariant forall r :: 0 <= r < |pts| && r != i ==> m[r] == m0[r]
      invariant forall c :: 0 <= c < j ==> m[i][c] == row[c]
      invariant RowScan(row, j, localMaxD) == RowScan(row, 0, acc)
    {
      m := m[i := m[i][j := f(pts[i], pts[j])]];
      if m[i][j] > localMaxD {
        localMaxD := m[i][j];
      }
    }
    assert m[i] == row;
  }

  /** Filling the row of task `t` keeps the rows of the earlier tasks. */
  lemma OtherRowsKept(m: Grid, before: Grid, g: Grid, tasks: seq<Task>, t: nat)
    requires IsSchedule(tasks, |g|) && t < |tasks| && |m| == |g| && |before| == |g|
    requires m[tasks[t].row] == g[tasks[t].row]
    requires forall r :: 0 <= r < |g| && r != tasks[t].row ==> m[r] == before[r]
    requires forall s :: 0 <= s < t ==> before[tasks[s].row] == g[tasks[s].row]
    ensures forall s :: 0 <= s < t + 1 ==> m[tasks[s].row] == g[tasks[s].row]
  {
    forall s | 0 <= s < t + 1
      ensures m[tasks[s].row] == g[tasks[s].row]
    {
      if s < t {
        assert tasks[s].row != tasks[t].row;
      }
    }
  }

  /** The critical section of task `t`, after its row scan left
      `localMaxD` in the worker's private copy. */
  lemma NextTask(g: Grid, tasks: seq<Task>, start: seq<real>, t: nat, merge: Merge, localMaxD: real)
    requires InRange(g, tasks) && Staffed(tasks, start) && t < |tasks|
    requires merge == Reduce(g, tasks, start, t)
    requires localMaxD == RowScan(g[tasks[t].row], 0, merge.locals[tasks[t].worker])
    ensures Reduce(g, tasks, start, t + 1) ==
      Merge(merge.locals[tasks[t].worker := localMaxD], if localMaxD > merge.global then localMaxD else merge.global)
  {
    assert Reduce(g, tasks, start, t + 1) == RunTask(g, merge, tasks[t]);
  }

  /** Once every task has filled its row, every row is filled. */
  lemma FilledEverywhere(m: Grid, g: Grid, tasks: seq<Task>)
    requires IsSquare(m, |g|) && IsSchedule(tasks, |g|)
    requires forall s :: 0 <= s < |tasks| ==> m[tasks[s].row] == g[tasks[s].row]
    ensures m == g
  {
    forall r | 0 <= r < |g|
      ensures m[r] == g[r]
    {
      assert Covers(tasks, r);
    }
  }

  /** `main` with the private copies starting at 0, on a team of `workers`
      threads: the matrix is the distance matrix, `globalMaxD` is its
      maximum for every schedule of the rows, and the row-order
      normalisation follows. */
  method Kernel(root: nat -> real, pts: seq<Point>, tasks: seq<Task>, workers: nat, init: Grid)
    returns (m: Grid, globalMaxD: real, normalised: Option<Grid>)
    requires IsRoot(root) && IsSchedule(tasks, |pts|) && Staffed(tasks, ZeroStart(workers))
    requires IsSquare(init, |pts|)
    ensures IsDistanceGrid(m, root, pts)
    ensures IsMaxOf(m, globalMaxD)
    ensures NormalisedFrom(m, |pts|, globalMaxD, normalised)
  {
    m, globalMaxD := FusedFillMax(CellOf(root), pts, tasks, ZeroStart(workers), init);
    CellIsDistance(root, m, pts);
    ZeroStartFindsMax(m, tasks, ZeroStart(workers));
    if globalMaxD != 0.0 {
      var r, divisions := NormaliseRowOrder(m, |pts|, globalMaxD);
      ScaledIsNormalised(m, root, pts, globalMaxD, r);
      normalised := Some(r);
    } else {
      normalised := None;
    }
  }

  /** The private copies of a team of `workers` threads, of which worker
      0's holds `v` and the others 0. */
  function StaleStart(workers: nat, v: real): (start: seq<real>)
    requires workers > 0
    ensures |start| == workers && start[0] == v
    ensures forall w :: 0 < w < workers ==> start[w] == 0.0
  {
    seq(workers, w => if w == 0 then v else 0.0)
  }

  /** Two points one apart along `x` are `root(1)` apart, either way
      round, and each is `root(0)` from itself. */
  lemma UnitApart(root: nat -> real, p: Point, q: Point)
    requires q == Point(p.x + 1, p.y)
    ensures Cell(root, p, q) == root(1) && Cell(root, q, p) == root(1)
    ensures Cell(root, p, p) == root(0) && Cell(root, q, q) == root(0)
  {
    assert Radicand(p.x, q.x, p.y, q.y) == Square(-1) + Square(0);
    assert Radicand(q.x, p.x, q.y, p.y) == Square(1) + Square(0);
  }

  /** The matrix the fill leaves for two points `(a, 0)` and `(a + 1, 0)`. */
  lemma TwoPointGrid(root: nat -> real, a: int)
    ensures Holds([[root(0), root(1)], [root(1), root(0)]], [Point(a, 0), Point(a + 1, 0)], CellOf(root))
  {
    var pts := [Point(a, 0), Point(a + 1, 0)];
    UnitApart(root, pts[0], pts[1]);
    forall r, c | 0 <= r < 2 && 0 <= c < 2
      ensures [[root(0), root(1)], [root(1), root(0)]][r][c] == CellOf(root)(pts[r], pts[c])
    {
    }
  }

  /** The fused loop as written: with two points `(a, 0)` and `(a + 1, 0)`
      one apart, a worker whose private copy happens to hold `root(1) + 1`
      leaves `globalMaxD` above the longest distance, so it is not the
      maximum of the matrix. */
  lemma OvershootExample(root: nat -> real, a: int, workers: nat)
    requires IsRoot(root) && workers > 0
    ensures var m := [[root(0), root(1)], [root(1), root(0)]];
      var tasks := [Task(0, 0), Task(0, 1)];
      var start := StaleStart(workers, root(1) + 1.0);
      Holds(m, [Point(a, 0), Point(a + 1, 0)], CellOf(root)) &&
      InRange(m, tasks) && Staffed(tasks, start) &&
      Reduce(m, tasks, start, |tasks|).global > root(1) &&
      !IsMaxOf(m, Reduce(m, tasks, start, |tasks|).global)
  {
    var m := [[root(0), root(1)], [root(1), root(0)]];
    var tasks := [Task(0, 0), Task(0, 1)];
    TwoPointGrid(root, a);
    assert tasks[0].row == 0 && tasks[1].row == 1;
    assert Covers(tasks, 0) && Covers(tasks, 1);
    RootSign(root, 1);
    StaleLocalOvershoots(m, tasks, StaleStart(workers, root(1) + 1.0), root(1), 0);
  }

  /** For generated points, with every private copy starting at 0, the
      fused loop finds a positive maximum exactly when there are at least
      two points, so with one point the normalisation divides by zero. */
  lemma GeneratedFusedMax(root: nat -> real, n: nat, draws: seq<nat>, tasks: seq<Task>, workers: nat, m: Grid)
    requires IsRoot(root) && Generate(n, draws).Some?
    requires IsSchedule(tasks, n) && Staffed(tasks, ZeroStart(workers))
    requires Holds(m, Generate(n, draws).value.points, CellOf(root))
    ensures InRange(m, tasks)
    ensures Reduce(m, tasks, ZeroStart(workers), |tasks|).global > 0.0 <==> n >= 2
  {
    CellIsDistance(root, m, Generate(n, draws).value.points);
    ZeroStartFindsMax(m, tasks, ZeroStart(workers));
    GeneratedMaxPositive(root, n, draws, m, Reduce(m, tasks, ZeroStart(workers), |tasks|).global);
  }
}
