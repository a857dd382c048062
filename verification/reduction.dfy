/** The fused maximum of parallel-algorithm.cpp. The rows of the matrix are
    shared out among the workers of the parallel `for`; each worker keeps a
    private running maximum `localMaxD` over the rows it scans (the copy is
    never reset between rows), and after each row merges it into the shared
    `globalMaxD` inside a critical section, taking it when strictly greater.
    Whatever the interleaving, the critical sections happen one after the
    other and each worker's private copy is touched by no one else, so a run
    is a sequence of tasks `(worker, row)` in the order of their critical
    sections, folded left to right. */
module Reduction {
  import opened Matrix

  /** One iteration `i` of the parallel loop, executed by `worker`. */
  datatype Task = Task(worker: nat, row: nat)

  /** The private copies of the workers, indexed by worker, and the shared
      maximum between two critical sections. */
  datatype Merge = Merge(locals: seq<real>, global: real)

  /** Each row `0 <= r < n` is handed to exactly one task. The pragma names
      no team size, so a worker is any natural number; `Staffed` says which
      workers have a private copy. */
  ghost predicate IsSchedule(tasks: seq<Task>, n: nat) {
    && (forall t :: 0 <= t < |tasks| ==> tasks[t].row < n)
    && (forall r :: 0 <= r < n ==> Covers(tasks, r))
    && (forall s, t :: 0 <= s < t < |tasks| ==> tasks[s].row != tasks[t].row)
  }

  /** Some task scans row `r`. */
  ghost predicate Covers(tasks: seq<Task>, r: nat) {
    exists t :: 0 <= t < |tasks| && tasks[t].row == r
  }

  /** The rows a schedule names all exist. */
  ghost predicate InRange(m: Grid, tasks: seq<Task>) {
    forall t :: 0 <= t < |tasks| ==> tasks[t].row < |m|
  }

  /** Every worker of the schedule has a private copy, holding the value
      `start` gives it before the loop. */
  ghost predicate Staffed(tasks: seq<Task>, start: seq<real>) {
    forall t :: 0 <= t < |tasks| ==> tasks[t].worker < |start|
  }

  /** The private copies of a team of `workers` threads, every one starting
      at 0. */
  function ZeroStart(workers: nat): (start: seq<real>)
    ensures |start| == workers
    ensures forall w :: 0 <= w < |start| ==> start[w] == 0.0
  {
    seq(workers, _ => 0.0)
  }

  /** The inner loop over `j` from column `c` on: `acc` takes `row[j]`
      whenever it is strictly greater. */
  function RowScan(row: seq<real>, c: nat, acc: real): (r: real)
    requires c <= |row|
    ensures r >= acc
    ensures forall d :: c <= d < |row| ==> row[d] <= r
    ensures r == acc || exists d :: c <= d < |row| && row[d] == r
    decreases |row| - c
  {
    if c == |row| then acc else RowScan(row, c + 1, if row[c] > acc then row[c] else acc)
  }

  /** One task: the worker scans its row into its private copy, then the
      critical section merges the copy into the shared maximum. The copy
      ends at least its old value and every cell of the row; the shared
      maximum ends at least its old value and the copy, and is one of the
      two; no other worker's copy changes. */
  function RunTask(m: Grid, st: Merge, t: Task): (r: Merge)
    requires t.row < |m| && t.worker < |st.locals|
    ensures |r.locals| == |st.locals|
    ensures st.locals[t.worker] <= r.locals[t.worker] <= r.global
    ensures forall c :: 0 <= c < |m[t.row]| ==> m[t.row][c] <= r.locals[t.worker]
    ensures st.global <= r.global
    ensures r.global == st.global || r.global == r.locals[t.worker]
    ensures forall w :: 0 <= w < |st.locals| && w != t.worker ==> r.locals[w] == st.locals[w]
  {
    var local := RowScan(m[t.row], 0, st.locals[t.worker]);
    Merge(st.locals[t.worker := local], if local > st.global then local else st.global)
  }

  /** Worker `w` runs none of the first `k` tasks. */
  ghost predicate Idle(tasks: seq<Task>, k: nat, w: nat)
    requires k <= |tasks|
  {
    forall t :: 0 <= t < k ==> tasks[t].worker != w
  }

  /** The state after the first `k` critical sections; the private copies
      start at `start` and `globalMaxD` at 0, which it never falls below. */
  function Reduce(m: Grid, tasks: seq<Task>, start: seq<real>, k: nat): (r: Merge)
    requires InRange(m, tasks) && Staffed(tasks, start) && k <= |tasks|
    ensures |r.locals| == |start|
    ensures r.global >= 0.0
  {
    if k == 0 then Merge(start, 0.0) else RunTask(m, Reduce(m, tasks, start, k - 1), tasks[k - 1])
  }

  /** The private copy of a worker that has run none of the first `k`
      tasks still holds its starting value: no one else touches it. */
  lemma {:induction false} IdleKeepsStart(m: Grid, tasks: seq<Task>, start: seq<real>, k: nat, w: nat)
    requires InRange(m, tasks) && Staffed(tasks, start) && k <= |tasks|
    requires w < |start| && Idle(tasks, k, w)
    ensures Reduce(m, tasks, start, k).locals[w] == start[w]
  {
    if k > 0 {
      IdleKeepsStart(m, tasks, start, k - 1, w);
    }
  }

  /** After `k` critical sections the shared maximum is at least 0, every
      cell of every row scanned so far, and the private copy of every worker
      that has run; no private copy has fallen below its starting value. */
  lemma {:induction false} ReduceBounds(m: Grid, tasks: seq<Task>, start: seq<real>, k: nat)
    requires InRange(m, tasks) && Staffed(tasks, start) && k <= |tasks|
    ensures Reduce(m, tasks, start, k).global >= 0.0
    ensures forall t, c :: 0 <= t < k && 0 <= c < |m[tasks[t].row]| ==>
      m[tasks[t].row][c] <= Reduce(m, tasks, start, k).global
    ensures forall t :: 0 <= t < k ==>
      Reduce(m, tasks, start, k).locals[tasks[t].worker] <= Reduce(m, tasks, start, k).global
    ensures forall w :: 0 <= w < |start| ==> start[w] <= Reduce(m, tasks, start, k).locals[w]
  {
    if k > 0 {
      ReduceBounds(m, tasks, start, k - 1);
      BoundsStep(m, tasks, start, k, Reduce(m, tasks, start, k - 1), Reduce(m, tasks, start, k));
    }
  }

  /** `ReduceBounds` for the state `r` after the first `k` tasks, given it
      for the state `st` after the first `k - 1`. */
  lemma BoundsStep(m: Grid, tasks: seq<Task>, start: seq<real>, k: nat, st: Merge, r: Merge)
    requires InRange(m, tasks) && Staffed(tasks, start) && 0 < k <= |tasks|
    requires |st.locals| == |start| && r == RunTask(m, st, tasks[k - 1])
    requires st.global >= 0.0
    requires forall t, c :: 0 <= t < k - 1 && 0 <= c < |m[tasks[t].row]| ==> m[tasks[t].row][c] <= st.global
    requires forall t :: 0 <= t < k - 1 ==> st.locals[tasks[t].worker] <= st.global
    requires forall w :: 0 <= w < |start| ==> start[w] <= st.locals[w]
    ensures r.global >= 0.0
    ensures forall t, c :: 0 <= t < k && 0 <= c < |m[tasks[t].row]| ==> m[tasks[t].row][c] <= r.global
    ensures forall t :: 0 <= t < k ==> r.locals[tasks[t].worker] <= r.global
    ensures forall w :: 0 <= w < |start| ==> start[w] <= r.locals[w]
  {
  }

  /** `v` is 0 or the value of some cell. */
  ghost predicate Attained(m: Grid, v: real) {
    v == 0.0 || exists r, c :: 0 <= r < |m| && 0 <= c < |m[r]| && m[r][c] == v
  }

  /** With every private copy starting at 0, every private copy and the
      shared maximum are always 0 or the value of some cell. */
  lemma {:induction false} ZeroStartAttained(m: Grid, tasks: seq<Task>, start: seq<real>, k: nat)
    requires InRange(m, tasks) && Staffed(tasks, start) && k <= |tasks|
    requires forall w :: 0 <= w < |start| ==> start[w] == 0.0
    ensures Attained(m, Reduce(m, tasks, start, k).global)
    ensures forall w :: 0 <= w < |start| ==> Attained(m, Reduce(m, tasks, start, k).locals[w])
  {
    if k > 0 {
      var st := Reduce(m, tasks, start, k - 1);
      var t := tasks[k - 1];
      ZeroStartAttained(m, tasks, start, k - 1);
      var local := RowScan(m[t.row], 0, st.locals[t.worker]);
      assert Attained(m, local) by {
        if local != st.locals[t.worker] {
          var d :| 0 <= d < |m[t.row]| && m[t.row][d] == local;
        }
      }
      assert Reduce(m, tasks, start, k) == RunTask(m, st, t);
    }
  }

  /** The corrected merge: with every private copy starting at 0, any
      schedule of the rows on a team of any size leaves in `globalMaxD` the
      maximum of the matrix that the sequential scans compute. */
  lemma {:induction false} ZeroStartFindsMax(m: Grid, tasks: seq<Task>, start: seq<real>)
    requires IsSchedule(tasks, |m|) && Staffed(tasks, start)
    requires forall w :: 0 <= w < |start| ==> start[w] == 0.0
    ensures InRange(m, tasks)
    ensures IsMaxOf(m, Reduce(m, tasks, start, |tasks|).global)
  {
    ZeroStartAttained(m, tasks, start, |tasks|);
    ReduceBounds(m, tasks, start, |tasks|);
    AllRowsBelow(m, tasks, Reduce(m, tasks, start, |tasks|).global);
  }

  /** A bound on every row a schedule scans is a bound on the matrix. */
  lemma AllRowsBelow(m: Grid, tasks: seq<Task>, v: real)
    requires IsSchedule(tasks, |m|)
    requires forall t, c :: 0 <= t < |tasks| && 0 <= c < |m[tasks[t].row]| ==> m[tasks[t].row][c] <= v
    ensures forall a, c :: 0 <= a < |m| && 0 <= c < |m[a]| ==> m[a][c] <= v
  {
    forall a, c | 0 <= a < |m| && 0 <= c < |m[a]|
      ensures m[a][c] <= v
    {
      assert Covers(tasks, a);
      var t :| 0 <= t < |tasks| && tasks[t].row == a;
    }
  }

  /** With every private copy starting at 0, the order of the critical
      sections, the size of the team and the assignment of rows to workers
      do not matter: two schedules on teams of `workers` and `others`
      threads both yield the value of any sequential scan. With stale
      copies the assignment does matter (`StaleLocalOvershoots`). */
  lemma {:induction false} ScheduleIndependent(m: Grid, tasks: seq<Task>, workers: nat,
                                               other: seq<Task>, others: nat, maxD: real)
    requires IsSchedule(tasks, |m|) && Staffed(tasks, ZeroStart(workers))
    requires IsSchedule(other, |m|) && Staffed(other, ZeroStart(others))
    requires IsMaxOf(m, maxD)
    ensures InRange(m, tasks) && InRange(m, other)
    ensures Reduce(m, tasks, ZeroStart(workers), |tasks|).global == maxD
    ensures Reduce(m, other, ZeroStart(others), |other|).global == maxD
  {
    ZeroStartFindsMax(m, tasks, ZeroStart(workers));
    ZeroStartFindsMax(m, other, ZeroStart(others));
    MaxUnique(m, Reduce(m, tasks, ZeroStart(workers), |tasks|).global, maxD);
    MaxUnique(m, Reduce(m, other, ZeroStart(others), |other|).global, maxD);
  }

  /** The merge as written: a private copy that is not initialised may hold
      a value above every cell. If the worker owning it runs any row (task
      `t`), `globalMaxD` ends above every cell and is not the maximum of the
      matrix. */
  lemma StaleLocalOvershoots(m: Grid, tasks: seq<Task>, start: seq<real>, v: real, t: nat)
    requires IsSchedule(tasks, |m|) && Staffed(tasks, start) && t < |tasks|
    requires v >= 0.0
    requires forall a, c :: 0 <= a < |m| && 0 <= c < |m[a]| ==> m[a][c] <= v
    requires start[tasks[t].worker] > v
    ensures InRange(m, tasks)
    ensures Reduce(m, tasks, start, |tasks|).global > v
    ensures !IsMaxOf(m, Reduce(m, tasks, start, |tasks|).global)
  {
    ReduceBounds(m, tasks, start, |tasks|);
  }

  /** With stale copies the assignment of rows matters: for the one-cell
      matrix `[[0]]` and copies `[0, 5]`, the row run by worker 0 leaves
      `globalMaxD` at 0, the maximum, and run by worker 1 leaves it at 5. */
  lemma AssignmentMatters()
    ensures Reduce([[0.0]], [Task(0, 0)], [0.0, 5.0], 1).global == 0.0
    ensures Reduce([[0.0]], [Task(1, 0)], [0.0, 5.0], 1).global == 5.0
    ensures IsMaxOf([[0.0]], 0.0) && !IsMaxOf([[0.0]], 5.0)
  {
  }
}
