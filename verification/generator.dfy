/** The point generator `generateVertices` shared by parallel-algorithm.cpp,
    array-merge.cpp and loop-interchange.cpp.

    The C++ code calls `rand()`; here the calls are answered, in order, by an
    explicit sequence of draws. A draw `d` with `d % 4 != 0` admits a point
    (the guard of the middle loop), and the draws after it are counted while
    `d % 10 != 0` (the inner loop): that count is the point's `y`, and the
    running counter `j` is its `x`. When the draws run out before the last
    point is written the result is `None`: `rand()` never runs out, but then
    the C++ loop would simply not have terminated yet. */
module Generator {
  import opened Wrappers
  import opened Plane

  /** One finished run of the generator: the points, for each point the index
      of the draw that admitted it, and how many draws were consumed. */
  datatype Generated = Generated(points: seq<Point>, starts: seq<nat>, used: nat)

  /** The remainder of `d` by `m`, by repeated subtraction. `rand()` is never
      negative, so C's `%` on it is this remainder (`RemFour`, `RemTen`); spelling it
      out keeps the solver from reasoning about `%` at every draw. */
  function Rem(d: nat, m: nat): nat
    requires m > 0
  {
    if d < m then d else Rem(d - m, m)
  }

  lemma {:induction false} RemFour(d: nat)
    ensures Rem(d, 4) == d % 4
  {
    if d >= 4 {
      RemFour(d - 4);
    }
  }

  lemma {:induction false} RemTen(d: nat)
    ensures Rem(d, 10) == d % 10
  {
    if d >= 10 {
      RemTen(d - 10);
    }
  }

  /** `rand() % 4` is non-zero: the middle loop runs once more. */
  predicate Admits(d: nat) {
    Rem(d, 4) != 0
  }

  /** `rand() % 10` is zero: the inner loop that counts `k` stops. */
  predicate Stops(d: nat) {
    Rem(d, 10) == 0
  }

  /** The index of the first draw at or after `p` that admits a point. */
  function FirstAdmitting(draws: seq<nat>, p: nat): (r: Option<nat>)
    requires p <= |draws|
    decreases |draws| - p
    ensures r.Some? ==> p <= r.value < |draws| && Admits(draws[r.value])
    ensures r.Some? ==> forall q {:trigger Admits(draws[q])} :: p <= q < r.value ==> !Admits(draws[q])
    ensures r.None? <==> forall q {:trigger Admits(draws[q])} :: p <= q < |draws| ==> !Admits(draws[q])
  {
    if p == |draws| then None
    else if Admits(draws[p]) then Some(p)
    else FirstAdmitting(draws, p + 1)
  }

  /** The index of the first draw at or after `p` that stops a run. */
  function FirstStopping(draws: seq<nat>, p: nat): (r: Option<nat>)
    requires p <= |draws|
    decreases |draws| - p
    ensures r.Some? ==> p <= r.value < |draws| && Stops(draws[r.value])
    ensures r.Some? ==> forall q {:trigger Stops(draws[q])} :: p <= q < r.value ==> !Stops(draws[q])
    ensures r.None? <==> forall q {:trigger Stops(draws[q])} :: p <= q < |draws| ==> !Stops(draws[q])
  {
    if p == |draws| then None
    else if Stops(draws[p]) then Some(p)
    else FirstStopping(draws, p + 1)
  }

  /** One more point after the run `g`: skip the draws that admit nothing,
      then count the draws up to the next stopping one. The old points and
      start indices are kept; the new point gets `x == n`, its start index
      is an admitting draw not before `g.used`, and the draws it consumes
      run past that index. */
  function Step(draws: seq<nat>, g: Generated, n: nat): (r: Option<Generated>)
    requires g.used <= |draws|
    ensures r.Some? ==> |r.value.points| == |g.points| + 1
    ensures r.Some? ==> |r.value.starts| == |g.starts| + 1
    ensures r.Some? ==> g.used < r.value.used <= |draws|
    ensures r.Some? ==> forall t :: 0 <= t < |g.points| ==> r.value.points[t] == g.points[t]
    ensures r.Some? ==> forall t :: 0 <= t < |g.starts| ==> r.value.starts[t] == g.starts[t]
    ensures r.Some? ==> r.value.points[|g.points|].x == n
    ensures r.Some? ==> var s := r.value.starts[|g.starts|];
      g.used <= s < r.value.used && Admits(draws[s])
  {
    match FirstAdmitting(draws, g.used)
    case None => None
    case Some(s) =>
      match FirstStopping(draws, s + 1)
      case None => None
      case Some(e) =>
        Some(Generated(g.points + [Point(n, e - s - 1)], g.starts + [s], e + 1))
  }

  /** The generator as a pure function of the draws, one point at a time:
      point `n` (counting from 1) skips the draws that do not admit a point,
      and its `y` is the length of the run of non-stopping draws that follows
      the admitting one. */
  function Generate(n: nat, draws: seq<nat>): (r: Option<Generated>)
    ensures r.Some? ==> |r.value.points| == n && |r.value.starts| == n
    ensures r.Some? ==> r.value.used <= |draws|
    ensures r.Some? ==> (r.value.used == 0 <==> n == 0)
  {
    if n == 0 then Some(Generated([], [], 0))
    else
      match Generate(n - 1, draws)
      case None => None
      case Some(g) => Step(draws, g, n)
  }

  /** Where the search for point `t` begins: 0 for the first point, else just
      past the draw that stopped the run of point `t - 1`. */
  function ResumeAt(g: Generated, t: nat): int
    requires t <= |g.points| && |g.starts| == |g.points|
  {
    if t == 0 then 0 else g.starts[t - 1] + g.points[t - 1].y + 2
  }

  /** Draw `s` admits a point and is followed by exactly `k` draws that do not
      stop the inner loop and then one that does. */
  ghost predicate RunAt(draws: seq<nat>, s: nat, k: int) {
    && 0 <= k
    && s + k + 1 < |draws|
    && Admits(draws[s])
    && (forall q {:trigger Stops(draws[q])} :: s < q <= s + k ==> !Stops(draws[q]))
    && Stops(draws[s + k + 1])
  }

  /** Every draw in `[a, b)` is wasted: it admits no point. */
  ghost predicate WastedBetween(draws: seq<nat>, a: int, b: int) {
    && 0 <= a <= b <= |draws|
    && forall q {:trigger Admits(draws[q])} :: a <= q < b ==> !Admits(draws[q])
  }

  /** Point `t` of `g` is its own run: its draw admits it and `y` counts
      the non-stopping draws after it. */
  ghost predicate RunOf(draws: seq<nat>, g: Generated, t: nat)
    requires t < |g.points| && |g.starts| == |g.points|
  {
    RunAt(draws, g.starts[t], g.points[t].y)
  }

  /** Only wasted draws lie between the end of point `t - 1` and point `t`. */
  ghost predicate GapBefore(draws: seq<nat>, g: Generated, t: nat)
    requires t < |g.points| && |g.starts| == |g.points|
  {
    WastedBetween(draws, ResumeAt(g, t), g.starts[t])
  }

  /** A declarative account of a run: point `t` is `(t + 1, k)` where `k` is
      the run length after its admitting draw, only wasted draws lie between
      consecutive points, and the run ends on the last point's stopping draw. */
  ghost predicate Explains(draws: seq<nat>, g: Generated) {
    && |g.starts| == |g.points|
    && (forall t :: 0 <= t < |g.points| ==> g.points[t].x == t + 1)
    && (forall t :: 0 <= t < |g.points| ==> RunOf(draws, g, t))
    && (forall t :: 0 <= t < |g.points| ==> GapBefore(draws, g, t))
    && g.used == ResumeAt(g, |g.points|)
  }

  lemma FirstAdmittingIs(draws: seq<nat>, p: nat, q: nat)
    requires p <= q < |draws| && Admits(draws[q])
    requires forall r {:trigger Admits(draws[r])} :: p <= r < q ==> !Admits(draws[r])
    ensures FirstAdmitting(draws, p) == Some(q)
  {
  }

  lemma FirstStoppingIs(draws: seq<nat>, p: nat, q: nat)
    requires p <= q < |draws| && Stops(draws[q])
    requires forall r {:trigger Stops(draws[r])} :: p <= r < q ==> !Stops(draws[r])
    ensures FirstStopping(draws, p) == Some(q)
  {
  }

  /** Appending one explained point to an explained run. */
  lemma ExplainsSnoc(draws: seq<nat>, g: Generated, s: nat, k: int)
    requires Explains(draws, g)
    requires WastedBetween(draws, g.used, s) && RunAt(draws, s, k)
    ensures Explains(draws, Generated(g.points + [Point(|g.points| + 1, k)], g.starts + [s], s + k + 2))
  {
    var n := |g.points| + 1;
    var h := Generated(g.points + [Point(n, k)], g.starts + [s], s + k + 2);
    assert h.points[..n - 1] == g.points && h.starts[..n - 1] == g.starts;
    forall t | 0 <= t < n
      ensures h.points[t].x == t + 1
    {
      if t < n - 1 {
        assert h.points[t] == g.points[t];
      }
    }
    forall t | 0 <= t < n
      ensures RunOf(draws, h, t)
    {
      if t < n - 1 {
        assert h.points[t] == g.points[t] && h.starts[t] == g.starts[t];
        assert RunOf(draws, g, t);
      }
    }
    forall t | 0 <= t < n
      ensures GapBefore(draws, h, t)
    {
      ResumeAtPrefix(h, g, t);
      if t < n - 1 {
        assert h.starts[t] == g.starts[t];
        assert GapBefore(draws, g, t);
      }
    }
    assert ResumeAt(h, n) == s + k + 2;
  }

  /** Resume points depend only on the points before them. */
  lemma ResumeAtPrefix(h: Generated, g: Generated, t: nat)
    requires |h.starts| == |h.points| && |g.starts| == |g.points|
    requires t <= |g.points| <= |h.points|
    requires g.points == h.points[..|g.points|] && g.starts == h.starts[..|g.points|]
    ensures ResumeAt(h, t) == ResumeAt(g, t)
  {
    if t > 0 {
      assert h.points[t - 1] == g.points[t - 1] && h.starts[t - 1] == g.starts[t - 1];
    }
  }

  /** Dropping the last point of an explained run leaves an explained run. */
  lemma ExplainsInit(draws: seq<nat>, g: Generated)
    requires Explains(draws, g) && |g.points| > 0
    ensures var n := |g.points|;
      && ResumeAt(g, n - 1) >= 0
      && Explains(draws, Generated(g.points[..n - 1], g.starts[..n - 1], ResumeAt(g, n - 1)))
  {
    var n := |g.points|;
    if n > 1 {
      assert RunOf(draws, g, n - 2);
    }
    var h := Generated(g.points[..n - 1], g.starts[..n - 1], ResumeAt(g, n - 1));
    forall t | 0 <= t < n - 1
      ensures h.points[t].x == t + 1
    {
      assert h.points[t] == g.points[t];
    }
    forall t | 0 <= t < n - 1
      ensures RunOf(draws, h, t)
    {
      assert h.points[t] == g.points[t] && h.starts[t] == g.starts[t];
      assert RunOf(draws, g, t);
    }
    forall t | 0 <= t < n - 1
      ensures GapBefore(draws, h, t)
    {
      ResumeAtPrefix(g, h, t);
      assert GapBefore(draws, g, t);
    }
    ResumeAtPrefix(g, h, n - 1);
  }

  /** What a successful `Step` appends, spelled out. */
  lemma StepParts(draws: seq<nat>, g: Generated, n: nat)
    requires g.used <= |draws| && Step(draws, g, n).Some?
    ensures var s := FirstAdmitting(draws, g.used).value;
      var e := FirstStopping(draws, s + 1).value;
      && WastedBetween(draws, g.used, s)
      && RunAt(draws, s, e - s - 1)
      && Step(draws, g, n) == Some(Generated(g.points + [Point(n, e - s - 1)], g.starts + [s], e + 1))
  {
  }

  /** A step keeps a run explained. */
  lemma StepExplains(draws: seq<nat>, g: Generated, n: nat)
    requires g.used <= |draws| && Explains(draws, g) && n == |g.points| + 1
    requires Step(draws, g, n).Some?
    ensures Explains(draws, Step(draws, g, n).value)
  {
    StepParts(draws, g, n);
    var s := FirstAdmitting(draws, g.used).value;
    var e := FirstStopping(draws, s + 1).value;
    ExplainsSnoc(draws, g, s, e - s - 1);
  }

  /** One unfolding of `Generate`. */
  lemma GenerateUnfold(n: nat, draws: seq<nat>)
    requires n > 0
    ensures Generate(n - 1, draws).None? ==> Generate(n, draws).None?
    ensures Generate(n - 1, draws).Some? ==>
      Generate(n - 1, draws).value.used <= |draws| &&
      Generate(n, draws) == Step(draws, Generate(n - 1, draws).value, n)
  {
  }

  /** Every run the generator finishes is explained by the draws. */
  lemma {:induction false} GenerateSound(n: nat, draws: seq<nat>)
    ensures Generate(n, draws).Some? ==> Explains(draws, Generate(n, draws).value)
  {
    if n > 0 && Generate(n, draws).Some? {
      GenerateUnfold(n, draws);
      var g' := Generate(n - 1, draws).value;
      GenerateSound(n - 1, draws);
      StepExplains(draws, g', n);
    }
  }

  /** Conversely, any explained run is the one the generator produces. */
  lemma {:induction false} GenerateComplete(draws: seq<nat>, g: Generated)
    requires Explains(draws, g)
    ensures Generate(|g.points|, draws) == Some(g)
    decreases |g.points|
  {
    var n := |g.points|;
    if n == 0 {
      assert g == Generated([], [], 0);
    } else {
      ExplainsInit(draws, g);
      var g' := Generated(g.points[..n - 1], g.starts[..n - 1], ResumeAt(g, n - 1));
      GenerateComplete(draws, g');
      ExplainedLastStep(draws, g, g');
      GenerateFromPrevious(draws, g', g);
    }
  }

  lemma GenerateFromPrevious(draws: seq<nat>, g': Generated, g: Generated)
    requires Generate(|g'.points|, draws) == Some(g') && |g.points| == |g'.points| + 1
    requires g'.used <= |draws| && Step(draws, g', |g.points|) == Some(g)
    ensures Generate(|g.points|, draws) == Some(g)
  {
    GenerateNext(|g'.points|, draws, g');
  }

  /** The last point of an explained run is one `Step` after the others. */
  lemma ExplainedLastStep(draws: seq<nat>, g: Generated, g': Generated)
    requires Explains(draws, g) && |g.points| > 0
    requires g'.points == g.points[..|g.points| - 1] && g'.starts == g.starts[..|g.points| - 1]
    requires g'.used == ResumeAt(g, |g.points| - 1)
    ensures g'.used <= |draws| && Step(draws, g', |g.points|) == Some(g)
  {
    var n := |g.points|;
    var s := g.starts[n - 1];
    var k := g.points[n - 1].y;
    LastRun(draws, g);
    SplitLast(g, g', Point(n, k), s);
    RunStep(draws, g', n, s, k);
  }

  /** The last run of an explained run: its admitting draw, the draws
      wasted before it, and the count of draws it leaves used. */
  lemma LastRun(draws: seq<nat>, g: Generated)
    requires Explains(draws, g) && |g.points| > 0
    ensures var n := |g.points|;
      && g.points[n - 1] == Point(n, g.points[n - 1].y)
      && RunAt(draws, g.starts[n - 1], g.points[n - 1].y)
      && WastedBetween(draws, ResumeAt(g, n - 1), g.starts[n - 1])
      && g.used == g.starts[n - 1] + g.points[n - 1].y + 2
  {
    var n := |g.points|;
    assert RunOf(draws, g, n - 1) && GapBefore(draws, g, n - 1);
  }

  /** A run is its prefix with the last point and start appended. */
  lemma SplitLast(g: Generated, g': Generated, p: Point, s: nat)
    requires |g.points| > 0 && |g.starts| == |g.points|
    requires g'.points == g.points[..|g.points| - 1] && g'.starts == g.starts[..|g.points| - 1]
    requires g.points[|g.points| - 1] == p && g.starts[|g.points| - 1] == s
    ensures g == Generated(g'.points + [p], g'.starts + [s], g.used)
  {
    assert g'.points + [p] == g.points;
    assert g'.starts + [s] == g.starts;
  }

  /** The step after `g` produces the run found at `s` with `k` counted draws. */
  lemma RunStep(draws: seq<nat>, g: Generated, n: nat, s: nat, k: int)
    requires WastedBetween(draws, g.used, s) && RunAt(draws, s, k)
    ensures g.used <= |draws|
    ensures Step(draws, g, n) == Some(Generated(g.points + [Point(n, k)], g.starts + [s], s + k + 2))
  {
    FirstAdmittingIs(draws, g.used, s);
    FirstStoppingIs(draws, s + 1, s + k + 1);
    StepFound(draws, g, n, s, s + k + 1);
  }

  /** The generator's output is exactly what the draws explain. */
  lemma GenerateCharacterised(n: nat, draws: seq<nat>, g: Generated)
    ensures Generate(n, draws) == Some(g) <==> |g.points| == n && Explains(draws, g)
  {
    if Generate(n, draws) == Some(g) {
      GenerateSound(n, draws);
    }
    if |g.points| == n && Explains(draws, g) {
      GenerateComplete(draws, g);
    }
  }

  /** Once a point cannot be produced, no larger count can be produced. */
  lemma {:induction false} NoneUpward(m: nat, n: nat, draws: seq<nat>)
    requires m <= n && Generate(m, draws).None?
    ensures Generate(n, draws).None?
    decreases n - m
  {
    if m < n {
      NoneNext(m, draws);
      NoneUpward(m + 1, n, draws);
    }
  }

  lemma NoneNext(i: nat, draws: seq<nat>)
    requires Generate(i, draws).None?
    ensures Generate(i + 1, draws).None?
  {
  }

  /** Point `x` coordinates are distinct, so two generated points never
      coincide. */
  lemma GeneratedDistinct(n: nat, draws: seq<nat>)
    ensures Generate(n, draws).Some? ==>
      forall a, b :: 0 <= a < b < n ==>
        Generate(n, draws).value.points[a] != Generate(n, draws).value.points[b]
  {
    GenerateSound(n, draws);
  }

  /** The run with every draw index moved one place later. */
  function ShiftedRun(g: Generated): Generated {
    Generated(g.points, seq(|g.starts|, t requires 0 <= t < |g.starts| => g.starts[t] + 1), g.used + 1)
  }

  function Shifted(r: Option<Generated>): Option<Generated> {
    match r
    case None => None
    case Some(g) => Some(ShiftedRun(g))
  }

  lemma FirstAdmittingShift(d: nat, rest: seq<nat>, p: nat)
    requires p <= |rest|
    ensures FirstAdmitting(rest, p).None? ==> FirstAdmitting([d] + rest, p + 1).None?
    ensures FirstAdmitting(rest, p).Some? ==>
      FirstAdmitting([d] + rest, p + 1) == Some(FirstAdmitting(rest, p).value + 1)
  {
    var draws := [d] + rest;
    match FirstAdmitting(rest, p)
    case None =>
      assert forall q :: p + 1 <= q < |draws| ==> draws[q] == rest[q - 1];
    case Some(q) =>
      assert forall r :: p + 1 <= r <= q + 1 ==> draws[r] == rest[r - 1];
      FirstAdmittingIs(draws, p + 1, q + 1);
  }

  lemma FirstStoppingShift(d: nat, rest: seq<nat>, p: nat)
    requires p <= |rest|
    ensures FirstStopping(rest, p).None? ==> FirstStopping([d] + rest, p + 1).None?
    ensures FirstStopping(rest, p).Some? ==>
      FirstStopping([d] + rest, p + 1) == Some(FirstStopping(rest, p).value + 1)
  {
    var draws := [d] + rest;
    match FirstStopping(rest, p)
    case None =>
      assert forall q :: p + 1 <= q < |draws| ==> draws[q] == rest[q - 1];
    case Some(q) =>
      assert forall r :: p + 1 <= r <= q + 1 ==> draws[r] == rest[r - 1];
      FirstStoppingIs(draws, p + 1, q + 1);
  }

  /** A step after a shifted run is the shifted step. */
  lemma StepShift(d: nat, rest: seq<nat>, g: Generated, n: nat)
    requires g.used <= |rest|
    ensures Step([d] + rest, ShiftedRun(g), n) == Shifted(Step(rest, g, n))
  {
    FirstAdmittingShift(d, rest, g.used);
    if FirstAdmitting(rest, g.used).Some? {
      var s := FirstAdmitting(rest, g.used).value;
      FirstStoppingShift(d, rest, s + 1);
      if FirstStopping(rest, s + 1).Some? {
        StepShiftFound(d, rest, g, n, s, FirstStopping(rest, s + 1).value);
      } else {
        StepShiftNoStop(d, rest, g, n, s);
      }
    } else {
      StepShiftNoAdmit(d, rest, g, n);
    }
  }

  lemma StepShiftNoAdmit(d: nat, rest: seq<nat>, g: Generated, n: nat)
    requires g.used <= |rest|
    requires FirstAdmitting(rest, g.used).None? && FirstAdmitting([d] + rest, g.used + 1).None?
    ensures Step([d] + rest, ShiftedRun(g), n) == Shifted(Step(rest, g, n))
  {
    assert ShiftedRun(g).used == g.used + 1;
  }

  lemma StepShiftNoStop(d: nat, rest: seq<nat>, g: Generated, n: nat, s: nat)
    requires g.used <= |rest|
    requires FirstAdmitting(rest, g.used) == Some(s) && FirstStopping(rest, s + 1).None?
    requires FirstAdmitting([d] + rest, g.used + 1) == Some(s + 1)
    requires FirstStopping([d] + rest, s + 1 + 1).None?
    ensures Step([d] + rest, ShiftedRun(g), n) == Shifted(Step(rest, g, n))
  {
    assert ShiftedRun(g).used == g.used + 1;
  }

  lemma StepShiftFound(d: nat, rest: seq<nat>, g: Generated, n: nat, s: nat, e: nat)
    requires g.used <= |rest|
    requires FirstAdmitting(rest, g.used) == Some(s) && FirstStopping(rest, s + 1) == Some(e)
    requires FirstAdmitting([d] + rest, g.used + 1) == Some(s + 1)
    requires FirstStopping([d] + rest, s + 1 + 1) == Some(e + 1)
    ensures Step([d] + rest, ShiftedRun(g), n) == Shifted(Step(rest, g, n))
  {
    var p := Point(n, e - s - 1);
    var h := ShiftedRun(g);
    ShiftedSnoc(g, p, s, e + 1);
    StepFound(rest, g, n, s, e);
    StepFound([d] + rest, h, n, s + 1, e + 1);
  }

  /** The run a successful `Step` appends, given where its draws are. */
  lemma StepFound(draws: seq<nat>, g: Generated, n: nat, s: nat, e: nat)
    requires g.used <= |draws|
    requires FirstAdmitting(draws, g.used) == Some(s) && FirstStopping(draws, s + 1) == Some(e)
    ensures Step(draws, g, n) == Some(Generated(g.points + [Point(n, e - s - 1)], g.starts + [s], e + 1))
  {
  }

  lemma ShiftedSnoc(g: Generated, p: Point, s: nat, used: nat)
    ensures ShiftedRun(Generated(g.points + [p], g.starts + [s], used)) ==
      Generated(ShiftedRun(g).points + [p], ShiftedRun(g).starts + [s + 1], used + 1)
  {
    assert ShiftedRun(g).starts + [s + 1] == ShiftedRun(Generated(g.points + [p], g.starts + [s], used)).starts;
  }

  /** A leading draw with `d % 4 == 0` is consumed without producing anything:
      the same points come out, every later draw index moves by one. */
  lemma {:induction false} WastedDrawIgnored(n: nat, d: nat, rest: seq<nat>)
    requires n >= 1 && !Admits(d)
    ensures Generate(n, [d] + rest) == Shifted(Generate(n, rest))
  {
    var draws := [d] + rest;
    if n == 1 {
      var g0 := Generated([], [], 0);
      assert FirstAdmitting(draws, 0) == FirstAdmitting(draws, 1);
      assert Step(draws, g0, 1) == Step(draws, ShiftedRun(g0), 1);
      StepShift(d, rest, g0, 1);
    } else {
      WastedDrawIgnored(n - 1, d, rest);
      GenerateUnfold(n, rest);
      GenerateUnfold(n, draws);
      if Generate(n - 1, rest).Some? {
        StepShift(d, rest, Generate(n - 1, rest).value, n);
      }
    }
  }

  /** Draw `q` is the same in both sequences. */
  ghost predicate SameDraw(draws: seq<nat>, other: seq<nat>, q: int) {
    0 <= q < |draws| && q < |other| && other[q] == draws[q]
  }

  /** The two sequences agree on their first `m` draws. */
  ghost predicate AgreeBelow(draws: seq<nat>, other: seq<nat>, m: nat) {
    && m <= |draws| && m <= |other|
    && forall q :: 0 <= q < m ==> SameDraw(draws, other, q)
  }

  /** A step reads no draw past the one that ends it. */
  lemma StepAgrees(draws: seq<nat>, other: seq<nat>, g: Generated, n: nat)
    requires g.used <= |draws| && Step(draws, g, n).Some?
    requires AgreeBelow(draws, other, Step(draws, g, n).value.used)
    ensures Step(other, g, n) == Step(draws, g, n)
  {
    var s := FirstAdmitting(draws, g.used).value;
    var e := FirstStopping(draws, s + 1).value;
    StepFound(draws, g, n, s, e);
    forall q | g.used <= q <= e
      ensures other[q] == draws[q]
    {
      assert SameDraw(draws, other, q);
    }
    FirstAdmittingIs(other, g.used, s);
    FirstStoppingIs(other, s + 1, e);
    StepFound(other, g, n, s, e);
  }

  /** The generator reads nothing past the draws it consumes: any draw
      sequence that agrees on them gives the same run. */
  lemma {:induction false} PrefixSuffices(n: nat, draws: seq<nat>, other: seq<nat>)
    requires Generate(n, draws).Some?
    requires AgreeBelow(draws, other, Generate(n, draws).value.used)
    ensures Generate(n, other) == Generate(n, draws)
  {
    PrefixAgrees(n, draws, other);
  }

  /** The first `n` points come out, and `other` agrees with `draws` on
      every draw they consume. */
  ghost predicate AgreeOnRun(n: nat, draws: seq<nat>, other: seq<nat>) {
    Generate(n, draws).Some? && AgreeBelow(draws, other, Generate(n, draws).value.used)
  }

  lemma {:induction false} PrefixAgrees(n: nat, draws: seq<nat>, other: seq<nat>)
    requires AgreeOnRun(n, draws, other)
    ensures Generate(n, other) == Generate(n, draws)
  {
    if n > 0 {
      PrefixDown(n, draws, other);
      PrefixAgrees(n - 1, draws, other);
      PrefixUp(n, draws, other);
    }
  }

  lemma PrefixDown(n: nat, draws: seq<nat>, other: seq<nat>)
    requires n > 0 && AgreeOnRun(n, draws, other)
    ensures AgreeOnRun(n - 1, draws, other)
  {
    GenerateUnfold(n, draws);
  }

  lemma PrefixUp(n: nat, draws: seq<nat>, other: seq<nat>)
    requires n > 0 && AgreeOnRun(n, draws, other)
    requires Generate(n - 1, other) == Generate(n - 1, draws)
    ensures Generate(n, other) == Generate(n, draws)
  {
    GenerateUnfold(n, draws);
    GenerateUnfold(n, other);
    StepAgrees(draws, other, Generate(n - 1, draws).value, n);
  }

  /** Generation stops right after the last point is written: every consumed
      draw is needed, and no draw after them is read. */
  lemma {:induction false} StopsAfterLastPoint(n: nat, draws: seq<nat>)
    requires n >= 1 && Generate(n, draws).Some?
    ensures var used := Generate(n, draws).value.used;
      Generate(n, draws[..used - 1]).None? &&
      forall more :: Generate(n, draws[..used] + more) == Generate(n, draws)
  {
    var g := Generate(n, draws).value;
    forall more
      ensures Generate(n, draws[..g.used] + more) == Generate(n, draws)
    {
      var other := draws[..g.used] + more;
      forall q | 0 <= q < g.used
        ensures SameDraw(draws, other, q)
      {
      }
      PrefixSuffices(n, draws, other);
    }
    var short := draws[..g.used - 1];
    if Generate(n, short).Some? {
      var u := Generate(n, short).value.used;
      forall q | 0 <= q < u
        ensures SameDraw(short, draws, q)
      {
      }
      PrefixSuffices(n, short, draws);
    }
  }

  lemma GenerateNext(i: nat, draws: seq<nat>, g: Generated)
    requires Generate(i, draws) == Some(g)
    ensures g.used <= |draws| && Generate(i + 1, draws) == Step(draws, g, i + 1)
  {
  }

  /** The draws run out before point `|g.points| + 1` is admitted. */
  lemma NoPointLeft(n: nat, draws: seq<nat>, g: Generated)
    requires |g.points| < n && Explains(draws, g)
    requires WastedBetween(draws, g.used, |draws|)
    ensures Generate(n, draws).None?
  {
    assert FirstAdmitting(draws, g.used).None?;
    GenerateComplete(draws, g);
    StuckAfter(|g.points|, n, draws, g);
  }

  /** Once a step fails, no later point is produced. */
  lemma StuckAfter(i: nat, n: nat, draws: seq<nat>, g: Generated)
    requires i < n && Generate(i, draws) == Some(g)
    requires g.used <= |draws| && Step(draws, g, i + 1).None?
    ensures Generate(n, draws).None?
  {
    GenerateNext(i, draws, g);
    NoneUpward(i + 1, n, draws);
  }

  /** The draws run out before the run of point `|g.points| + 1` stops. */
  lemma RunNeverStops(n: nat, draws: seq<nat>, g: Generated, s: nat)
    requires |g.points| < n && Explains(draws, g)
    requires WastedBetween(draws, g.used, s) && s < |draws| && Admits(draws[s])
    requires FirstStopping(draws, s + 1).None?
    ensures Generate(n, draws).None?
  {
    FirstAdmittingIs(draws, g.used, s);
    GenerateComplete(draws, g);
    StuckAfter(|g.points|, n, draws, g);
  }

  /** A finished run extends an explained one. */
  lemma PointWritten(draws: seq<nat>, g: Generated, s: nat, e: nat)
    requires Explains(draws, g)
    requires WastedBetween(draws, g.used, s) && s < |draws| && Admits(draws[s])
    requires FirstStopping(draws, s + 1) == Some(e)
    ensures Explains(draws, Generated(g.points + [Point(|g.points| + 1, e - s - 1)], g.starts + [s], e + 1))
  {
    ExplainsSnoc(draws, g, s, e - s - 1);
  }

  /** The innermost loop of `generateVertices`: count the draws from `from`
      on until one stops the run; `next` is the index after the stopping draw. */
  method CountRun(draws: seq<nat>, from: nat) returns (k: nat, next: nat, stopped: bool)
    requires from <= |draws|
    ensures stopped <==> FirstStopping(draws, from).Some?
    ensures stopped ==> next == FirstStopping(draws, from).value + 1 && k == next - from - 1
  {
    k, next := 0, from;
    if next == |draws| {
      return k, next, false;
    }
    var e := draws[next];
    next := next + 1;
    while !Stops(e)
      invariant from < next <= |draws| && e == draws[next - 1]
      invariant k == next - from - 1
      invariant forall q {:trigger Stops(draws[q])} :: from <= q < next - 1 ==> !Stops(draws[q])
      decreases |draws| - next
    {
      k := k + 1;
      if next == |draws| {
        return k, next, false;
      }
      e := draws[next];
      next := next + 1;
    }
    FirstStoppingIs(draws, from, next - 1);
    stopped := true;
  }

  /** Coordinates of an explained run: `x` counts points from 1 and `y` is
      never negative. */
  lemma ExplainedCoordinates(draws: seq<nat>, g: Generated)
    requires Explains(draws, g)
    ensures forall t :: 0 <= t < |g.points| ==> g.points[t].x == t + 1 && g.points[t].y >= 0
  {
    forall t | 0 <= t < |g.points|
      ensures g.points[t].y >= 0
    {
      assert RunOf(draws, g, t);
    }
  }

  /** `generateVertices` as written: the nested loops, the running counter
      `j`, the counter `k` reset for every point, and the `break` as soon as
      the last point is written. */
  method GenerateVertices(n: nat, draws: seq<nat>) returns (r: Option<Generated>)
    ensures r == Generate(n, draws)
    ensures r.Some? ==> forall t :: 0 <= t < n ==> r.value.points[t].x == t + 1 && r.value.points[t].y >= 0
  {
    var run := Generated([], [], 0);
    var i, j := 0, 0;
    var next := 0;
    while i < n
      invariant i <= n && j == i && |run.points| == i
      invariant Explains(draws, run) && WastedBetween(draws, run.used, next)
      decreases |draws| - next
    {
      if next == |draws| {
        NoPointLeft(n, draws, run);
        return None;
      }
      ghost var entry := next;
      var d := draws[next];
      next := next + 1;
      while Admits(d)
        invariant i < n && j == i && |run.points| == i
        invariant entry < next <= |draws| && d == draws[next - 1]
        invariant Explains(draws, run) && WastedBetween(draws, run.used, next - 1)
        decreases |draws| - next
      {
        var s := next - 1;
        j := j + 1;
        var k, stopped;
        k, next, stopped := CountRun(draws, s + 1);
        if !stopped {
          RunNeverStops(n, draws, run, s);
          return None;
        }
        PointWritten(draws, run, s, next - 1);
        run := Generated(run.points + [Point(j, k)], run.starts + [s], next);
        i := i + 1;
        if i >= n {
          break;
        }
        if next == |draws| {
          NoPointLeft(n, draws, run);
          return None;
        }
        d := draws[next];
        next := next + 1;
      }
    }
    GenerateComplete(draws, run);
    ExplainedCoordinates(draws, run);
    r := Some(run);
  }

  /** The parallel-array layout of loop-interchange.cpp: `x` and `y` each hold
      `n` entries, `x[i] == i + 1` and `y[i] >= 0`. */
  function GenerateCoordinates(n: nat, draws: seq<nat>): (r: Option<(seq<int>, seq<int>)>)
    ensures r.Some? <==> Generate(n, draws).Some?
    ensures r.Some? ==> |r.value.0| == n && |r.value.1| == n
    ensures r.Some? ==> forall i :: 0 <= i < n ==> r.value.0[i] == i + 1 && r.value.1[i] >= 0
    ensures r.Some? ==> forall i :: 0 <= i < n ==>
      Generate(n, draws).value.points[i] == Point(r.value.0[i], r.value.1[i])
  {
    GenerateSound(n, draws);
    match Generate(n, draws)
    case None => None
    case Some(g) =>
      ExplainedCoordinates(draws, g);
      Some((seq(n, i requires 0 <= i < n => g.points[i].x), seq(n, i requires 0 <= i < n => g.points[i].y)))
  }
}
