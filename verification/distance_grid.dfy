/** Facts about a matrix that holds the pairwise distances of a point set,
    shared by the kernels of the four copies. */
module DistanceGrid {
  import opened Wrappers
  import opened Plane
  import opened Generator
  import opened Distance
  import opened Matrix

  /** Cell `[r][c]` is the distance between points `r` and `c`. */
  ghost predicate IsDistanceGrid(m: Grid, root: nat -> real, pts: seq<Point>) {
    IsSquare(m, |pts|) && forall r, c :: 0 <= r < |pts| && 0 <= c < |pts| ==> m[r][c] == Dist(root, pts[r], pts[c])
  }

  /** A distance matrix is non-negative and symmetric, its diagonal is zero,
      and a cell is zero exactly when its two points coincide. */
  lemma DistanceGridShape(m: Grid, root: nat -> real, pts: seq<Point>)
    requires IsRoot(root) && IsDistanceGrid(m, root, pts)
    ensures NonNegative(m)
    ensures forall r, c :: 0 <= r < |pts| && 0 <= c < |pts| ==> m[r][c] == m[c][r]
    ensures forall r :: 0 <= r < |pts| ==> m[r][r] == 0.0
    ensures forall r, c :: 0 <= r < |pts| && 0 <= c < |pts| ==> (m[r][c] == 0.0 <==> pts[r] == pts[c])
  {
    forall r, c | 0 <= r < |m| && 0 <= c < |m[r]|
      ensures m[r][c] >= 0.0
    {
      DistProperties(root, pts[r], pts[c]);
    }
    forall r, c | 0 <= r < |pts| && 0 <= c < |pts|
      ensures m[r][c] == m[c][r]
    {
      DistProperties(root, pts[r], pts[c]);
    }
    forall r, c | 0 <= r < |pts| && 0 <= c < |pts|
      ensures m[r][c] == 0.0 <==> pts[r] == pts[c]
    {
      DistProperties(root, pts[r], pts[c]);
    }
    forall r | 0 <= r < |pts|
      ensures m[r][r] == 0.0
    {
      DistProperties(root, pts[r], pts[r]);
    }
  }

  /** The longest distance is zero exactly when all points coincide, which
      is when the normalisation would divide by zero. */
  lemma MaxZeroIffCoincide(m: Grid, root: nat -> real, pts: seq<Point>, maxD: real)
    requires IsRoot(root) && IsDistanceGrid(m, root, pts) && IsMaxOf(m, maxD)
    ensures maxD == 0.0 <==> forall r, c :: 0 <= r < |pts| && 0 <= c < |pts| ==> pts[r] == pts[c]
  {
    DistanceGridShape(m, root, pts);
    if maxD == 0.0 {
      forall r, c | 0 <= r < |pts| && 0 <= c < |pts|
        ensures pts[r] == pts[c]
      {
        assert m[r][c] <= maxD;
      }
    } else {
      var r, c :| 0 <= r < |m| && 0 <= c < |m[r]| && m[r][c] == maxD;
      assert pts[r] != pts[c];
    }
  }

  /** For generated points the longest distance is positive exactly when
      there are at least two points: their `x` coordinates `1, 2, ...` are
      distinct, so only a single point leaves `maxD` at 0. */
  lemma GeneratedMaxPositive(root: nat -> real, n: nat, draws: seq<nat>, m: Grid, maxD: real)
    requires IsRoot(root) && Generate(n, draws).Some?
    requires IsDistanceGrid(m, root, Generate(n, draws).value.points) && IsMaxOf(m, maxD)
    ensures maxD > 0.0 <==> n >= 2
  {
    var pts := Generate(n, draws).value.points;
    GeneratedDistinct(n, draws);
    MaxZeroIffCoincide(m, root, pts, maxD);
    if n >= 2 {
      assert pts[0] != pts[1];
    }
  }

  /** `r` is `m` with every cell divided by `maxD`. */
  ghost predicate IsScaled(m: Grid, n: nat, maxD: real, r: Grid)
    requires maxD != 0.0
  {
    IsSquare(m, n) && IsSquare(r, n) && forall a, b :: 0 <= a < n && 0 <= b < n ==> r[a][b] == m[a][b] / maxD
  }

  /** What every copy promises of its normalised matrix: the division by a
      zero maximum is not modelled (`None`); otherwise each cell is the
      distance divided by the maximum, lies in [0, 1], and is 1 exactly where
      the distance is the maximum. */
  ghost predicate NormalisedFrom(m: Grid, n: nat, maxD: real, normalised: Option<Grid>) {
    && IsSquare(m, n)
    && (normalised.Some? <==> maxD != 0.0)
    && (normalised.Some? ==>
         && IsScaled(m, n, maxD, normalised.value)
         && (forall a, b :: 0 <= a < n && 0 <= b < n ==> 0.0 <= normalised.value[a][b] <= 1.0)
         && (forall a, b :: 0 <= a < n && 0 <= b < n ==> (normalised.value[a][b] == 1.0 <==> m[a][b] == maxD)))
  }

  /** The normalisation outcome of a distance matrix: dividing by a
      positive maximum meets every promise of `NormalisedFrom`. */
  lemma ScaledIsNormalised(m: Grid, root: nat -> real, pts: seq<Point>, maxD: real, r: Grid)
    requires IsRoot(root) && IsDistanceGrid(m, root, pts) && IsMaxOf(m, maxD) && maxD != 0.0
    requires IsScaled(m, |pts|, maxD, r)
    ensures NormalisedFrom(m, |pts|, maxD, Some(r))
  {
    DistanceGridShape(m, root, pts);
    NormalisedRange(m, |pts|, maxD, r);
  }

  /** Normalising is idempotent: a normalised matrix has maximum 1, so
      normalising it again leaves every cell unchanged. */
  lemma NormaliseIdempotent(m: Grid, n: nat, maxD: real, r: Grid)
    requires NonNegative(m) && IsMaxOf(m, maxD) && maxD > 0.0
    requires NormalisedFrom(m, n, maxD, Some(r))
    ensures IsMaxOf(r, 1.0)
    ensures NormalisedFrom(r, n, 1.0, Some(r))
  {
    NormalisedRange(m, n, maxD, r);
  }
}
