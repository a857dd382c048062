/** The `nVertices x nVertices` distance matrix and the three passes every
    copy of the benchmark makes over it: the fill, the scan for the longest
    distance, and the normalisation. The matrix is a sequence of rows,
    `m[r][c]` being `matrix[r][c]`; each pass comes in the two access
    orders the copies use: "column order" (`matrix[j][i]` with `i` in the
    outer loop) and "row order" (`matrix[i][j]`). */
module Matrix {
  import opened Plane

  type Grid = seq<seq<real>>

  /** `n` rows of `n` entries each. */
  ghost predicate IsSquare<T>(m: seq<seq<T>>, n: nat) {
    |m| == n && forall r :: 0 <= r < n ==> |m[r]| == n
  }

  /** A square grid of `n x n` zeros: the write and division counters. */
  function Zeros(n: nat): (z: seq<seq<nat>>)
    ensures IsSquare(z, n)
    ensures forall r, c :: 0 <= r < n && 0 <= c < n ==> z[r][c] == 0
  {
    seq(n, _ => seq(n, _ => 0))
  }

  /** Every entry of the grid is exactly one: each cell was touched once. */
  ghost predicate AllOnes(z: seq<seq<nat>>, n: nat) {
    IsSquare(z, n) && forall r, c :: 0 <= r < n && 0 <= c < n ==> z[r][c] == 1
  }

  /** Cell `[r][c]` holds the distance expression `f` of points `r` and `c`. */
  ghost predicate Holds(m: Grid, pts: seq<Point>, f: (Point, Point) -> real) {
    IsSquare(m, |pts|) && forall r, c :: 0 <= r < |pts| && 0 <= c < |pts| ==> m[r][c] == f(pts[r], pts[c])
  }

  ghost predicate Symmetric(f: (Point, Point) -> real) {
    forall p, q :: f(p, q) == f(q, p)
  }

  ghost predicate NonNegative(m: Grid) {
    forall r, c :: 0 <= r < |m| && 0 <= c < |m[r]| ==> m[r][c] >= 0.0
  }

  /** `v` is the value the scan `maxD = 0; if (cell > maxD) maxD = cell;`
      produces: at least 0 and every cell, and either 0 or one of the cells. */
  ghost predicate IsMaxOf(m: Grid, v: real) {
    && v >= 0.0
    && (forall r, c :: 0 <= r < |m| && 0 <= c < |m[r]| ==> m[r][c] <= v)
    && (v == 0.0 || exists r, c :: 0 <= r < |m| && 0 <= c < |m[r]| && m[r][c] == v)
  }

  /** The maximum is determined by the grid: any two scans, in whatever
      order, agree. */
  lemma MaxUnique(m: Grid, v: real, w: real)
    requires IsMaxOf(m, v) && IsMaxOf(m, w)
    ensures v == w
  {
  }

  /** The fill with the inefficient access of naive-algorithm.cpp,
      array-merge.cpp and loop-interchange.cpp: `i` runs over the outer loop,
      `j` over the inner one, and the cell written is `matrix[j][i]`.
      `init` is whatever the freshly allocated matrix holds; `writes` counts
      the writes into each cell. */
  method FillColumnOrder(pts: seq<Point>, f: (Point, Point) -> real, init: Grid)
    returns (m: Grid, writes: seq<seq<nat>>)
    requires IsSquare(init, |pts|)
    ensures IsSquare(m, |pts|)
    ensures forall i, j :: 0 <= i < |pts| && 0 <= j < |pts| ==> m[j][i] == f(pts[i], pts[j])
    ensures AllOnes(writes, |pts|)
  {
    var n := |pts|;
    m, writes := init, Zeros(n);
    for i := 0 to n
      invariant IsSquare(m, n) && IsSquare(writes, n)
      invariant forall a, b :: 0 <= a < i && 0 <= b < n ==> m[b][a] == f(pts[a], pts[b])
      invariant forall a, b :: 0 <= a < i && 0 <= b < n ==> writes[b][a] == 1
      invariant forall a, b :: i <= a < n && 0 <= b < n ==> writes[b][a] == 0
    {
      for j := 0 to n
        invariant IsSquare(m, n) && IsSquare(writes, n)
        invariant forall a, b :: 0 <= a < i && 0 <= b < n ==> m[b][a] == f(pts[a], pts[b])
        invariant forall a, b :: 0 <= a < i && 0 <= b < n ==> writes[b][a] == 1
        invariant forall b :: 0 <= b < j ==> m[b][i] == f(pts[i], pts[b])
        invariant forall b :: 0 <= b < j ==> writes[b][i] == 1
        invariant forall b :: j <= b < n ==> writes[b][i] == 0
        invariant forall a, b :: i < a < n && 0 <= b < n ==> writes[b][a] == 0
      {
        m := m[j := m[j][i := f(pts[i], pts[j])]];
        writes := writes[j := writes[j][i := writes[j][i] + 1]];
      }
    }
  }

  /** The fill with the loop interchange applied: the cell written is
      `matrix[i][j]`. */
  method FillRowOrder(pts: seq<Point>, f: (Point, Point) -> real, init: Grid)
    returns (m: Grid, writes: seq<seq<nat>>)
    requires IsSquare(init, |pts|)
    ensures Holds(m, pts, f)
    ensures AllOnes(writes, |pts|)
  {
    var n := |pts|;
    m, writes := init, Zeros(n);
    for i := 0 to n
      invariant IsSquare(m, n) && IsSquare(writes, n)
      invariant forall a, b :: 0 <= a < i && 0 <= b < n ==> m[a][b] == f(pts[a], pts[b])
      invariant forall a, b :: 0 <= a < i && 0 <= b < n ==> writes[a][b] == 1
      invariant forall a, b :: i <= a < n && 0 <= b < n ==> writes[a][b] == 0
    {
      for j := 0 to n
        invariant IsSquare(m, n) && IsSquare(writes, n)
        invariant forall a, b :: 0 <= a < i && 0 <= b < n ==> m[a][b] == f(pts[a], pts[b])
        invariant forall a, b :: 0 <= a < i && 0 <= b < n ==> writes[a][b] == 1
        invariant forall b :: 0 <= b < j ==> m[i][b] == f(pts[i], pts[b])
        invariant forall b :: 0 <= b < j ==> writes[i][b] == 1
        invariant forall b :: j <= b < n ==> writes[i][b] == 0
        invariant forall a, b :: i < a < n && 0 <= b < n ==> writes[a][b] == 0
      {
        m := m[i := m[i][j := f(pts[i], pts[j])]];
        writes := writes[i := writes[i][j := writes[i][j] + 1]];
      }
    }
  }

  /** The loop interchange is sound for a symmetric distance expression: the
      transposed writes leave `f(points[r], points[c])` in cell `[r][c]`, as
      the row-order fill does. */
  lemma InterchangeSound(m: Grid, pts: seq<Point>, f: (Point, Point) -> real)
    requires IsSquare(m, |pts|) && Symmetric(f)
    requires forall i, j :: 0 <= i < |pts| && 0 <= j < |pts| ==> m[j][i] == f(pts[i], pts[j])
    ensures Holds(m, pts, f)
  {
    forall r, c | 0 <= r < |pts| && 0 <= c < |pts|
      ensures m[r][c] == f(pts[r], pts[c])
    {
      assert m[r][c] == f(pts[c], pts[r]);
    }
  }

  /** For a symmetric expression the two write orders give the same matrix:
      the column-order fill leaves exactly what the row-order fill leaves. */
  lemma InterchangeSameMatrix(m: Grid, m': Grid, pts: seq<Point>, f: (Point, Point) -> real)
    requires IsSquare(m, |pts|) && Symmetric(f)
    requires forall i, j :: 0 <= i < |pts| && 0 <= j < |pts| ==> m[j][i] == f(pts[i], pts[j])
    requires Holds(m', pts, f)
    ensures m == m'
  {
    InterchangeSound(m, pts, f);
    forall r | 0 <= r < |pts|
      ensures m[r] == m'[r]
    {
      forall c | 0 <= c < |pts|
        ensures m[r][c] == m'[r][c]
      {
        assert m[r][c] == f(pts[r], pts[c]);
      }
    }
  }

  /** Without symmetry the interchange is not sound: the transposed writes
      leave `f(points[c], points[r])` in cell `[r][c]`. */
  lemma ColumnOrderTransposes(m: Grid, pts: seq<Point>, f: (Point, Point) -> real)
    requires IsSquare(m, |pts|)
    requires forall i, j :: 0 <= i < |pts| && 0 <= j < |pts| ==> m[j][i] == f(pts[i], pts[j])
    ensures Holds(m, pts, (p, q) => f(q, p))
  {
  }

  /** The scan of naive-algorithm.cpp and array-merge.cpp: `maxD` starts at 0
      and takes `matrix[j][i]` whenever it is strictly greater, `i` in the
      outer loop. */
  method ScanColumnOrder(m: Grid, n: nat) returns (maxD: real)
    requires IsSquare(m, n)
    ensures IsMaxOf(m, maxD)
  {
    maxD := 0.0;
    for i := 0 to n
      invariant maxD >= 0.0
      invariant forall a, b :: 0 <= a < i && 0 <= b < n ==> m[b][a] <= maxD
      invariant maxD == 0.0 || exists a, b :: 0 <= a < n && 0 <= b < n && m[b][a] == maxD
    {
      for j := 0 to n
        invariant maxD >= 0.0
        invariant forall a, b :: 0 <= a < i && 0 <= b < n ==> m[b][a] <= maxD
        invariant forall b :: 0 <= b < j ==> m[b][i] <= maxD
        invariant maxD == 0.0 || exists a, b :: 0 <= a < n && 0 <= b < n && m[b][a] == maxD
      {
        if m[j][i] > maxD {
          maxD := m[j][i];
        }
      }
    }
  }

  /** The scan of loop-interchange.cpp: the same running maximum over
      `matrix[i][j]`. */
  method ScanRowOrder(m: Grid, n: nat) returns (maxD: real)
    requires IsSquare(m, n)
    ensures IsMaxOf(m, maxD)
  {
    maxD := 0.0;
    for i := 0 to n
      invariant maxD >= 0.0
      invariant forall a, b :: 0 <= a < i && 0 <= b < n ==> m[a][b] <= maxD
      invariant maxD == 0.0 || exists a, b :: 0 <= a < n && 0 <= b < n && m[a][b] == maxD
    {
      for j := 0 to n
        invariant maxD >= 0.0
        invariant forall a, b :: 0 <= a < i && 0 <= b < n ==> m[a][b] <= maxD
        invariant forall b :: 0 <= b < j ==> m[i][b] <= maxD
        invariant maxD == 0.0 || exists a, b :: 0 <= a < n && 0 <= b < n && m[a][b] == maxD
      {
        if m[i][j] > maxD {
          maxD := m[i][j];
        }
      }
    }
  }

  /** The normalisation of naive-algorithm.cpp and array-merge.cpp:
      `matrix[j][i] /= maxD` with `i` in the outer loop. `divisions` counts
      the divisions applied to each cell. */
  method NormaliseColumnOrder(m: Grid, n: nat, maxD: real) returns (r: Grid, divisions: seq<seq<nat>>)
    requires IsSquare(m, n) && maxD != 0.0
    ensures IsSquare(r, n)
    ensures forall a, b :: 0 <= a < n && 0 <= b < n ==> r[a][b] == m[a][b] / maxD
    ensures AllOnes(divisions, n)
  {
    r, divisions := m, Zeros(n);
    for i := 0 to n
      invariant IsSquare(r, n) && IsSquare(divisions, n)
      invariant forall a, b :: 0 <= a < i && 0 <= b < n ==> r[b][a] == m[b][a] / maxD && divisions[b][a] == 1
      invariant forall a, b :: i <= a < n && 0 <= b < n ==> r[b][a] == m[b][a] && divisions[b][a] == 0
    {
      for j := 0 to n
        invariant IsSquare(r, n) && IsSquare(divisions, n)
        invariant forall a, b :: 0 <= a < i && 0 <= b < n ==> r[b][a] == m[b][a] / maxD && divisions[b][a] == 1
        invariant forall b :: 0 <= b < j ==> r[b][i] == m[b][i] / maxD && divisions[b][i] == 1
        invariant forall b :: j <= b < n ==> r[b][i] == m[b][i] && divisions[b][i] == 0
        invariant forall a, b :: i < a < n && 0 <= b < n ==> r[b][a] == m[b][a] && divisions[b][a] == 0
      {
        r := r[j := r[j][i := r[j][i] / maxD]];
        divisions := divisions[j := divisions[j][i := divisions[j][i] + 1]];
      }
    }
  }

  /** The normalisation of loop-interchange.cpp and parallel-algorithm.cpp:
      `matrix[i][j] /= maxD`. */
  method NormaliseRowOrder(m: Grid, n: nat, maxD: real) returns (r: Grid, divisions: seq<seq<nat>>)
    requires IsSquare(m, n) && maxD != 0.0
    ensures IsSquare(r, n)
    ensures forall a, b :: 0 <= a < n && 0 <= b < n ==> r[a][b] == m[a][b] / maxD
    ensures AllOnes(divisions, n)
  {
    r, divisions := m, Zeros(n);
    for i := 0 to n
      invariant IsSquare(r, n) && IsSquare(divisions, n)
      invariant forall a, b :: 0 <= a < i && 0 <= b < n ==> r[a][b] == m[a][b] / maxD && divisions[a][b] == 1
      invariant forall a, b :: i <= a < n && 0 <= b < n ==> r[a][b] == m[a][b] && divisions[a][b] == 0
    {
      for j := 0 to n
        invariant IsSquare(r, n) && IsSquare(divisions, n)
        invariant forall a, b :: 0 <= a < i && 0 <= b < n ==> r[a][b] == m[a][b] / maxD && divisions[a][b] == 1
        invariant forall b :: 0 <= b < j ==> r[i][b] == m[i][b] / maxD && divisions[i][b] == 1
        invariant forall b :: j <= b < n ==> r[i][b] == m[i][b] && divisions[i][b] == 0
        invariant forall a, b :: i < a < n && 0 <= b < n ==> r[a][b] == m[a][b] && divisions[a][b] == 0
      {
        r := r[i := r[i][j := r[i][j] / maxD]];
        divisions := divisions[i := divisions[i][j := divisions[i][j] + 1]];
      }
    }
  }

  /** Dividing a non-negative grid by its positive maximum leaves every cell
      in [0, 1], turns exactly the cells that held the maximum into 1, and
      so leaves at least one 1. */
  lemma NormalisedRange(m: Grid, n: nat, maxD: real, r: Grid)
    requires IsSquare(m, n) && IsSquare(r, n) && NonNegative(m)
    requires IsMaxOf(m, maxD) && maxD > 0.0
    requires forall a, b :: 0 <= a < n && 0 <= b < n ==> r[a][b] == m[a][b] / maxD
    ensures forall a, b :: 0 <= a < n && 0 <= b < n ==> 0.0 <= r[a][b] <= 1.0
    ensures forall a, b :: 0 <= a < n && 0 <= b < n ==> (r[a][b] == 1.0 <==> m[a][b] == maxD)
    ensures exists a, b :: 0 <= a < n && 0 <= b < n && r[a][b] == 1.0
  {
    forall a, b | 0 <= a < n && 0 <= b < n
      ensures 0.0 <= r[a][b] <= 1.0
      ensures r[a][b] == 1.0 <==> m[a][b] == maxD
    {
      QuotientRange(m[a][b], maxD);
    }
    var a, b :| 0 <= a < |m| && 0 <= b < |m[a]| && m[a][b] == maxD;
    QuotientRange(m[a][b], maxD);
  }

  /** `x / d` for `0 <= x <= d`, `d > 0`, lies in [0, 1] and is 1 exactly
      when `x == d`. */
  lemma QuotientRange(x: real, d: real)
    requires 0.0 <= x <= d && d > 0.0
    ensures 0.0 <= x / d <= 1.0
    ensures x / d == 1.0 <==> x == d
  {
    assert x / d * d == x;
  }
}
