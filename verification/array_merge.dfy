/** array-merge.cpp: the coordinates are merged into an array of point
    structs; every pass over the matrix uses the access `matrix[j][i]` with
    `i` in the outer loop. The fill calls `DISTANCE(x1, x2, y1, y2)` with
    the arguments one point after the other, `(pi.x, pi.y, pj.x, pj.y)`, so
    it does not compute the distance between the points. */
module ArrayMerge {
  import opened Wrappers
  import opened Plane
  import opened Generator
  import opened Distance
  import opened Matrix
  import opened DistanceGrid

  /** The cell expression as written, `DISTANCE(pi.x, pi.y, pj.x, pj.y)`:
      the root of `(pi.x - pi.y)^2 + (pj.x - pj.y)^2`, which is the distance
      between the points `(pi.x, pj.x)` and `(pi.y, pj.y)`, not between `pi`
      and `pj`. */
  function CellAsWritten(root: nat -> real, p: Point, q: Point): (r: real)
    ensures r == Dist(root, Point(p.x, q.x), Point(p.y, q.y))
  {
    Macro(root, p.x, p.y, q.x, q.y)
  }

  /** The cell expression with the arguments in macro order,
      `DISTANCE(pi.x, pj.x, pi.y, pj.y)`. */
  function Cell(root: nat -> real, p: Point, q: Point): real {
    Macro(root, p.x, q.x, p.y, q.y)
  }

  /** The expression as written is still symmetric, so the transposed
      writes are harmless; it vanishes on the diagonal only for a point with
      `x == y`. */
  lemma CellAsWrittenShape(root: nat -> real, p: Point, q: Point)
    requires IsRoot(root)
    ensures CellAsWritten(root, p, q) == CellAsWritten(root, q, p)
    ensures CellAsWritten(root, p, p) == 0.0 <==> p.x == p.y
    ensures CellAsWritten(root, p, q) >= 0.0
  {
    RootSign(root, Radicand(p.x, p.y, q.x, q.y));
    RootSign(root, Radicand(p.x, p.y, p.x, p.y));
  }

  /** A concrete run: with draws `[1, 0]` the generator yields the single
      point `(1, 0)`, and the expression as written puts a positive value on
      the diagonal where the distance of a point to itself is 0. */
  lemma DiagonalCounterexample(root: nat -> real)
    requires IsRoot(root)
    ensures Generate(1, [1, 0]) == Some(Generated([Point(1, 0)], [0], 2))
    ensures CellAsWritten(root, Point(1, 0), Point(1, 0)) > 0.0
    ensures Dist(root, Point(1, 0), Point(1, 0)) == 0.0
  {
    SinglePointRun();
    CellAsWrittenShape(root, Point(1, 0), Point(1, 0));
    DistProperties(root, Point(1, 0), Point(1, 0));
  }

  /** The draw `1` admits a point and the draw `0` ends its run at once. */
  lemma SinglePointRun()
    ensures Generate(1, [1, 0]) == Some(Generated([Point(1, 0)], [0], 2))
  {
    var draws := [1, 0];
    assert Admits(draws[0]);
    assert Stops(draws[1]);
    FirstAdmittingIs(draws, 0, 0);
    FirstStoppingIs(draws, 1, 1);
    var g := Generated([], [], 0);
    assert Generate(0, draws) == Some(g);
    GenerateUnfold(1, draws);
    assert Step(draws, g, 1) == Some(Generated(g.points + [Point(1, 0)], g.starts + [0], 2));
    assert g.points + [Point(1, 0)] == [Point(1, 0)];
    assert g.starts + [0] == [0];
  }

  /** The maximum of the matrix as written is 0 exactly when every point
      has `x == y`; this, not the points coinciding, is when `main` divides
      by zero. */
  lemma AsWrittenMaxZeroIff(root: nat -> real, m: Grid, pts: seq<Point>, maxD: real)
    requires IsRoot(root) && Holds(m, pts, (p, q) => CellAsWritten(root, p, q)) && IsMaxOf(m, maxD)
    ensures maxD == 0.0 <==> forall r :: 0 <= r < |pts| ==> pts[r].x == pts[r].y
  {
    if maxD == 0.0 {
      forall r | 0 <= r < |pts|
        ensures pts[r].x == pts[r].y
      {
        assert m[r][r] <= maxD;
        CellAsWrittenShape(root, pts[r], pts[r]);
      }
    } else {
      var r, c :| 0 <= r < |m| && 0 <= c < |m[r]| && m[r][c] == maxD;
      assert m[r][c] == CellAsWritten(root, pts[r], pts[c]);
      RootSign(root, Radicand(pts[r].x, pts[r].y, pts[c].x, pts[c].y));
    }
  }

  /** The points `(1, 1)` and `(2, 2)` are apart, yet every cell as written
      is 0, so `main` divides by a zero maximum. `TwoPointRun` shows the
      generator produces them. */
  lemma ZeroMaxCounterexample(root: nat -> real, m: Grid, maxD: real)
    requires IsRoot(root) && IsMaxOf(m, maxD)
    requires Holds(m, [Point(1, 1), Point(2, 2)], (p, q) => CellAsWritten(root, p, q))
    ensures maxD == 0.0
    ensures Dist(root, Point(1, 1), Point(2, 2)) > 0.0
  {
    AsWrittenMaxZeroIff(root, m, [Point(1, 1), Point(2, 2)], maxD);
    RootSign(root, SqDist(Point(1, 1), Point(2, 2)));
  }

  /** Each of the draws `1` admits a point; the run after the first has
      one non-stopping draw, the run after the second two. */
  lemma TwoPointRun()
    ensures Generate(2, [1, 1, 0, 1, 1, 1, 0]) == Some(Generated([Point(1, 1), Point(2, 2)], [0, 3], 7))
  {
    var draws := [1, 1, 0, 1, 1, 1, 0];
    var g := Generated([Point(1, 1), Point(2, 2)], [0, 3], 7);
    assert RunOf(draws, g, 0) && RunOf(draws, g, 1);
    assert GapBefore(draws, g, 0) && GapBefore(draws, g, 1);
    GenerateComplete(draws, g);
  }

  /** The corrected expression is the distance between the two points. */
  lemma CellIsDistance(root: nat -> real)
    requires IsRoot(root)
    ensures forall p, q :: Cell(root, p, q) == Dist(root, p, q)
    ensures Symmetric((p, q) => Cell(root, p, q))
  {
    forall p, q
      ensures Cell(root, p, q) == Cell(root, q, p)
    {
      DistProperties(root, p, q);
    }
  }

  /** The column-order scan and normalisation of `main`: the division
      happens exactly when the maximum is not zero. */
  method ScanAndNormalise(m: Grid, n: nat) returns (maxD: real, normalised: Option<Grid>)
    requires IsSquare(m, n)
    ensures IsMaxOf(m, maxD)
    ensures normalised.Some? <==> maxD != 0.0
    ensures normalised.Some? ==> IsScaled(m, n, maxD, normalised.value)
  {
    maxD := ScanColumnOrder(m, n);
    if maxD != 0.0 {
      var r, divisions := NormaliseColumnOrder(m, n, maxD);
      normalised := Some(r);
    } else {
      normalised := None;
    }
  }

  /** `main` as written: the matrix holds the expression as written in
      every cell, is symmetric, and is scanned and normalised as usual, but
      its diagonal is not zero in general. */
  method KernelAsWritten(root: nat -> real, pts: seq<Point>, init: Grid)
    returns (m: Grid, maxD: real, normalised: Option<Grid>)
    requires IsRoot(root) && IsSquare(init, |pts|)
    ensures Holds(m, pts, (p, q) => CellAsWritten(root, p, q))
    ensures forall r, c :: 0 <= r < |pts| && 0 <= c < |pts| ==> m[r][c] == m[c][r]
    ensures IsMaxOf(m, maxD)
    ensures NormalisedFrom(m, |pts|, maxD, normalised)
  {
    var writes;
    m, writes := FillColumnOrder(pts, (p, q) => CellAsWritten(root, p, q), init);
    forall p, q
      ensures CellAsWritten(root, p, q) == CellAsWritten(root, q, p) && CellAsWritten(root, p, q) >= 0.0
    {
      CellAsWrittenShape(root, p, q);
    }
    InterchangeSound(m, pts, (p, q) => CellAsWritten(root, p, q));
    assert NonNegative(m) by {
      forall r, c | 0 <= r < |m| && 0 <= c < |m[r]|
        ensures m[r][c] >= 0.0
      {
        assert m[r][c] == CellAsWritten(root, pts[r], pts[c]);
      }
    }
    forall r, c | 0 <= r < |pts| && 0 <= c < |pts|
      ensures m[r][c] == m[c][r]
    {
      assert m[r][c] == CellAsWritten(root, pts[r], pts[c]);
      assert m[c][r] == CellAsWritten(root, pts[c], pts[r]);
    }
    maxD, normalised := ScanAndNormalise(m, |pts|);
    if normalised.Some? {
      NormalisedRange(m, |pts|, maxD, normalised.value);
    }
  }

  /** `main` with the corrected cell expression: the matrix is the distance
      matrix, scanned and normalised in column order. */
  method Kernel(root: nat -> real, pts: seq<Point>, init: Grid)
    returns (m: Grid, maxD: real, normalised: Option<Grid>)
    requires IsRoot(root) && IsSquare(init, |pts|)
    ensures IsDistanceGrid(m, root, pts)
    ensures IsMaxOf(m, maxD)
    ensures NormalisedFrom(m, |pts|, maxD, normalised)
  {
    var writes;
    m, writes := FillColumnOrder(pts, (p, q) => Cell(root, p, q), init);
    CellIsDistance(root);
    InterchangeSound(m, pts, (p, q) => Cell(root, p, q));
    maxD, normalised := ScanAndNormalise(m, |pts|);
    if normalised.Some? {
      ScaledIsNormalised(m, root, pts, maxD, normalised.value);
    }
  }
}
