/** naive-algorithm.cpp: the points come from a file, and every pass over
    the matrix uses the inefficient access `matrix[j][i]` with `i` in the
    outer loop. */
module Naive {
  import opened Wrappers
  import opened Plane
  import opened Distance
  import opened Matrix
  import opened DistanceGrid

  /** The cell expression `computeDistance(x[i], y[i], x[j], y[j])`. */
  function Cell(root: nat -> real, p: Point, q: Point): real {
    ComputeDistance(root, p.x, p.y, q.x, q.y)
  }

  /** The cell expression is the distance between the two points, in
      either order. */
  lemma CellIsDistance(root: nat -> real, p: Point, q: Point)
    requires IsRoot(root)
    ensures Cell(root, p, q) == Dist(root, p, q)
    ensures Cell(root, p, q) == Dist(root, q, p)
  {
    ComputeDistanceProperties(root, p.x, p.y, q.x, q.y);
    DistProperties(root, p, q);
  }

  /** The fill, the scan and the normalisation of `main`, in column order.
      `init` is what the freshly allocated matrix holds. */
  method Kernel(root: nat -> real, pts: seq<Point>, init: Grid) returns (m: Grid, maxD: real, normalised: Option<Grid>)
    requires IsRoot(root) && IsSquare(init, |pts|)
    ensures IsDistanceGrid(m, root, pts)
    ensures IsMaxOf(m, maxD)
    ensures NormalisedFrom(m, |pts|, maxD, normalised)
  {
    var writes;
    m, writes := FillColumnOrder(pts, (p, q) => Cell(root, p, q), init);
    forall r, c | 0 <= r < |pts| && 0 <= c < |pts|
      ensures m[r][c] == Dist(root, pts[r], pts[c])
    {
      CellIsDistance(root, pts[c], pts[r]);
    }
    maxD := ScanColumnOrder(m, |pts|);
    if maxD != 0.0 {
      var r, divisions := NormaliseColumnOrder(m, |pts|, maxD);
      ScaledIsNormalised(m, root, pts, maxD, r);
      normalised := Some(r);
    } else {
      normalised := None;
    }
  }
}
