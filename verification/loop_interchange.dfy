/** loop-interchange.cpp: the coordinates live in two parallel arrays `x`
    and `y`; the scan and the normalisation were interchanged to row order
    `matrix[i][j]`, but the fill still writes `matrix[j][i]`. */
module LoopInterchange {
  import opened Wrappers
  import opened Plane
  import opened Generator
  import opened Distance
  import opened Matrix
  import opened DistanceGrid

  /** The points of the parallel arrays: point `i` is `(x[i], y[i])`. */
  function Points(x: seq<int>, y: seq<int>): (pts: seq<Point>)
    requires |x| == |y|
    ensures |pts| == |x|
    ensures forall i :: 0 <= i < |x| ==> pts[i].x == x[i] && pts[i].y == y[i]
  {
    seq(|x|, i requires 0 <= i < |x| => Point(x[i], y[i]))
  }

  /** The cell expression `DISTANCE(x[i], x[j], y[i], y[j])`. */
  function Cell(root: nat -> real, p: Point, q: Point): real {
    Macro(root, p.x, q.x, p.y, q.y)
  }

  /** The cell expression is the distance between the two points, and so
      is symmetric. */
  lemma CellIsDistance(root: nat -> real)
    requires IsRoot(root)
    ensures forall p, q :: Cell(root, p, q) == Dist(root, p, q)
    ensures Symmetric((p, q) => Cell(root, p, q))
  {
    forall p, q
      ensures Cell(root, p, q) == Cell(root, q, p)
    {
      DistProperties(root, p, q);
    }
  }

  /** The fill (still `matrix[j][i]`), the row-order scan and the row-order
      normalisation of `main`. */
  method Kernel(root: nat -> real, x: seq<int>, y: seq<int>, init: Grid)
    returns (m: Grid, maxD: real, normalised: Option<Grid>)
    requires IsRoot(root) && |x| == |y| && IsSquare(init, |x|)
    ensures IsDistanceGrid(m, root, Points(x, y))
    ensures forall i :: 0 <= i < |x| ==> m[i][i] == 0.0
    ensures IsMaxOf(m, maxD)
    ensures NormalisedFrom(m, |x|, maxD, normalised)
  {
    var pts := Points(x, y);
    var writes;
    m, writes := FillColumnOrder(pts, (p, q) => Cell(root, p, q), init);
    CellIsDistance(root);
    InterchangeSound(m, pts, (p, q) => Cell(root, p, q));
    DistanceGridShape(m, root, pts);
    maxD := ScanRowOrder(m, |x|);
    if maxD != 0.0 {
      var r, divisions := NormaliseRowOrder(m, |x|, maxD);
      ScaledIsNormalised(m, root, pts, maxD, r);
      normalised := Some(r);
    } else {
      normalised := None;
    }
  }

  /** With the generated coordinates, the longest distance is positive
      exactly when there are at least two points. */
  lemma CoordinatesMaxPositive(root: nat -> real, n: nat, draws: seq<nat>, m: Grid, maxD: real)
    requires IsRoot(root) && GenerateCoordinates(n, draws).Some?
    requires var (x, y) := GenerateCoordinates(n, draws).value;
      IsDistanceGrid(m, root, Points(x, y)) && IsMaxOf(m, maxD)
    ensures maxD > 0.0 <==> n >= 2
  {
    var (x, y) := GenerateCoordinates(n, draws).value;
    assert Points(x, y) == Generate(n, draws).value.points;
    GeneratedMaxPositive(root, n, draws, m, maxD);
  }
}
