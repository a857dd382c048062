/** The distance between two integer points, as both distance expressions of
    the benchmark compute it: the `DISTANCE(x1, x2, y1, y2)` macro and the
    `computeDistance(x1, y1, x2, y2)` function. The square root is not
    modelled by IEEE arithmetic: it is a parameter `root`, of which only
    `root(0) == 0` and strict monotonicity are assumed (`IsRoot`). */
module Distance {
  import opened Plane

  /** `a * a`, which is never negative. */
  function Square(a: int): (r: nat)
    ensures r == 0 <==> a == 0
    ensures a != 0 ==> r >= 1
  {
    if a < 0 then (-a) * (-a) else a * a
  }

  /** The argument of `sqrt` in both distance expressions:
      `(x1 - x2)^2 + (y1 - y2)^2`. */
  function Radicand(x1: int, x2: int, y1: int, y2: int): (r: nat)
    ensures r == 0 <==> x1 == x2 && y1 == y2
  {
    Square(x1 - x2) + Square(y1 - y2)
  }

  /** The squared distance between two points. */
  function SqDist(p: Point, q: Point): nat {
    Radicand(p.x, q.x, p.y, q.y)
  }

  /** What is assumed of `sqrt`: it maps 0 to 0 and is strictly increasing. */
  ghost predicate IsRoot(root: nat -> real) {
    && root(0) == 0.0
    && forall a: nat, b: nat :: a < b ==> root(a) < root(b)
  }

  /** The `DISTANCE(x1, x2, y1, y2)` macro: the first two arguments are the
      `x` coordinates, the last two the `y` coordinates, so it is the
      distance between the points `(x1, y1)` and `(x2, y2)`. */
  function Macro(root: nat -> real, x1: int, x2: int, y1: int, y2: int): (r: real)
    ensures r == Dist(root, Point(x1, y1), Point(x2, y2))
  {
    root(Radicand(x1, x2, y1, y2))
  }

  /** `computeDistance(x1, y1, x2, y2)`: the arguments are one point after
      the other. */
  function ComputeDistance(root: nat -> real, x1: int, y1: int, x2: int, y2: int): (r: real)
    ensures r == Dist(root, Point(x1, y1), Point(x2, y2))
  {
    root(Radicand(x1, x2, y1, y2))
  }

  /** The Euclidean distance between two points. */
  function Dist(root: nat -> real, p: Point, q: Point): real {
    root(SqDist(p, q))
  }

  /** Swapping the two points does not change the radicand. */
  lemma RadicandSymmetric(x1: int, x2: int, y1: int, y2: int)
    ensures Radicand(x1, x2, y1, y2) == Radicand(x2, x1, y2, y1)
  {
    assert Square(x1 - x2) == Square(x2 - x1);
    assert Square(y1 - y2) == Square(y2 - y1);
  }

  /** A root is never negative, and it is zero exactly at zero. */
  lemma RootSign(root: nat -> real, a: nat)
    requires IsRoot(root)
    ensures root(a) >= 0.0
    ensures root(a) == 0.0 <==> a == 0
  {
    if a > 0 {
      assert root(0) < root(a);
    }
  }

  /** `computeDistance` is symmetric, non-negative, zero exactly for
      identical points, and agrees with the macro called with the
      coordinates in macro order. */
  lemma ComputeDistanceProperties(root: nat -> real, x1: int, y1: int, x2: int, y2: int)
    requires IsRoot(root)
    ensures ComputeDistance(root, x1, y1, x2, y2) == ComputeDistance(root, x2, y2, x1, y1)
    ensures ComputeDistance(root, x1, y1, x2, y2) >= 0.0
    ensures ComputeDistance(root, x1, y1, x2, y2) == 0.0 <==> x1 == x2 && y1 == y2
    ensures ComputeDistance(root, x1, y1, x2, y2) == Macro(root, x1, x2, y1, y2)
    ensures ComputeDistance(root, x1, y1, x2, y2) == Dist(root, Point(x1, y1), Point(x2, y2))
  {
    RadicandSymmetric(x1, x2, y1, y2);
    RootSign(root, Radicand(x1, x2, y1, y2));
  }

  /** The Euclidean distance is symmetric, non-negative, and zero exactly
      for identical points. */
  lemma DistProperties(root: nat -> real, p: Point, q: Point)
    requires IsRoot(root)
    ensures Dist(root, p, q) == Dist(root, q, p)
    ensures Dist(root, p, q) >= 0.0
    ensures Dist(root, p, q) == 0.0 <==> p == q
  {
    RadicandSymmetric(p.x, q.x, p.y, q.y);
    RootSign(root, SqDist(p, q));
  }
}
