/** Points and the distance metric of the k-d tree.

    A point is a fixed-length sequence of integer coordinates. The tree compares
    points by Euclidean distance; since only comparisons of distances matter, the
    model works with the integer squared distance, which orders points exactly as
    the square root does. */
module Geometry {

  /** An ordered sequence of integer coordinates; its length is the dimension. */
  datatype Point = Point(coords: seq<int>)
  {
    function Dim(): nat { |coords| }
  }

  /** The one error the distance metric raises. */
  datatype Error = DimensionMismatch

  datatype Result<T> = Ok(value: T) | Err(error: Error)

  /** The square of an integer, defined by the odd-number recurrence
      (n + 1)^2 == n^2 + 2n + 1 so that unfolding it adds no product;
      SquareIsProduct shows it is `x * x`. */
  function Square(x: int): nat
    decreases if x < 0 then 1 - x else x
  {
    if x < 0 then Square(-x)
    else if x == 0 then 0
    else Square(x - 1) + 2 * x - 1
  }

  lemma {:induction false} SquareIsProduct(x: int)
    ensures Square(x) == x * x
    decreases if x < 0 then 1 - x else x
  {
    if x < 0 {
      SquareIsProduct(-x);
    } else if x > 0 {
      SquareIsProduct(x - 1);
    }
  }

  /** Sum of the squared differences of two coordinate lists, accumulated from
      the first coordinate to the last (the last coordinate is added last). */
  function SqDist(p: seq<int>, q: seq<int>): (r: int)
    requires |p| == |q|
    ensures r >= 0
    decreases |p|
  {
    if |p| == 0 then 0
    else
      SqDist(p[..|p| - 1], q[..|q| - 1]) + Square(p[|p| - 1] - q[|q| - 1])
  }

  /** The squared Euclidean distance between two points of one dimension: never
      negative, and zero exactly between equal points. */
  function Dist(p: Point, q: Point): (r: int)
    requires p.Dim() == q.Dim()
    ensures r >= 0
    ensures r == 0 <==> p == q
  {
    SqDistZeroIff(p.coords, q.coords);
    SqDist(p.coords, q.coords)
  }

  /** The distance computation with its dimension check: points of different
      dimensions are refused, otherwise the squared sum is accumulated in a loop. */
  method EuclideanDistance(point1: Point, point2: Point) returns (r: Result<int>)
    ensures r.Err? <==> point1.Dim() != point2.Dim()
    ensures r.Err? ==> r.error == DimensionMismatch
    ensures r.Ok? ==> point1.Dim() == point2.Dim() && r.value == Dist(point1, point2)
  {
    if point1.Dim() != point2.Dim() {
      return Err(DimensionMismatch);
    }
    var a, b := point1.coords, point2.coords;
    var sumOfSquares := 0;
    for i := 0 to |a|
      invariant sumOfSquares == SqDist(a[..i], b[..i])
    {
      var diff := a[i] - b[i];
      assert a[..i + 1][..i] == a[..i] && b[..i + 1][..i] == b[..i];
      SquareIsProduct(diff);
      sumOfSquares := sumOfSquares + diff * diff;
    }
    assert a[..|a|] == a && b[..|b|] == b;
    return Ok(sumOfSquares);
  }

  /** The distance does not depend on the order of its arguments. */
  lemma {:induction false} SqDistSymmetric(p: seq<int>, q: seq<int>)
    requires |p| == |q|
    ensures SqDist(p, q) == SqDist(q, p)
    decreases |p|
  {
    if |p| > 0 {
      SqDistSymmetric(p[..|p| - 1], q[..|q| - 1]);
      var d := p[|p| - 1] - q[|q| - 1];
      assert Square(d) == Square(-d);
    }
  }

  /** A point is at distance zero from exactly itself. */
  lemma {:induction false} SqDistZeroIff(p: seq<int>, q: seq<int>)
    requires |p| == |q|
    ensures SqDist(p, q) == 0 <==> p == q
    decreases |p|
  {
    if |p| > 0 {
      var n := |p| - 1;
      SqDistZeroIff(p[..n], q[..n]);
      var d := p[n] - q[n];
      if SqDist(p, q) == 0 {
        SquareIsProduct(d);
        assert Square(d) == 0;
        assert p == p[..n] + [p[n]] && q == q[..n] + [q[n]];
      }
    }
  }

  /** The squared difference on any single axis is a lower bound of the squared
      distance: the distance to a splitting hyperplane bounds the distance to
      every point beyond it. */
  lemma {:induction false} SqDistAxisBound(p: seq<int>, q: seq<int>, a: nat)
    requires |p| == |q| && a < |p|
    ensures Square(p[a] - q[a]) <= SqDist(p, q)
    decreases |p|
  {
    var n := |p| - 1;
    if a < n {
      SqDistAxisBound(p[..n], q[..n], a);
    }
  }

  /** A point on the far side of the plane `coordinate a == s` from the target
      is at least as far from the target as the plane. */
  lemma BeyondPlane(q: Point, target: Point, s: int, a: nat)
    requires q.Dim() == target.Dim() && a < q.Dim()
    requires (target.coords[a] < s && s <= q.coords[a]) || (s <= target.coords[a] && q.coords[a] <= s)
    ensures Square(target.coords[a] - s) <= Dist(q, target)
  {
    SquareMonotone(target.coords[a] - s, q.coords[a] - target.coords[a]);
    SqDistAxisBound(q.coords, target.coords, a);
  }

  /** A number farther from zero has the larger square. */
  lemma SquareMonotone(d: int, e: int)
    requires (if d < 0 then -d else d) <= (if e < 0 then -e else e)
    ensures Square(d) <= Square(e)
  {
    SquareGrows(if d < 0 then -d else d, if e < 0 then -e else e);
  }

  /** On the naturals the square grows with its argument. */
  lemma {:induction false} SquareGrows(x: nat, y: nat)
    requires x <= y
    ensures Square(x) <= Square(y)
    decreases y
  {
    if x < y {
      SquareGrows(x, y - 1);
    }
  }
}
