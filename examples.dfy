/** Concrete runs of the model on the inputs of the repository's unit tests,
    and the input on which the search as written misses the nearest point. */
module Examples {
  import opened Geometry
  import opened AxisSort
  import opened KdTree
  import opened KdSearch

  function P(x: int, y: int, z: int): Point
  {
    Point([x, y, z])
  }

  /** The squared distance of two three-dimensional points, coordinate by
      coordinate. */
  lemma DistExample(x1: int, y1: int, z1: int, x2: int, y2: int, z2: int)
    ensures Dist(P(x1, y1, z1), P(x2, y2, z2)) == Square(x1 - x2) + Square(y1 - y2) + Square(z1 - z2)
  {
    var p, q := [x1, y1, z1], [x2, y2, z2];
    assert p[..2] == [x1, y1] && q[..2] == [x2, y2];
    assert [x1, y1][..1] == [x1] && [x2, y2][..1] == [x2];
    assert [x1][..0] == [] && [x2][..0] == [];
    assert SqDist([x1], [x2]) == Square(x1 - x2);
    assert SqDist([x1, y1], [x2, y2]) == Square(x1 - x2) + Square(y1 - y2);
  }

  /** The squares the distances of the test points to (4, 3, 5) need. */
  lemma SquaresExample()
    ensures Square(1) == 1 && Square(-1) == 1 && Square(2) == 4 && Square(-2) == 4
    ensures Square(3) == 9 && Square(-3) == 9 && Square(4) == 16 && Square(6) == 36
  {
    SquareIsProduct(1);
    SquareIsProduct(-1);
    SquareIsProduct(2);
    SquareIsProduct(-2);
    SquareIsProduct(3);
    SquareIsProduct(-3);
    SquareIsProduct(4);
    SquareIsProduct(6);
  }

  /** The five three-dimensional points of the unit tests. */
  function TestPoints(): seq<Point>
  {
    [P(5, 2, 9), P(3, 7, 4), P(8, 1, 6), P(6, 4, 2), P(2, 9, 8)]
  }

  /** Two points sorted on `axis`: the first stays first only when its key is
      strictly smaller. */
  lemma SortPairExample(x: Point, y: Point, axis: nat)
    requires axis < x.Dim() && axis < y.Dim()
    ensures HasAxis([x, y], axis)
    ensures SortBy([x, y], axis) == if x.coords[axis] < y.coords[axis] then [x, y] else [y, x]
  {
    assert [x, y][..1] == [x] && [x, y][1..] == [y];
    assert MergedFrom([x], [y], 1, 0, axis) == [y];
    assert MergedFrom([x], [y], 0, 1, axis) == [x];
  }

  /** Three points sorted on `axis`: the lone first point merged into the
      sorted pair of the other two. */
  lemma SortTripleExample(x: Point, y: Point, z: Point, axis: nat)
    requires axis < x.Dim() && axis < y.Dim() && axis < z.Dim()
    ensures HasAxis([x, y, z], axis)
    ensures SortBy([x, y, z], axis) ==
      Merged([x], if y.coords[axis] < z.coords[axis] then [y, z] else [z, y], axis)
  {
    assert [x, y, z][..1] == [x] && [x, y, z][1..] == [y, z];
    SortPairExample(y, z, axis);
  }

  /** The last three test points are already in order on coordinate 1. */
  lemma SortLastThreeOnSecondExample()
    ensures HasAxis([P(8, 1, 6), P(6, 4, 2), P(2, 9, 8)], 1)
    ensures SortBy([P(8, 1, 6), P(6, 4, 2), P(2, 9, 8)], 1) == [P(8, 1, 6), P(6, 4, 2), P(2, 9, 8)]
  {
    var c, d, e := P(8, 1, 6), P(6, 4, 2), P(2, 9, 8);
    SortTripleExample(c, d, e, 1);
    assert MergedFrom([c], [d, e], 1, 0, 1) == [d, e];
  }

  /** Sorting the test points on coordinate 1 gives the order the unit test
      expects. */
  lemma SortByExample()
    ensures HasAxis(TestPoints(), 1)
    ensures SortBy(TestPoints(), 1) == [P(8, 1, 6), P(5, 2, 9), P(6, 4, 2), P(3, 7, 4), P(2, 9, 8)]
  {
    var a, b, c, d, e := P(5, 2, 9), P(3, 7, 4), P(8, 1, 6), P(6, 4, 2), P(2, 9, 8);
    SortPairExample(a, b, 1);
    SortLastThreeOnSecondExample();
    assert TestPoints()[..2] == [a, b] && TestPoints()[2..] == [c, d, e];
    var left, right := [a, b], [c, d, e];
    assert Merged(left, right, 1) == [c, a, d, b, e] by {
      assert MergedFrom(left, right, 2, 2, 1) == [e];
      assert MergedFrom(left, right, 1, 2, 1) == [b, e];
      assert MergedFrom(left, right, 1, 1, 1) == [d, b, e];
      assert MergedFrom(left, right, 0, 1, 1) == [a, d, b, e];
    }
  }

  /** The last three test points sorted on coordinate 0. */
  lemma SortLastThreeOnFirstExample()
    ensures HasAxis([P(8, 1, 6), P(6, 4, 2), P(2, 9, 8)], 0)
    ensures SortBy([P(8, 1, 6), P(6, 4, 2), P(2, 9, 8)], 0) == [P(2, 9, 8), P(6, 4, 2), P(8, 1, 6)]
  {
    var c, d, e := P(8, 1, 6), P(6, 4, 2), P(2, 9, 8);
    SortTripleExample(c, d, e, 0);
    assert MergedFrom([c], [e, d], 0, 2, 0) == [c];
    assert MergedFrom([c], [e, d], 0, 1, 0) == [d, c];
  }

  /** Sorting the test points on coordinate 0, as the root of the tree does. */
  lemma SortOnFirstExample()
    ensures HasAxis(TestPoints(), 0)
    ensures SortBy(TestPoints(), 0) == [P(2, 9, 8), P(3, 7, 4), P(5, 2, 9), P(6, 4, 2), P(8, 1, 6)]
  {
    var a, b, c, d, e := P(5, 2, 9), P(3, 7, 4), P(8, 1, 6), P(6, 4, 2), P(2, 9, 8);
    SortPairExample(a, b, 0);
    SortLastThreeOnFirstExample();
    assert TestPoints()[..2] == [a, b] && TestPoints()[2..] == [c, d, e];
    var left, right := [b, a], [e, d, c];
    assert Merged(left, right, 0) == [e, b, a, d, c] by {
      assert MergedFrom(left, right, 2, 1, 0) == [d, c];
      assert MergedFrom(left, right, 1, 1, 0) == [a, d, c];
      assert MergedFrom(left, right, 0, 1, 0) == [b, a, d, c];
    }
  }

  /** A single point becomes a node without children. */
  lemma BuildSingleExample(p: Point, depth: nat)
    requires p.Dim() > 0
    ensures WellFormedInput([p]) && BuildKdTree([p], depth) == Node(p, Leaf, Leaf)
  {
    assert WellFormedInput([p]);
    assert [p][..0] == [] && [p][1..] == [];
  }

  /** Two points become a node for the larger key on the axis of the depth,
      with the other point as its left child. */
  lemma BuildPairExample(x: Point, y: Point, depth: nat)
    requires x.Dim() == y.Dim() > 0
    requires var a := depth % x.Dim(); y.coords[a] < x.coords[a]
    ensures WellFormedInput([x, y])
    ensures BuildKdTree([x, y], depth) == Node(x, Node(y, Leaf, Leaf), Leaf)
  {
    assert WellFormedInput([x, y]);
    SortPairExample(x, y, depth % x.Dim());
    assert [y, x][..1] == [y] && [y, x][2..] == [];
    BuildSingleExample(y, depth + 1);
  }

  /** The tree the construction builds from the test points: the median on
      coordinate 0 at the root, then medians on coordinate 1 below it. */
  function TestTree(): Tree
  {
    Node(P(5, 2, 9),
      Node(P(2, 9, 8), Node(P(3, 7, 4), Leaf, Leaf), Leaf),
      Node(P(6, 4, 2), Node(P(8, 1, 6), Leaf, Leaf), Leaf))
  }

  /** The root of the test tree: the median of the test points on coordinate
      0, with the two points before it and the two after it below. */
  lemma BuildRootExample()
    ensures WellFormedInput(TestPoints())
    ensures WellFormedInput([P(2, 9, 8), P(3, 7, 4)]) && WellFormedInput([P(6, 4, 2), P(8, 1, 6)])
    ensures BuildKdTree(TestPoints(), 0) ==
      Node(P(5, 2, 9), BuildKdTree([P(2, 9, 8), P(3, 7, 4)], 1), BuildKdTree([P(6, 4, 2), P(8, 1, 6)], 1))
  {
    var a, b, c, d, e := P(5, 2, 9), P(3, 7, 4), P(8, 1, 6), P(6, 4, 2), P(2, 9, 8);
    assert WellFormedInput(TestPoints());
    assert SplitAxis(TestPoints(), 0) == 0;
    SortOnFirstExample();
    var sorted := [e, b, a, d, c];
    assert sorted[..2] == [e, b] && sorted[3..] == [d, c];
  }

  /** Building the k-d tree of the test points. */
  lemma BuildExample()
    ensures WellFormedInput(TestPoints())
    ensures BuildKdTree(TestPoints(), 0) == TestTree()
  {
    BuildRootExample();
    assert P(2, 9, 8).Dim() == P(6, 4, 2).Dim() == 3 && 1 % 3 == 1;
    BuildPairExample(P(2, 9, 8), P(3, 7, 4), 1);
    BuildPairExample(P(6, 4, 2), P(8, 1, 6), 1);
  }

  /** The distances of the test points to the query point (4, 3, 5). */
  lemma TestDistances()
    ensures Dist(P(5, 2, 9), P(4, 3, 5)) == 18 && Dist(P(3, 7, 4), P(4, 3, 5)) == 18
    ensures Dist(P(8, 1, 6), P(4, 3, 5)) == 21 && Dist(P(6, 4, 2), P(4, 3, 5)) == 14
    ensures Dist(P(2, 9, 8), P(4, 3, 5)) == 49
  {
    DistExample(5, 2, 9, 4, 3, 5);
    DistExample(3, 7, 4, 4, 3, 5);
    DistExample(8, 1, 6, 4, 3, 5);
    DistExample(6, 4, 2, 4, 3, 5);
    DistExample(2, 9, 8, 4, 3, 5);
    SquaresExample();
  }

  /** Every subtree of the test tree holds three-dimensional points only. */
  lemma TestTreeDims()
    ensures AllDim(Node(P(3, 7, 4), Leaf, Leaf), 3) && AllDim(Node(P(8, 1, 6), Leaf, Leaf), 3)
    ensures AllDim(TestTree().left, 3) && AllDim(TestTree().right, 3) && AllDim(TestTree(), 3)
  {
    var a, b, c, d, e := P(5, 2, 9), P(3, 7, 4), P(8, 1, 6), P(6, 4, 2), P(2, 9, 8);
    assert Points(Node(b, Leaf, Leaf)) == {b} && Points(Node(c, Leaf, Leaf)) == {c};
    assert Points(TestTree().left) == {e, b} && Points(TestTree().right) == {d, c};
    assert Points(TestTree()) == {a} + {e, b} + {d, c};
  }

  /** The search of the leaf holding (3, 7, 4) keeps the root as the best. */
  lemma SearchLeftLeafExample()
    ensures Searchable(Node(P(3, 7, 4), Leaf, Leaf), P(4, 3, 5), TestTree())
    ensures Search(Node(P(3, 7, 4), Leaf, Leaf), P(4, 3, 5), TestTree()) == TestTree()
  {
    TestDistances();
    TestTreeDims();
    SearchStep(Node(P(3, 7, 4), Leaf, Leaf), P(4, 3, 5), TestTree());
  }

  /** The search of the left subtree keeps the root as the best: its point is
      farther, and so is the point below it, which the plane test still visits. */
  lemma SearchLeftExample()
    ensures Searchable(TestTree().left, P(4, 3, 5), TestTree())
    ensures Search(TestTree().left, P(4, 3, 5), TestTree()) == TestTree()
  {
    TestDistances();
    TestTreeDims();
    SearchLeftLeafExample();
    SearchStep(TestTree().left, P(4, 3, 5), TestTree());
  }

  /** The search of the leaf holding (8, 1, 6) keeps (6, 4, 2) as the best. */
  lemma SearchRightLeafExample()
    ensures Searchable(Node(P(8, 1, 6), Leaf, Leaf), P(4, 3, 5), TestTree().right)
    ensures Search(Node(P(8, 1, 6), Leaf, Leaf), P(4, 3, 5), TestTree().right) == TestTree().right
  {
    TestDistances();
    TestTreeDims();
    SearchStep(Node(P(8, 1, 6), Leaf, Leaf), P(4, 3, 5), TestTree().right);
  }

  /** The search of the right subtree replaces the root by (6, 4, 2). */
  lemma SearchRightExample()
    ensures Searchable(TestTree().right, P(4, 3, 5), TestTree())
    ensures Search(TestTree().right, P(4, 3, 5), TestTree()) == TestTree().right
  {
    TestDistances();
    TestTreeDims();
    SearchRightLeafExample();
    SearchStep(TestTree().right, P(4, 3, 5), TestTree());
  }

  /** The nearest-neighbour query of the unit test: among the test points, the
      one nearest to (4, 3, 5) is (6, 4, 2), at squared distance 14. */
  lemma NearestNeighborExample()
    ensures WellFormedInput(TestPoints())
    ensures Searchable(NewKdIndex(TestPoints()).root, P(4, 3, 5), NewKdIndex(TestPoints()).root)
    ensures NearestNeighbor(NewKdIndex(TestPoints()), P(4, 3, 5)).value == P(6, 4, 2)
  {
    BuildExample();
    TestDistances();
    TestTreeDims();
    SearchLeftExample();
    SearchRightExample();
    SearchStep(TestTree(), P(4, 3, 5), TestTree());
    assert NewKdIndex(TestPoints()).root == TestTree();
  }

  function Q(x: int, y: int): Point
  {
    Point([x, y])
  }

  /** The squared distance of two two-dimensional points, coordinate by
      coordinate. */
  lemma PlaneDistExample(x1: int, y1: int, x2: int, y2: int)
    ensures Dist(Q(x1, y1), Q(x2, y2)) == Square(x1 - x2) + Square(y1 - y2)
  {
    assert [x1, y1][..1] == [x1] && [x2, y2][..1] == [x2];
    assert [x1][..0] == [] && [x2][..0] == [];
    assert SqDist([x1], [x2]) == Square(x1 - x2);
  }

  /** Four points in the plane on which the search as written, always
      splitting on coordinate 0, prunes the subtree holding the nearest point
      to (4, 0). */
  function MissPoints(): seq<Point>
  {
    [Q(3, 1), Q(2, 4), Q(3, 0), Q(4, 3)]
  }

  /** The tree the construction builds from them: the root splits on
      coordinate 0, its left child on coordinate 1. */
  function MissTree(): Tree
  {
    Node(Q(3, 1), Node(Q(2, 4), Node(Q(3, 0), Leaf, Leaf), Leaf), Node(Q(4, 3), Leaf, Leaf))
  }

  /** The distances of the four points to the query point (4, 0). */
  lemma MissDistances()
    ensures Dist(Q(3, 1), Q(4, 0)) == 2 && Dist(Q(2, 4), Q(4, 0)) == 20
    ensures Dist(Q(3, 0), Q(4, 0)) == 1 && Dist(Q(4, 3), Q(4, 0)) == 9
  {
    PlaneDistExample(3, 1, 4, 0);
    PlaneDistExample(2, 4, 4, 0);
    PlaneDistExample(3, 0, 4, 0);
    PlaneDistExample(4, 3, 4, 0);
    SquaresExample();
  }

  /** Sorting the four points on coordinate 0: the tie between (3, 1) and
      (3, 0) is broken by taking the right half's point first. */
  lemma MissSortExample()
    ensures HasAxis(MissPoints(), 0)
    ensures SortBy(MissPoints(), 0) == [Q(2, 4), Q(3, 0), Q(3, 1), Q(4, 3)]
  {
    var a, b, c, d := Q(3, 1), Q(2, 4), Q(3, 0), Q(4, 3);
    SortPairExample(a, b, 0);
    SortPairExample(c, d, 0);
    assert MissPoints()[..2] == [a, b] && MissPoints()[2..] == [c, d];
    var left, right := [b, a], [c, d];
    assert Merged(left, right, 0) == [b, c, a, d] by {
      assert MergedFrom(left, right, 2, 1, 0) == [d];
      assert MergedFrom(left, right, 1, 1, 0) == [a, d];
      assert MergedFrom(left, right, 1, 0, 0) == [c, a, d];
    }
  }

  /** Building the k-d tree of the four points. */
  lemma MissBuildExample()
    ensures WellFormedInput(MissPoints())
    ensures BuildKdTree(MissPoints(), 0) == MissTree()
  {
    var a, b, c, d := Q(3, 1), Q(2, 4), Q(3, 0), Q(4, 3);
    assert WellFormedInput(MissPoints());
    assert SplitAxis(MissPoints(), 0) == 0;
    MissSortExample();
    var sorted := [b, c, a, d];
    assert sorted[..2] == [b, c] && sorted[3..] == [d];
    assert b.Dim() == c.Dim() == 2 && 1 % 2 == 1;
    BuildPairExample(b, c, 1);
    BuildSingleExample(d, 1);
  }

  /** Every subtree of the tree holds two-dimensional points only. */
  lemma MissTreeDims()
    ensures AllDim(Node(Q(3, 0), Leaf, Leaf), 2) && AllDim(MissTree().left, 2)
    ensures AllDim(MissTree().right, 2) && AllDim(MissTree(), 2)
  {
    var a, b, c, d := Q(3, 1), Q(2, 4), Q(3, 0), Q(4, 3);
    assert Points(Node(c, Leaf, Leaf)) == {c} && Points(Node(d, Leaf, Leaf)) == {d};
    assert Points(MissTree().left) == {b, c};
    assert Points(MissTree()) == {a} + {b, c} + {d};
  }

  /** The right subtree, on the target's side of the root, does not improve
      on the root. */
  lemma MissRightExample()
    ensures Searchable(MissTree().right, Q(4, 0), MissTree())
    ensures Search(MissTree().right, Q(4, 0), MissTree()) == MissTree()
  {
    MissDistances();
    MissTreeDims();
    SearchStep(MissTree().right, Q(4, 0), MissTree());
  }

  /** The left subtree is visited, but its node is compared on coordinate 0
      where the construction split it on coordinate 1: the target falls on its
      empty side, and the plane test, measured on the wrong coordinate, prunes
      the child holding (3, 0). */
  lemma MissLeftExample()
    ensures Searchable(MissTree().left, Q(4, 0), MissTree())
    ensures Search(MissTree().left, Q(4, 0), MissTree()) == MissTree()
  {
    MissDistances();
    MissTreeDims();
    SearchStep(MissTree().left, Q(4, 0), MissTree());
  }

  /** The search as written answers (3, 1), at squared distance 2, although
      (3, 0), at squared distance 1, is one of the indexed points. */
  lemma NearestNeighborMissExample()
    ensures WellFormedInput(MissPoints())
    ensures Searchable(NewKdIndex(MissPoints()).root, Q(4, 0), NewKdIndex(MissPoints()).root)
    ensures NearestNeighbor(NewKdIndex(MissPoints()), Q(4, 0)).value == Q(3, 1)
    ensures Q(3, 0) in MissPoints() && Dist(Q(3, 0), Q(4, 0)) < Dist(Q(3, 1), Q(4, 0))
  {
    MissBuildExample();
    MissDistances();
    MissTreeDims();
    MissRightExample();
    MissLeftExample();
    SearchStep(MissTree(), Q(4, 0), MissTree());
    assert NewKdIndex(MissPoints()).root == MissTree();
  }

  /** (3, 0) is the only one of the four points within squared distance 1 of
      (4, 0). */
  lemma MissNearestPoint(v: Point)
    requires v in MissPoints() && v.Dim() == 2 && Dist(v, Q(4, 0)) <= 1
    ensures v == Q(3, 0)
  {
    MissDistances();
  }

  /** The search on the construction's axes answers (3, 0) on the same input. */
  lemma NearestNeighborOnAxesMissExample()
    ensures WellFormedInput(MissPoints())
    ensures Searchable(NewKdIndex(MissPoints()).root, Q(4, 0), NewKdIndex(MissPoints()).root)
    ensures NearestNeighborOnAxes(NewKdIndex(MissPoints()), Q(4, 0)).value == Q(3, 0)
  {
    assert WellFormedInput(MissPoints());
    NearestNeighborOnAxesOptimal(MissPoints(), Q(4, 0));
    MissDistances();
    var r := NearestNeighborOnAxes(NewKdIndex(MissPoints()), Q(4, 0));
    assert Dist(r.value, Q(4, 0)) <= 1 by {
      assert Q(3, 0) in MissPoints();
    }
    MissNearestPoint(r.value);
  }
}
