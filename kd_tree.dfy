/** The k-d tree and its median-split construction.

    A node holds one point and two optional children; an absent child (null in
    the source) is a `Leaf`. Nodes are built once and never changed afterwards,
    so the tree is modelled as an inductive value. */
module KdTree {
  import opened Geometry
  import opened AxisSort

  datatype Tree = Leaf | Node(value: Point, left: Tree, right: Tree)

  /** The k-d tree object: the root built from the points it was created with. */
  datatype KdIndex = KdIndex(root: Tree)

  /** All points have dimension `dim`, and that dimension is positive (the
      construction divides the depth by it). */
  ghost predicate Dimensioned(points: seq<Point>, dim: nat)
  {
    dim > 0 && forall p | p in points :: |p.coords| == dim
  }

  /** What the construction needs of its input: the dimension of the first
      point is positive and shared by all points. */
  ghost predicate WellFormedInput(points: seq<Point>)
  {
    points != [] ==> Dimensioned(points, |points[0].coords|)
  }

  /** The points stored in a tree, duplicates included. */
  function Values(t: Tree): multiset<Point>
  {
    match t
    case Leaf => multiset{}
    case Node(v, l, r) => multiset{v} + Values(l) + Values(r)
  }

  /** The distinct points stored in a tree. */
  function Points(t: Tree): set<Point>
  {
    match t
    case Leaf => {}
    case Node(v, l, r) => {v} + Points(l) + Points(r)
  }

  /** A point is among the distinct points of a tree exactly when it is
      stored in the tree at least once. */
  lemma {:induction false} PointsOfValues(t: Tree)
    ensures forall p :: p in Points(t) <==> p in Values(t)
  {
    if t.Node? {
      PointsOfValues(t.left);
      PointsOfValues(t.right);
    }
  }

  /** The number of nodes. */
  function Size(t: Tree): nat
  {
    match t
    case Leaf => 0
    case Node(_, l, r) => 1 + Size(l) + Size(r)
  }

  /** The number of nodes on a longest path from the root. */
  function Height(t: Tree): nat
  {
    match t
    case Leaf => 0
    case Node(_, l, r) => 1 + if Height(l) < Height(r) then Height(r) else Height(l)
  }

  /** The nodes of a tree, each standing for the subtree it roots. */
  function Nodes(t: Tree): set<Tree>
  {
    match t
    case Leaf => {}
    case Node(_, l, r) => {t} + Nodes(l) + Nodes(r)
  }

  /** Every stored point has dimension `dim`. */
  ghost predicate AllDim(t: Tree, dim: nat)
  {
    forall p | p in Points(t) :: |p.coords| == dim
  }

  /** The axis after `axis` in the cycle 0, 1, ..., dim - 1, 0, ...: the one
      the children of a node splitting on `axis` split on. */
  function NextAxis(axis: nat, dim: nat): nat
  {
    if axis + 1 == dim then 0 else axis + 1
  }

  /** One level deeper is one step along the cycle of axes. */
  lemma NextAxisMod(depth: nat, dim: nat)
    requires dim > 0
    ensures (depth + 1) % dim == NextAxis(depth % dim, dim)
  {
    var q, r := depth / dim, depth % dim;
    if r + 1 == dim {
      ModUnique(depth + 1, dim, q + 1, 0);
    } else {
      ModUnique(depth + 1, dim, q, r + 1);
    }
  }

  /** Division with a remainder in `[0, d)` is unique. */
  lemma ModUnique(n: int, d: int, q: int, r: int)
    requires d > 0 && 0 <= r < d && n == q * d + r
    ensures n % d == r
  {
    var k := q - n / d;
    assert d * k == n % d - r;
    NoSmallMultiple(d, k);
  }

  /** The only multiple of `d` strictly between `-d` and `d` is zero. */
  lemma NoSmallMultiple(d: int, k: int)
    requires d > 0 && -d < d * k < d
    ensures k == 0
  {
    if k > 0 {
      MultipleAtLeast(d, k);
    } else if k < 0 {
      MultipleAtLeast(d, -k);
    }
  }

  /** A positive multiple of `d` is at least `d`. */
  lemma MultipleAtLeast(d: int, k: int)
    requires d > 0 && k > 0
    ensures d <= d * k
  {
    var e := k - 1;
    assert d * k == d * e + d;
    assert 0 <= d * e;
  }

  /** The k-d ordering invariant: a node splits on `axis` and its children on
      the next axis; every point of its left subtree is no greater than the
      node on that axis and every point of its right subtree no smaller. A tree
      built at depth `d` is ordered from axis `d % dim`. */
  ghost predicate Ordered(t: Tree, axis: nat, dim: nat)
  {
    match t
    case Leaf => true
    case Node(v, l, r) =>
      axis < |v.coords| &&
      (forall p | p in Points(l) :: axis < |p.coords| && p.coords[axis] <= v.coords[axis]) &&
      (forall p | p in Points(r) :: axis < |p.coords| && v.coords[axis] <= p.coords[axis]) &&
      Ordered(l, NextAxis(axis, dim), dim) && Ordered(r, NextAxis(axis, dim), dim)
  }

  /** At every node the left subtree has as many nodes as the right one, or one
      more. */
  ghost predicate Balanced(t: Tree)
  {
    match t
    case Leaf => true
    case Node(_, l, r) =>
      Size(r) <= Size(l) <= Size(r) + 1 && Balanced(l) && Balanced(r)
  }

  function Pow2(n: nat): nat
  {
    if n == 0 then 1 else 2 * Pow2(n - 1)
  }

  /** A subsequence of well-formed input is well-formed input. */
  lemma SubInput(points: seq<Point>, part: seq<Point>)
    requires WellFormedInput(points) && multiset(part) <= multiset(points)
    ensures WellFormedInput(part)
  {
    if part != [] {
      forall p | p in part ensures |p.coords| == |points[0].coords| {
        assert p in multiset(part);
      }
      assert part[0] in part;
    }
  }

  /** The axis the construction splits on at `depth`: the depth modulo the
      dimension of the first point. */
  function SplitAxis(points: seq<Point>, depth: nat): (a: nat)
    requires points != [] && WellFormedInput(points)
    ensures HasAxis(points, a)
  {
    depth % |points[0].coords|
  }

  /** The construction: an empty list gives no node; otherwise the points are
      sorted on the axis of this depth, the point at index `size / 2` becomes the
      node, and the points before and after it become the left and right
      subtrees, one level deeper. No point is lost or added. */
  function BuildKdTree(points: seq<Point>, depth: nat): Tree
    requires WellFormedInput(points)
    decreases |points|
  {
    if points == [] then Leaf
    else
      var sorted := SortBy(points, SplitAxis(points, depth));
      var m := |sorted| / 2;
      SortByPermutation(points, SplitAxis(points, depth));
      MedianParts(points, sorted, m);
      var below, above := sorted[..m], sorted[m + 1..];
      Node(sorted[m], BuildKdTree(below, depth + 1), BuildKdTree(above, depth + 1))
  }

  /** Cutting a permutation of the input around index `m` gives two shorter
      well-formed inputs that, with the point at `m`, hold exactly the input. */
  lemma MedianParts(points: seq<Point>, sorted: seq<Point>, m: nat)
    requires WellFormedInput(points) && multiset(sorted) == multiset(points)
    requires m == |sorted| / 2 && points != []
    ensures |sorted| == |points| && m < |points|
    ensures WellFormedInput(sorted[..m]) && WellFormedInput(sorted[m + 1..])
    ensures multiset(points) == multiset(sorted[..m]) + multiset{sorted[m]} + multiset(sorted[m + 1..])
  {
    assert |multiset(sorted)| == |multiset(points)|;
    assert sorted == sorted[..m] + [sorted[m]] + sorted[m + 1..];
    SubInput(points, sorted[..m]);
    SubInput(points, sorted[m + 1..]);
  }

  /** The k-d tree object as created: its root is the tree built at depth 0. */
  function NewKdIndex(points: seq<Point>): (index: KdIndex)
    requires WellFormedInput(points)
    ensures index.root.Leaf? <==> points == []
    ensures Values(index.root) == multiset(points)
  {
    BuildValues(points, 0);
    KdIndex(BuildKdTree(points, 0))
  }

  /** The shape of a non-empty construction: the node is the point at index
      `n / 2` of the input sorted on the axis of this depth, and the subtrees are
      built one level deeper from the `n / 2` sorted points before it and the
      `n - n / 2 - 1` after it, which together with the node are the input. */
  lemma BuildShape(points: seq<Point>, depth: nat) returns (sorted: seq<Point>, below: seq<Point>, above: seq<Point>)
    requires points != [] && WellFormedInput(points)
    ensures sorted == SortBy(points, SplitAxis(points, depth)) && |sorted| == |points|
    ensures below == sorted[..|sorted| / 2] && above == sorted[|sorted| / 2 + 1..]
    ensures |below| == |points| / 2 && |above| == |points| - |points| / 2 - 1
    ensures WellFormedInput(below) && WellFormedInput(above)
    ensures var t := BuildKdTree(points, depth);
      t.Node? && t.value == sorted[|sorted| / 2] &&
      multiset(points) == multiset(below) + multiset{t.value} + multiset(above) &&
      t.left == BuildKdTree(below, depth + 1) && t.right == BuildKdTree(above, depth + 1)
  {
    sorted := SortBy(points, SplitAxis(points, depth));
    var m := |sorted| / 2;
    SortByPermutation(points, SplitAxis(points, depth));
    MedianParts(points, sorted, m);
    below, above := sorted[..m], sorted[m + 1..];
  }

  /** No point is lost or added by the construction: the tree stores exactly
      the input points, duplicates included. */
  lemma {:induction false} BuildValues(points: seq<Point>, depth: nat)
    requires WellFormedInput(points)
    ensures Values(BuildKdTree(points, depth)) == multiset(points)
    decreases |points|
  {
    if points != [] {
      var sorted, below, above := BuildShape(points, depth);
      BuildValues(below, depth + 1);
      BuildValues(above, depth + 1);
    }
  }

  /** The node and the subtrees of a tree of one dimension have that
      dimension. */
  lemma AllDimNode(t: Tree, dim: nat)
    requires t.Node? && AllDim(t, dim)
    ensures |t.value.coords| == dim && AllDim(t.left, dim) && AllDim(t.right, dim)
  {
    assert t.value in Points(t);
  }

  /** Built from points of one dimension, the tree stores only points of that
      dimension. */
  lemma BuildAllDim(points: seq<Point>, depth: nat, dim: nat)
    requires Dimensioned(points, dim)
    ensures AllDim(BuildKdTree(points, depth), dim)
  {
    BuildValues(points, depth);
    PointsOfValues(BuildKdTree(points, depth));
  }

  /** The construction establishes the k-d ordering invariant at every node. */
  lemma {:induction false} BuildOrdered(points: seq<Point>, depth: nat, dim: nat)
    requires Dimensioned(points, dim)
    ensures Ordered(BuildKdTree(points, depth), depth % dim, dim)
    decreases |points|
  {
    if points != [] {
      NextAxisMod(depth, dim);
      var v, below, above := BuildNode(points, depth, dim);
      MedianBounds(points, depth % dim, v, below, above);
      BuildOrdered(below, depth + 1, dim);
      BuildOrdered(above, depth + 1, dim);
      BuildValues(below, depth + 1);
      BuildValues(above, depth + 1);
      OrderedNode(v, below, above, BuildKdTree(below, depth + 1), BuildKdTree(above, depth + 1), depth, dim);
    }
  }

  /** A non-empty construction from points of one dimension: the node is the
      median of the points sorted on axis `depth % dim`, and the subtrees are
      built from the shorter lists of that dimension before and after it. */
  lemma BuildNode(points: seq<Point>, depth: nat, dim: nat) returns (v: Point, below: seq<Point>, above: seq<Point>)
    requires points != [] && Dimensioned(points, dim)
    ensures Dimensioned(below, dim) && Dimensioned(above, dim)
    ensures |below| < |points| && |above| < |points|
    ensures BuildKdTree(points, depth) == Node(v, BuildKdTree(below, depth + 1), BuildKdTree(above, depth + 1))
    ensures HasAxis(points, depth % dim)
    ensures var sorted := SortBy(points, depth % dim);
      |sorted| == |points| &&
      v == sorted[|sorted| / 2] && below == sorted[..|sorted| / 2] && above == sorted[|sorted| / 2 + 1..]
  {
    assert points[0] in points;
    var sorted;
    sorted, below, above := BuildShape(points, depth);
    v := sorted[|sorted| / 2];
    SubDimensioned(points, below, dim);
    SubDimensioned(points, above, dim);
  }

  /** The median of a sorted list splits it: the points before it are no
      greater and the points after it no smaller on the sort axis. */
  lemma MedianBounds(points: seq<Point>, a: nat, v: Point, below: seq<Point>, above: seq<Point>)
    requires points != [] && HasAxis(points, a)
    requires var sorted := SortBy(points, a);
      |sorted| == |points| &&
      v == sorted[|sorted| / 2] && below == sorted[..|sorted| / 2] && above == sorted[|sorted| / 2 + 1..]
    ensures a < |v.coords|
    ensures forall p | p in multiset(below) :: a < |p.coords| && p.coords[a] <= v.coords[a]
    ensures forall p | p in multiset(above) :: a < |p.coords| && v.coords[a] <= p.coords[a]
  {
    SortByMedian(points, a);
  }

  /** A node whose children are ordered and hold points on the correct sides of
      it is ordered. */
  lemma OrderedNode(v: Point, below: seq<Point>, above: seq<Point>, l: Tree, r: Tree, depth: nat, dim: nat)
    requires dim > 0 && depth % dim < |v.coords|
    requires (depth + 1) % dim == NextAxis(depth % dim, dim)
    requires Values(l) == multiset(below) && Values(r) == multiset(above)
    requires forall p | p in multiset(below) ::
      depth % dim < |p.coords| && p.coords[depth % dim] <= v.coords[depth % dim]
    requires forall p | p in multiset(above) ::
      depth % dim < |p.coords| && v.coords[depth % dim] <= p.coords[depth % dim]
    requires Ordered(l, (depth + 1) % dim, dim)
    requires Ordered(r, (depth + 1) % dim, dim)
    ensures Ordered(Node(v, l, r), depth % dim, dim)
  {
    PointsOfValues(l);
    PointsOfValues(r);
  }

  /** A subsequence of points of one dimension has that dimension. */
  lemma SubDimensioned(points: seq<Point>, part: seq<Point>, dim: nat)
    requires Dimensioned(points, dim) && multiset(part) <= multiset(points)
    ensures Dimensioned(part, dim)
  {
    forall p | p in part ensures |p.coords| == dim {
      assert p in multiset(part);
    }
  }

  /** The tree holds one node per input point, and is empty exactly when the
      input is. */
  lemma {:induction false} BuildSize(points: seq<Point>, depth: nat)
    requires WellFormedInput(points)
    ensures BuildKdTree(points, depth).Leaf? <==> points == []
    ensures Size(BuildKdTree(points, depth)) == |points|
    decreases |points|
  {
    if points != [] {
      var sorted, below, above := BuildShape(points, depth);
      BuildSize(below, depth + 1);
      BuildSize(above, depth + 1);
    }
  }

  /** The construction balances the tree: the left subtree of every node holds
      as many points as the right one or one more. */
  lemma {:induction false} BuildBalanced(points: seq<Point>, depth: nat)
    requires WellFormedInput(points)
    ensures Balanced(BuildKdTree(points, depth))
    decreases |points|
  {
    if points != [] {
      var sorted, below, above := BuildShape(points, depth);
      BuildSize(below, depth + 1);
      BuildSize(above, depth + 1);
      BuildBalanced(below, depth + 1);
      BuildBalanced(above, depth + 1);
    }
  }

  /** A balanced tree is shallow: a non-empty one of height h holds at least
      2^(h-1) points, so its height is at most log2(size) + 1. */
  lemma {:induction false} BalancedHeight(t: Tree)
    requires Balanced(t)
    ensures Size(t) > 0 ==> Pow2(Height(t)) <= 2 * Size(t)
  {
    if t.Node? {
      BalancedHeight(t.left);
      BalancedHeight(t.right);
      var hl, hr := Height(t.left), Height(t.right);
      if Size(t.right) == 0 {
        assert hr == 0;
      }
      if Size(t.left) == 0 {
        assert hl == 0 && hr == 0;
      }
    }
  }
}
