/** Nearest-neighbour search over a built k-d tree.

    The search visits a node, keeps the closer of the node and the best point
    found so far, descends first into the child on the target's side of the
    node's splitting coordinate, and visits the other child only when the
    distance from the target to the splitting plane is below the best distance.
    As written, the coordinate it splits on is `size % size` of the node's
    point, that is coordinate 0 at every depth, although the construction splits
    on coordinate `depth % size`. `Search` models the code as written;
    `SearchOnAxis` is the search with the construction's axis, for which the
    pruning is sound. */
module KdSearch {
  import opened Geometry
  import opened KdTree

  /** What the search needs of its arguments: the target has a positive
      dimension shared by every point of the subtree and by the current best
      (the distance refuses points of different dimensions, and the axis is
      reduced modulo the dimension). */
  ghost predicate Searchable(node: Tree, target: Point, best: Tree)
  {
    target.Dim() > 0 && AllDim(node, target.Dim()) &&
    (best.Node? ==> best.value.Dim() == target.Dim())
  }

  /** Whether `cand` should replace `best`: it is a node strictly closer to the
      target. Having no best yet counts as an infinite distance, so any node
      improves on it. */
  function Improves(cand: Tree, best: Tree, target: Point): bool
    requires cand.Node? ==> cand.value.Dim() == target.Dim()
    requires best.Node? ==> best.value.Dim() == target.Dim()
  {
    cand.Node? && (best.Leaf? || Dist(cand.value, target) < Dist(best.value, target))
  }

  /** The child on the target's side of the node's splitting plane on
      coordinate `axis`: the left one when the target's coordinate is strictly
      smaller than the node's, the right one otherwise. */
  function Nearer(node: Tree, target: Point, axis: nat): Tree
    requires node.Node? && axis < target.Dim() && axis < node.value.Dim()
  {
    if target.coords[axis] < node.value.coords[axis] then node.left else node.right
  }

  /** The other child, across the splitting plane from the target. */
  function Further(node: Tree, target: Point, axis: nat): Tree
    requires node.Node? && axis < target.Dim() && axis < node.value.Dim()
  {
    if target.coords[axis] < node.value.coords[axis] then node.right else node.left
  }

  /** The recursive search exactly as written: the split coordinate is the
      point's size reduced modulo its size, so always 0. The result is the
      current best or a node of the subtree, and never farther from the target
      than either the current best or the subtree's root. */
  function Search(node: Tree, target: Point, best: Tree): (r: Tree)
    requires Searchable(node, target, best)
    ensures node.Leaf? ==> r == best
    ensures r == best || r in Nodes(node)
    ensures r.Node? <==> node.Node? || best.Node?
    ensures r.Node? ==> r.value.Dim() == target.Dim()
    ensures best.Node? ==> Dist(r.value, target) <= Dist(best.value, target)
    ensures node.Node? ==> Dist(r.value, target) <= Dist(node.value, target)
    decreases node
  {
    match node
    case Leaf => best
    case Node(v, left, right) =>
      AllDimNode(node, target.Dim());
      var nearest := if Improves(node, best, target) then node else best;
      var axis := v.Dim() % v.Dim();
      var nearer := Nearer(node, target, axis);
      var further := Further(node, target, axis);
      var nearerNeighbor := Search(nearer, target, nearest);
      var nearest' := if Improves(nearerNeighbor, nearest, target) then nearerNeighbor else nearest;
      var diff := target.coords[axis] - v.coords[axis];
      if Square(diff) < Dist(nearest'.value, target) then
        var furtherNeighbor := Search(further, target, nearest');
        if Improves(furtherNeighbor, nearest', target) then furtherNeighbor else nearest'
      else
        nearest'
  }

  /** The public query: search the whole tree with the root as the first
      candidate. An empty tree has no nearest neighbour; otherwise the answer
      is a node of the tree no farther from the target than the root. */
  function NearestNeighbor(index: KdIndex, target: Point): (r: Tree)
    requires Searchable(index.root, target, index.root)
    ensures r.Leaf? <==> index.root.Leaf?
    ensures r.Node? ==> r in Nodes(index.root) && r.value in Points(index.root)
    ensures r.Node? ==> Dist(r.value, target) <= Dist(index.root.value, target)
  {
    var r := Search(index.root, target, index.root);
    if r.Leaf? then r
    else
      NodeValueStored(r, index.root);
      r
  }

  /** The point of any node of a tree is stored in the tree. */
  lemma {:induction false} NodeValueStored(n: Tree, t: Tree)
    requires n.Node? && n in Nodes(t)
    ensures n.value in Points(t)
  {
    match t
    case Node(_, l, r) =>
      if n != t {
        if n in Nodes(l) {
          NodeValueStored(n, l);
        } else {
          NodeValueStored(n, r);
        }
      }
  }

  /** The search on the construction's split coordinate: a node built at
      depth `d` splits on coordinate `d % size`, so the root compares on axis 0
      and each level down on the next axis of the cycle. The comparison that
      picks the nearer child and the pruning test both use that axis. */
  function SearchOnAxis(node: Tree, target: Point, best: Tree, axis: nat): (r: Tree)
    requires Searchable(node, target, best) && axis < target.Dim()
    ensures r == best || r in Nodes(node)
    ensures r.Node? <==> node.Node? || best.Node?
    ensures r.Node? ==> r.value.Dim() == target.Dim()
    ensures best.Node? ==> Dist(r.value, target) <= Dist(best.value, target)
    ensures node.Node? ==> Dist(r.value, target) <= Dist(node.value, target)
    decreases node
  {
    match node
    case Leaf => best
    case Node(v, _, _) =>
      AllDimNode(node, target.Dim());
      var nearest := if Improves(node, best, target) then node else best;
      var next := NextAxis(axis, v.Dim());
      var nearerNeighbor := SearchOnAxis(Nearer(node, target, axis), target, nearest, next);
      var nearest' := if Improves(nearerNeighbor, nearest, target) then nearerNeighbor else nearest;
      var diff := target.coords[axis] - v.coords[axis];
      if Square(diff) < Dist(nearest'.value, target) then
        var furtherNeighbor := SearchOnAxis(Further(node, target, axis), target, nearest', next);
        if Improves(furtherNeighbor, nearest', target) then furtherNeighbor else nearest'
      else
        nearest'
  }

  /** The query on the construction's axes: the whole tree searched from axis
      0, with the root as the first candidate. */
  function NearestNeighborOnAxes(index: KdIndex, target: Point): (r: Tree)
    requires Searchable(index.root, target, index.root)
    ensures r.Leaf? <==> index.root.Leaf?
    ensures r.Node? ==> r in Nodes(index.root) && r.value in Points(index.root)
    ensures r.Node? ==> Dist(r.value, target) <= Dist(index.root.value, target)
  {
    var r := SearchOnAxis(index.root, target, index.root, 0);
    if r.Leaf? then r
    else
      NodeValueStored(r, index.root);
      r
  }

  /** On a k-d tree built from a non-empty list of points of the target's
      dimension, the query on the construction's axes returns one of the
      points, and no point of the list is strictly closer to the target. */
  lemma NearestNeighborOnAxesOptimal(points: seq<Point>, target: Point)
    requires WellFormedInput(points) && points != [] && points[0].Dim() == target.Dim()
    ensures Searchable(NewKdIndex(points).root, target, NewKdIndex(points).root)
    ensures var r := NearestNeighborOnAxes(NewKdIndex(points), target);
      r.Node? && r.value in points &&
      forall q | q in points :: Dist(r.value, target) <= Dist(q, target)
  {
    var dim := target.Dim();
    var root := BuildKdTree(points, 0);
    BuildAllDim(points, 0, dim);
    BuildOrdered(points, 0, dim);
    assert 0 % dim == 0;
    BuildValues(points, 0);
    PointsOfValues(root);
    SearchOnAxisOptimal(root, target, root, 0);
  }

  /** One step of the search as written at a node: whatever the dimension
      and the depth, it picks the nearer child and tests the splitting plane on
      coordinate 0. */
  lemma SearchStep(node: Tree, target: Point, best: Tree)
    requires Searchable(node, target, best) && node.Node?
    requires node.value.Dim() == target.Dim() && AllDim(node.left, target.Dim()) && AllDim(node.right, target.Dim())
    ensures
      var nearest := if Improves(node, best, target) then node else best;
      var nearerNeighbor := Search(Nearer(node, target, 0), target, nearest);
      var nearest' := if Improves(nearerNeighbor, nearest, target) then nearerNeighbor else nearest;
      var diff := target.coords[0] - node.value.coords[0];
      Search(node, target, best) ==
        if Square(diff) < Dist(nearest'.value, target) then
          var furtherNeighbor := Search(Further(node, target, 0), target, nearest');
          if Improves(furtherNeighbor, nearest', target) then furtherNeighbor else nearest'
        else
          nearest'
  {
    assert node.value.Dim() % node.value.Dim() == 0;
  }

  /** In one dimension the axis of every depth is 0, so the search as written
      and the search on the construction's axes are the same search. */
  lemma {:induction false} SearchAgreesInOneDimension(node: Tree, target: Point, best: Tree)
    requires Searchable(node, target, best) && target.Dim() == 1
    ensures Search(node, target, best) == SearchOnAxis(node, target, best, 0)
    decreases node
  {
    if node.Node? {
      AllDimNode(node, 1);
      assert NextAxis(0, node.value.Dim()) == 0;
      SearchStep(node, target, best);
      var nearest, _, nearest' := SearchOnAxisStep(node, target, best, 0);
      SearchAgreesInOneDimension(Nearer(node, target, 0), target, nearest);
      SearchAgreesInOneDimension(Further(node, target, 0), target, nearest');
    }
  }

  /** For points of one coordinate, where always comparing coordinate 0 is the
      construction's own choice, the query as written is exact. */
  lemma NearestNeighborOptimalInOneDimension(points: seq<Point>, target: Point)
    requires WellFormedInput(points) && points != [] && points[0].Dim() == 1 && target.Dim() == 1
    ensures Searchable(NewKdIndex(points).root, target, NewKdIndex(points).root)
    ensures var r := NearestNeighbor(NewKdIndex(points), target);
      r.Node? && r.value in points &&
      forall q | q in points :: Dist(r.value, target) <= Dist(q, target)
  {
    NearestNeighborOnAxesOptimal(points, target);
    var root := NewKdIndex(points).root;
    SearchAgreesInOneDimension(root, target, root);
  }

  /** `r` is a point at least as close to the target as every point of `t`. */
  ghost predicate NoneCloser(r: Tree, t: Tree, target: Point)
  {
    r.Node? && r.value.Dim() == target.Dim() &&
    forall q | q in Points(t) && q.Dim() == target.Dim() :: Dist(r.value, target) <= Dist(q, target)
  }

  /** On a tree with the k-d ordering from `axis`, the search on the
      construction's axes finds a point no stored point beats: what it prunes
      lies beyond the splitting plane, at least as far away as the plane. */
  lemma {:induction false} SearchOnAxisOptimal(node: Tree, target: Point, best: Tree, axis: nat)
    requires Searchable(node, target, best) && axis < target.Dim() && Ordered(node, axis, target.Dim())
    requires node.Node? || best.Node?
    ensures NoneCloser(SearchOnAxis(node, target, best, axis), node, target)
    decreases node
  {
    if node.Node? {
      AllDimNode(node, target.Dim());
      var nearest, nearerNeighbor, nearest' := SearchOnAxisStep(node, target, best, axis);
      var nearer, further := Nearer(node, target, axis), Further(node, target, axis);
      var next := NextAxis(axis, node.value.Dim());
      var r := SearchOnAxis(node, target, best, axis);
      if nearer.Node? {
        SearchOnAxisOptimal(nearer, target, nearest, next);
      }
      var diff := target.coords[axis] - node.value.coords[axis];
      if Square(diff) < Dist(nearest'.value, target) {
        var furtherNeighbor := SearchOnAxis(further, target, nearest', next);
        if further.Node? {
          SearchOnAxisOptimal(further, target, nearest', next);
        }
        StillNoneCloser(r, furtherNeighbor, further, target);
      } else {
        PrunedSideBeaten(node, target, axis, r);
      }
      StillNoneCloser(r, nearerNeighbor, nearer, target);
      CombineNoneCloser(r, node, nearer, further, target);
    }
  }

  /** One step of the search on the construction's axes at a node, with its
      intermediate results named: the best after the node itself, the answer
      from the nearer child, searched on the next axis, and the best after it. */
  lemma SearchOnAxisStep(node: Tree, target: Point, best: Tree, axis: nat)
    returns (nearest: Tree, nearerNeighbor: Tree, nearest': Tree)
    requires Searchable(node, target, best) && axis < target.Dim() && node.Node?
    requires node.value.Dim() == target.Dim() && AllDim(node.left, target.Dim()) && AllDim(node.right, target.Dim())
    ensures nearest == if Improves(node, best, target) then node else best
    ensures nearerNeighbor ==
      SearchOnAxis(Nearer(node, target, axis), target, nearest, NextAxis(axis, node.value.Dim()))
    ensures nearest' == if Improves(nearerNeighbor, nearest, target) then nearerNeighbor else nearest
    ensures var diff := target.coords[axis] - node.value.coords[axis];
      SearchOnAxis(node, target, best, axis) ==
        if Square(diff) < Dist(nearest'.value, target) then
          var furtherNeighbor := SearchOnAxis(Further(node, target, axis), target, nearest', NextAxis(axis, node.value.Dim()));
          if Improves(furtherNeighbor, nearest', target) then furtherNeighbor else nearest'
        else
          nearest'
  {
    assert node == Node(node.value, node.left, node.right);
    nearest := if Improves(node, best, target) then node else best;
    nearerNeighbor := SearchOnAxis(Nearer(node, target, axis), target, nearest, NextAxis(axis, node.value.Dim()));
    nearest' := if Improves(nearerNeighbor, nearest, target) then nearerNeighbor else nearest;
    if Square(target.coords[axis] - node.value.coords[axis]) < Dist(nearest'.value, target) {
      var furtherNeighbor := SearchOnAxis(Further(node, target, axis), target, nearest', NextAxis(axis, node.value.Dim()));
      assert SearchOnAxis(node, target, best, axis) ==
        if Improves(furtherNeighbor, nearest', target) then furtherNeighbor else nearest';
    } else {
      assert SearchOnAxis(node, target, best, axis) == nearest';
    }
  }

  /** A point at least as close as one that no point of `t` beats is not beaten
      either. */
  lemma StillNoneCloser(r: Tree, r0: Tree, t: Tree, target: Point)
    requires r.Node? && r.value.Dim() == target.Dim() && (t.Node? ==> NoneCloser(r0, t, target))
    requires t.Node? ==> Dist(r.value, target) <= Dist(r0.value, target)
    ensures NoneCloser(r, t, target)
  {
  }

  /** A point beating the node and every point of both children beats every
      point of the tree. */
  lemma CombineNoneCloser(r: Tree, t: Tree, nearer: Tree, further: Tree, target: Point)
    requires t.Node? && r.Node? && r.value.Dim() == target.Dim() && t.value.Dim() == target.Dim()
    requires (nearer == t.left && further == t.right) || (nearer == t.right && further == t.left)
    requires Dist(r.value, target) <= Dist(t.value, target)
    requires NoneCloser(r, nearer, target) && NoneCloser(r, further, target)
    ensures NoneCloser(r, t, target)
  {
  }

  /** When the splitting plane is no closer to the target than `r`, no point
      across it beats `r`. */
  lemma PrunedSideBeaten(node: Tree, target: Point, axis: nat, r: Tree)
    requires node.Node? && Searchable(node, target, Leaf) && axis < target.Dim()
    requires Ordered(node, axis, target.Dim())
    requires r.Node? && r.value.Dim() == target.Dim()
    requires Dist(r.value, target) <= Square(target.coords[axis] - node.value.coords[axis])
    ensures NoneCloser(r, Further(node, target, axis), target)
  {
    if target.coords[axis] < node.value.coords[axis] {
      FarSideBeaten(r, node.right, target, node.value.coords[axis], axis, true);
    } else {
      FarSideBeaten(r, node.left, target, node.value.coords[axis], axis, false);
    }
  }

  /** Every point of `t` lies on the far side of the plane `coordinate a == s`
      from the target (on its right when `targetLeft`, on its left otherwise),
      so none beats a point `r` at most as far from the target as the plane. */
  lemma FarSideBeaten(r: Tree, t: Tree, target: Point, s: int, a: nat, targetLeft: bool)
    requires r.Node? && r.value.Dim() == target.Dim() && a < target.Dim()
    requires if targetLeft then target.coords[a] < s else s <= target.coords[a]
    requires forall p | p in Points(t) ::
      a < |p.coords| && (if targetLeft then s <= p.coords[a] else p.coords[a] <= s)
    requires Dist(r.value, target) <= Square(target.coords[a] - s)
    ensures NoneCloser(r, t, target)
  {
    forall q | q in Points(t) && q.Dim() == target.Dim()
      ensures Dist(r.value, target) <= Dist(q, target)
    {
      BeyondPlane(q, target, s, a);
    }
  }
}
