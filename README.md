# k-d tree: median construction, axis merge sort and nearest-neighbour search

This project models the core of a small Kotlin k-d tree (`src/main/kotlin/kdTree.kt`)
and proves properties of the model in Dafny.

A k-d tree indexes points with integer coordinates, all of one dimension `D`.
- **Construction.** `buildKdTree` sorts the points on the axis `depth % D` with a hand-written
  merge sort (`sortBy` / `merge`). It stores the median at a new node and recurses on the points
  before and after it, at depth + 1.
- **Distance.** `euclideanDistance` refuses points of different dimensions and otherwise sums the
  squared coordinate differences.
- **Query.** `nearestNeighbor` searches recursively. It first descends into the child on the
  target's side of the node's splitting plane, then visits the other child only when the plane is
  closer than the best distance so far.

The Dafny modules follow the source's parts:

| module | file | what it holds |
|---|---|---|
| `Geometry` | `geometry.dfy` | points, the squared distance, `EuclideanDistance` as a loop with its dimension error |
| `AxisSort` | `axis_sort.dfy` | `Merge` as the source's loop, proved equal to a recursive merge `Merged`; `SortBy`; permutation, ordering and tie lemmas |
| `KdTree` | `kd_tree.dfy` | the tree datatype, `BuildKdTree`, and the construction's invariants (contents, median split, k-d ordering, balance) |
| `KdSearch` | `nearest.dfy` | the search exactly as written (`Search`), the search on the construction's axes (`SearchOnAxis`), and their results |
| `Examples` | `examples.dfy` | the unit tests' inputs worked through the model, and the input on which the search as written fails |

Modelling decisions:
- **Null children.** Nodes are never changed once built, so the tree is an inductive datatype. An
  absent child (Kotlin `null`) is `Leaf`. A search result is a subtree, and "a node of the tree"
  means membership in `Nodes(root)`.
- **Distance without square roots.** Distances are compared through the integer squared distance
  `Dist`, which orders points exactly as the real square root does.
- **The pruning test.** `abs(diff) < sqrt(d)` is equivalent to `diff * diff < d` and is modelled as
  `Square(diff) < Dist(...)`. `Square` is an odd-number recurrence, and `Geometry.SquareIsProduct`
  proves that it equals `x * x`.
- **The missing best.** `Double.MAX_VALUE`, the distance when there is no best node yet, is
  modelled by `KdSearch.Improves`: any node improves on a missing best.
- **The object's state.** The source's `init` stores the built root in a local variable, while
  `nearestNeighbor` reads `rootNode`. The model takes the evident intent: `KdTree.NewKdIndex`
  returns the index holding the built root, and the query searches from it.

Two behaviours of the code deserve a note:
- **The sort is not stable.** `merge` takes the left head only when its key is strictly smaller
  (kdTree.kt:189), so on a tie it takes the right head. A list whose points all share one key
  therefore comes out in the reverse of its input order (`AxisSort.SortByReversesTied`).
- **The search always splits on coordinate 0.** It uses `node.value.size % node.value.size`,
  which is 0, and not the construction's axis. See "## Findings".

## Model

| member | source | states |
|---|---|---|
| `Geometry.EuclideanDistance` | src/main/kotlin/kdTree.kt:67-77 | an error (DimensionMismatch) exactly when the dimensions differ; otherwise the loop's sum of squared coordinate differences equals `Dist` |
| `Geometry.Dist` | src/main/kotlin/kdTree.kt:67-77 | the distance the search compares: the squared Euclidean distance, never negative and zero exactly between equal points |
| `Geometry.SqDist` | src/main/kotlin/kdTree.kt:70-74 | the squared distance is never negative |
| `Geometry.SquareIsProduct` | src/main/kotlin/kdTree.kt:72-73 | the square used by the model equals `diff * diff` |
| `Geometry.SqDistSymmetric` | src/main/kotlin/kdTree.kt:67-77 | the distance is symmetric |
| `Geometry.SqDistZeroIff` | src/main/kotlin/kdTree.kt:67-77 | the distance is zero if and only if the two coordinate sequences are equal |
| `Geometry.SqDistAxisBound` | src/main/kotlin/kdTree.kt:70-74 | one coordinate's squared difference never exceeds the whole squared distance |
| `Geometry.BeyondPlane` | src/main/kotlin/kdTree.kt:132 | a point across a splitting plane from the target is at least as far from it as the plane |
| `AxisSort.MergedFrom` | src/main/kotlin/kdTree.kt:188-202 | what the merge loop still appends after index `i` of the left input and `j` of the right: the left head when strictly smaller, else the right head, then the leftovers; its properties are `AxisSort.MergedFromPermutation` and `AxisSort.MergedFromChained` |
| `AxisSort.Merged` | src/main/kotlin/kdTree.kt:179-205 | the merge of two whole lists, which `AxisSort.Merge` is proved to compute; its properties are `AxisSort.MergedPermutation` and `AxisSort.MergedSorted` |
| `AxisSort.Merge` | src/main/kotlin/kdTree.kt:179-205 | the loop with two indices and the leftover appends computes exactly the recursive merge `Merged` |
| `AxisSort.TakeLeftStep` | src/main/kotlin/kdTree.kt:189-191 | when the left head is strictly smaller, appending it leaves the rest of the merge unchanged |
| `AxisSort.TakeRightStep` | src/main/kotlin/kdTree.kt:192-195 | on a tie or a smaller right head, the right head is appended |
| `AxisSort.MergeLeftovers` | src/main/kotlin/kdTree.kt:198-202 | once one input is used up, appending both leftovers completes the merge |
| `AxisSort.MergedFromPermutation` | src/main/kotlin/kdTree.kt:188-202 | the merge of what remains is a permutation of the two remaining suffixes |
| `AxisSort.MergedPermutation` | src/main/kotlin/kdTree.kt:179-205 | the merge is a permutation of both inputs, and its length is the sum of theirs |
| `AxisSort.MergedFromChained` | src/main/kotlin/kdTree.kt:188-202 | merging inputs that are in order gives a result in order |
| `AxisSort.MergedSorted` | src/main/kotlin/kdTree.kt:179-205 | merging two lists sorted on the axis gives a list sorted on the axis |
| `AxisSort.ChainedIffSorted` | src/main/kotlin/kdTree.kt:188-196 | being ordered between neighbours is the same as being sorted |
| `AxisSort.SortBy` | src/main/kotlin/kdTree.kt:152-169 | the merge sort: lists of at most one point are returned, longer ones split at `size / 2`, sorted and merged; its properties are `AxisSort.SortByShort`, `AxisSort.SortByPermutation`, `AxisSort.SortBySorted` and `AxisSort.SortByReversesTied` |
| `AxisSort.SortByShort` | src/main/kotlin/kdTree.kt:154-156 | a list of zero or one point comes back unchanged |
| `AxisSort.SortByPermutation` | src/main/kotlin/kdTree.kt:152-169 | the sort returns a permutation of its input, of the same length |
| `AxisSort.SortBySorted` | src/main/kotlin/kdTree.kt:152-169 | the sort's result is ascending on the axis |
| `AxisSort.SortByMedian` | src/main/kotlin/kdTree.kt:45-51 | in the sorted list, no point before the median has a larger key and no point after it a smaller one |
| `AxisSort.SortByReversesTies` | src/main/kotlin/kdTree.kt:189-194 | two points with equal keys come out in reverse order, so the sort is not stable |
| `AxisSort.SortByReversesTied` | src/main/kotlin/kdTree.kt:152-169 | a list whose points all share one key comes out in exactly the reverse order, because every merge takes the right head on a tie |
| `KdTree.NextAxisMod` | src/main/kotlin/kdTree.kt:42 | the axis of depth + 1 is the axis after that of depth, wrapping to 0 after `D - 1` |
| `KdTree.SplitAxis` | src/main/kotlin/kdTree.kt:42 | the axis `depth % D` is a valid coordinate of every input point |
| `KdTree.BuildKdTree` | src/main/kotlin/kdTree.kt:35-64 | the construction: no node for no points, otherwise the median of the points sorted on `depth % D` over the trees of the points before and after it at depth + 1; its properties are `KdTree.BuildSize`, `KdTree.BuildValues`, `KdTree.BuildOrdered` and `KdTree.BuildBalanced` |
| `KdTree.MedianParts` | src/main/kotlin/kdTree.kt:48-60 | the points before the median, the median and the points after it together hold the input, and both parts are valid inputs |
| `KdTree.NewKdIndex` | src/main/kotlin/kdTree.kt:21-26 | the root is absent exactly when there are no points, and the tree holds exactly the input points |
| `KdTree.BuildShape` | src/main/kotlin/kdTree.kt:37-63 | a non-empty input gives a node holding the median of the sorted list, with the trees of the two halves as children |
| `KdTree.BuildValues` | src/main/kotlin/kdTree.kt:35-64 | the tree stores exactly the input points, duplicates included |
| `KdTree.BuildSize` | src/main/kotlin/kdTree.kt:35-64 | the tree is empty exactly when the input is, and it has one node per input point |
| `KdTree.BuildAllDim` | src/main/kotlin/kdTree.kt:35-64 | every stored point has the input's dimension |
| `KdTree.BuildNode` | src/main/kotlin/kdTree.kt:42-60 | the root is the median of the input sorted on `depth % D`, and the children are built from the strictly shorter parts before and after it |
| `KdTree.MedianBounds` | src/main/kotlin/kdTree.kt:45-60 | points sent to the left subtree are no greater than the median on the axis, and points sent right are no smaller |
| `KdTree.OrderedNode` | src/main/kotlin/kdTree.kt:54-60 | a median node over ordered subtrees of its two parts is ordered |
| `KdTree.BuildOrdered` | src/main/kotlin/kdTree.kt:35-64 | the tree built at depth `d` satisfies the k-d ordering from axis `d % D`, with children split on the next axis |
| `KdTree.BuildBalanced` | src/main/kotlin/kdTree.kt:48-60 | at every node the left subtree has as many nodes as the right one, or one more |
| `KdTree.BalancedHeight` | src/main/kotlin/kdTree.kt:48-60 | a balanced tree of `n > 0` nodes has height `h` with `2^h <= 2n` |
| `KdSearch.Improves` | src/main/kotlin/kdTree.kt:103-109 | the update rule of lines 106, 126 and 134: a node replaces the best only when it is strictly closer, and any node replaces a missing best |
| `KdSearch.Nearer` | src/main/kotlin/kdTree.kt:113-121 | the child on the target's side: the left one when the target's coordinate is strictly smaller than the node's, otherwise the right one |
| `KdSearch.Further` | src/main/kotlin/kdTree.kt:113-121 | the other child, across the splitting plane from the target |
| `KdSearch.Search` | src/main/kotlin/kdTree.kt:97-140 | an absent node returns the current best; the result is the current best or a node of the subtree; it is absent only when both are; it is never farther than the current best or the subtree's root |
| `KdSearch.SearchStep` | src/main/kotlin/kdTree.kt:111-137 | one step of the search as written compares, and measures the plane, on coordinate 0 whatever the depth |
| `KdSearch.NearestNeighbor` | src/main/kotlin/kdTree.kt:85-87 | an empty tree has no answer; otherwise the answer is a node of the tree, no farther from the target than the root |
| `KdSearch.SearchOnAxis` | src/main/kotlin/kdTree.kt:97-140 | the search with the split axis advancing like the construction's, with the same guarantees as `Search` |
| `KdSearch.NearestNeighborOnAxes` | src/main/kotlin/kdTree.kt:85-87 | the query on the construction's axes: absent only for an empty tree, otherwise a stored point no farther than the root |
| `KdSearch.PrunedSideBeaten` | src/main/kotlin/kdTree.kt:131-137 | when the splitting plane is no closer than the best, no point of the skipped child is closer than the best |
| `KdSearch.SearchOnAxisOptimal` | src/main/kotlin/kdTree.kt:97-140 | on a k-d-ordered tree, no stored point is strictly closer to the target than the search's result |
| `KdSearch.NearestNeighborOnAxesOptimal` | src/main/kotlin/kdTree.kt:85-140 | on the tree built from a list, the query returns one of its points, and none is strictly closer to the target |
| `KdSearch.SearchAgreesInOneDimension` | src/main/kotlin/kdTree.kt:111-115 | in one dimension, the search as written and the search on the construction's axes give the same result |
| `KdSearch.NearestNeighborOptimalInOneDimension` | src/main/kotlin/kdTree.kt:85-140 | in one dimension, the query as written returns a true nearest point |
| `Examples.SortPairExample` | src/main/kotlin/kdTree.kt:188-195 | two points sorted: the first stays first only when its key is strictly smaller |
| `Examples.SortByExample` | src/test/kotlin/kdTreeTest.kt:34-60 | the unit test's five points sorted on coordinate 1 come out in the expected order |
| `Examples.SortOnFirstExample` | src/main/kotlin/kdTree.kt:42-45 | the same points sorted on coordinate 0, as the root of their tree sorts them |
| `Examples.BuildPairExample` | src/main/kotlin/kdTree.kt:42-60 | two points become a node for the larger key, with the other point as its left child |
| `Examples.BuildExample` | src/main/kotlin/kdTree.kt:35-64 | the test points build the tree with (5, 2, 9) at the root, (2, 9, 8) and (6, 4, 2) below it, and (3, 7, 4) and (8, 1, 6) as leaves |
| `Examples.NearestNeighborExample` | src/test/kotlin/kdTreeTest.kt:64-88 | the nearest neighbour of (4, 3, 5) among the test points is (6, 4, 2) |
| `Examples.MissBuildExample` | src/main/kotlin/kdTree.kt:35-64 | the points (3, 1), (2, 4), (3, 0), (4, 3) build a tree whose left child splits on coordinate 1 |
| `Examples.MissLeftExample` | src/main/kotlin/kdTree.kt:111-137 | the search as written compares that child on coordinate 0 and prunes the subtree holding (3, 0) |
| `Examples.NearestNeighborMissExample` | src/main/kotlin/kdTree.kt:85-140 | for target (4, 0) the query as written answers (3, 1), at squared distance 2, although (3, 0), at squared distance 1, is indexed |
| `Examples.NearestNeighborOnAxesMissExample` | src/main/kotlin/kdTree.kt:85-140 | on the same input the search on the construction's axes answers (3, 0) |

## Left out

- Floating point: distances are compared as exact integer squared distances, and the square root
  and `Double` rounding are not modelled. For integer inputs the comparisons agree with the real
  ones.
- Integer overflow: coordinates, differences and sums are unbounded integers. The source's 32-bit
  `Int` arithmetic is not modelled: the subtraction `point1[i] - point2[i]` and the product
  `diff * diff` (kdTree.kt:72-73) both wrap. The product overflows once |diff| > 46340 (46341² already
  wraps negative), and a negative sum makes `sqrt` return NaN. The `Double` accumulation is not modelled either.
- The `parent` field of a node: the construction never sets it and the search never reads it.
- Aliasing and mutation: the points are `MutableList`s and `subList` views, but the core never
  mutates them after construction. The model uses values.
- `Geometry.EuclideanDistance`: the model returns an error value where the source throws
  `IllegalArgumentException` from `require`.
- `KdSearch.Search`: requires the target and every stored point to have one positive dimension.
  Without that, the source may throw from `euclideanDistance` or index out of bounds. It may also
  answer over mixed dimensions, because a point in a pruned subtree is never measured. The same
  holds for `KdSearch.SearchOnAxis`.
- `KdSearch.NearestNeighbor`: requires the same, so it does not model a query with a
  zero-dimensional target. On an empty tree the source returns null for any target, since
  kdTree.kt:98 returns before anything is indexed. The same holds for
  `KdSearch.NearestNeighborOnAxes`.
- `KdTree.BuildKdTree`: requires all points to share the first point's positive dimension.
  Without that, the source may throw: division by zero for a zero-dimensional first point, or an
  index out of range when a shorter point's key is compared. It may also build a tree over mixed
  dimensions: `[(1, 2), (3)]` sorts on axis 0, puts (3) at the root and builds (1, 2) at depth 1.
  The same requirement is carried by `KdTree.NewKdIndex`.
- `AxisSort.SortBy`: requires every point to have coordinate `axis`. The source returns a list of
  at most one point without reading its keys, and throws `IndexOutOfBoundsException` only when
  `merge` compares a key that is missing.
- `AxisSort.Merge`: requires every point of both inputs to have coordinate `axis`. The source
  throws only when it compares a missing key, and not when one input is empty.
- The k-nearest-neighbour and radius queries, and the tree printer, are used by the unit tests
  but are not defined in `kdTree.kt`; they are not part of this model.
- The commented-out generic merge sort at the end of `kdTree.kt` is not compiled code and is not
  modelled.
- The unit test of construction only prints the tree and checks that it is not null; that check
  is `KdTree.NewKdIndex`'s first postcondition.

## Findings

| source | as written | input that shows it | evidently intended | confidence | as-written member | corrected member |
|---|---|---|---|---|---|---|
| src/main/kotlin/kdTree.kt:111-132 | the split coordinate is `node.value.size % node.value.size`, which is always 0, so below the root the search compares and measures the plane on a coordinate the construction did not split on, and it can prune the subtree holding the nearest point | points (3, 1), (2, 4), (3, 0), (4, 3) and target (4, 0): the query answers (3, 1), at squared distance 2, while (3, 0) is at squared distance 1 | the search splits on `depth % D`, the construction's axis, and returns a nearest point | high (proved on the model; not executed) | `Examples.NearestNeighborMissExample` (on `KdSearch.Search`, with `KdSearch.SearchStep` showing that the axis is 0) | `KdSearch.SearchOnAxis`, with `KdSearch.NearestNeighborOnAxesOptimal` proving optimality and `Examples.NearestNeighborOnAxesMissExample` answering (3, 0) |
