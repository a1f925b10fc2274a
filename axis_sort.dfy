/** The axis sorter: a merge sort of points keyed on one coordinate, used by the
    tree construction to find medians. */
module AxisSort {
  import opened Geometry

  /** Every point has a coordinate at index `axis`. */
  ghost predicate HasAxis(ps: seq<Point>, axis: nat)
  {
    forall p | p in ps :: axis < |p.coords|
  }

  /** Non-decreasing on coordinate `axis`, compared pairwise. */
  ghost predicate SortedOn(s: seq<Point>, axis: nat)
  {
    HasAxis(s, axis) && forall i, j | 0 <= i < j < |s| :: s[i].coords[axis] <= s[j].coords[axis]
  }

  /** What the merge loop still appends once it has consumed `left[..i]` and
      `right[..j]`: while both lists have points left, the left head is taken only
      when its key is strictly smaller, so on equal keys the right head goes first;
      when one list runs out, the rest of the other follows unchanged. */
  function MergedFrom(left: seq<Point>, right: seq<Point>, i: nat, j: nat, axis: nat): seq<Point>
    requires HasAxis(left, axis) && HasAxis(right, axis)
    requires i <= |left| && j <= |right|
    decreases |left| - i + |right| - j
  {
    if i == |left| then right[j..]
    else if j == |right| then left[i..]
    else if left[i].coords[axis] < right[j].coords[axis] then
      [left[i]] + MergedFrom(left, right, i + 1, j, axis)
    else
      [right[j]] + MergedFrom(left, right, i, j + 1, axis)
  }

  /** The merge of two whole lists. */
  function Merged(left: seq<Point>, right: seq<Point>, axis: nat): seq<Point>
    requires HasAxis(left, axis) && HasAxis(right, axis)
  {
    MergedFrom(left, right, 0, 0, axis)
  }

  /** The merge as the source runs it: a result list grown in a loop that advances
      one index into each input, then the two leftovers appended. */
  method Merge(left: seq<Point>, right: seq<Point>, axis: nat) returns (result: seq<Point>)
    requires HasAxis(left, axis) && HasAxis(right, axis)
    ensures result == Merged(left, right, axis)
  {
    result := [];
    var leftIndex, rightIndex := 0, 0;
    while leftIndex < |left| && rightIndex < |right|
      invariant leftIndex <= |left| && rightIndex <= |right|
      invariant result + MergedFrom(left, right, leftIndex, rightIndex, axis) == Merged(left, right, axis)
    {
      if left[leftIndex].coords[axis] < right[rightIndex].coords[axis] {
        TakeLeftStep(result, left, right, leftIndex, rightIndex, axis);
        result := result + [left[leftIndex]];
        leftIndex := leftIndex + 1;
      } else {
        TakeRightStep(result, left, right, leftIndex, rightIndex, axis);
        result := result + [right[rightIndex]];
        rightIndex := rightIndex + 1;
      }
    }
    MergeLeftovers(result, left, right, leftIndex, rightIndex, axis);
    result := result + left[leftIndex..];
    result := result + right[rightIndex..];
  }

  /** A turn of the merge loop whose left head is strictly smaller moves it from
      what remains to be merged to the end of the result. */
  lemma TakeLeftStep(result: seq<Point>, left: seq<Point>, right: seq<Point>, i: nat, j: nat, axis: nat)
    requires HasAxis(left, axis) && HasAxis(right, axis)
    requires i < |left| && j < |right| && left[i].coords[axis] < right[j].coords[axis]
    ensures (result + [left[i]]) + MergedFrom(left, right, i + 1, j, axis) == result + MergedFrom(left, right, i, j, axis)
  {
    var rest := MergedFrom(left, right, i + 1, j, axis);
    assert result + ([left[i]] + rest) == (result + [left[i]]) + rest;
  }

  /** A turn of the merge loop whose left head is not strictly smaller moves the
      right head instead. */
  lemma TakeRightStep(result: seq<Point>, left: seq<Point>, right: seq<Point>, i: nat, j: nat, axis: nat)
    requires HasAxis(left, axis) && HasAxis(right, axis)
    requires i < |left| && j < |right| && right[j].coords[axis] <= left[i].coords[axis]
    ensures (result + [right[j]]) + MergedFrom(left, right, i, j + 1, axis) == result + MergedFrom(left, right, i, j, axis)
  {
    var rest := MergedFrom(left, right, i, j + 1, axis);
    assert result + ([right[j]] + rest) == (result + [right[j]]) + rest;
  }

  /** Once one input is used up, what remains to be merged is the other input's
      leftover, so appending both leftovers completes the merge. */
  lemma MergeLeftovers(result: seq<Point>, left: seq<Point>, right: seq<Point>, i: nat, j: nat, axis: nat)
    requires HasAxis(left, axis) && HasAxis(right, axis)
    requires i <= |left| && j <= |right| && (i == |left| || j == |right|)
    ensures result + MergedFrom(left, right, i, j, axis) == result + left[i..] + right[j..]
  {
    if i == |left| {
      assert left[i..] == [];
      assert result + left[i..] == result;
    } else {
      assert right[j..] == [];
      assert result + left[i..] + right[j..] == result + left[i..];
    }
  }

  /** The merge keeps every point of both remaining inputs, duplicates included,
      and adds none. */
  lemma {:induction false} MergedFromPermutation(left: seq<Point>, right: seq<Point>, i: nat, j: nat, axis: nat)
    requires HasAxis(left, axis) && HasAxis(right, axis)
    requires i <= |left| && j <= |right|
    ensures multiset(MergedFrom(left, right, i, j, axis)) == multiset(left[i..]) + multiset(right[j..])
    decreases |left| - i + |right| - j, 1
  {
    if i == |left| {
      assert left[i..] == [];
    } else if j == |right| {
      assert right[j..] == [];
    } else if left[i].coords[axis] < right[j].coords[axis] {
      TakeLeftPermutation(left, right, i, j, axis);
    } else {
      TakeRightPermutation(left, right, i, j, axis);
    }
  }

  /** The step of MergedFromPermutation that takes the left head. */
  lemma {:induction false} TakeLeftPermutation(left: seq<Point>, right: seq<Point>, i: nat, j: nat, axis: nat)
    requires HasAxis(left, axis) && HasAxis(right, axis)
    requires i < |left| && j < |right| && left[i].coords[axis] < right[j].coords[axis]
    ensures multiset(MergedFrom(left, right, i, j, axis)) == multiset(left[i..]) + multiset(right[j..])
    decreases |left| - i + |right| - j, 0
  {
    MergedFromPermutation(left, right, i + 1, j, axis);
    SuffixMultiset(left, i);
    assert MergedFrom(left, right, i, j, axis) == [left[i]] + MergedFrom(left, right, i + 1, j, axis);
  }

  /** The step of MergedFromPermutation that takes the right head. */
  lemma {:induction false} TakeRightPermutation(left: seq<Point>, right: seq<Point>, i: nat, j: nat, axis: nat)
    requires HasAxis(left, axis) && HasAxis(right, axis)
    requires i < |left| && j < |right| && right[j].coords[axis] <= left[i].coords[axis]
    ensures multiset(MergedFrom(left, right, i, j, axis)) == multiset(left[i..]) + multiset(right[j..])
    decreases |left| - i + |right| - j, 0
  {
    MergedFromPermutation(left, right, i, j + 1, axis);
    SuffixMultiset(right, j);
    assert MergedFrom(left, right, i, j, axis) == [right[j]] + MergedFrom(left, right, i, j + 1, axis);
  }

  /** A non-empty suffix holds its first point and the suffix after it. */
  lemma SuffixMultiset(s: seq<Point>, i: nat)
    requires i < |s|
    ensures multiset(s[i..]) == multiset{s[i]} + multiset(s[i + 1..])
  {
    assert s[i..] == [s[i]] + s[i + 1..];
  }

  /** Merging keeps all points: the result is a permutation of the two inputs
      together, so its length is the sum of theirs. */
  lemma MergedPermutation(left: seq<Point>, right: seq<Point>, axis: nat)
    requires HasAxis(left, axis) && HasAxis(right, axis)
    ensures multiset(Merged(left, right, axis)) == multiset(left) + multiset(right)
    ensures |Merged(left, right, axis)| == |left| + |right|
  {
    MergedFromPermutation(left, right, 0, 0, axis);
    assert left[0..] == left && right[0..] == right;
    assert |multiset(Merged(left, right, axis))| == |Merged(left, right, axis)|;
  }

  /** Non-decreasing on coordinate `axis`, compared between neighbours. */
  ghost predicate ChainedOn(s: seq<Point>, axis: nat)
  {
    HasAxis(s, axis) && forall k | 0 <= k < |s| - 1 :: s[k].coords[axis] <= s[k + 1].coords[axis]
  }

  /** What remains to be merged starts with one of the two heads, and is
      empty only when both inputs are used up. */
  lemma {:induction false} MergedFromHead(left: seq<Point>, right: seq<Point>, i: nat, j: nat, axis: nat)
    requires HasAxis(left, axis) && HasAxis(right, axis)
    requires i <= |left| && j <= |right|
    ensures var m := MergedFrom(left, right, i, j, axis);
      (m == [] <==> i == |left| && j == |right|) &&
      (m != [] ==> (i < |left| && m[0] == left[i]) || (j < |right| && m[0] == right[j]))
  {
  }

  /** Merging what is left of two lists that are sorted between neighbours gives
      a list sorted between neighbours. */
  lemma {:induction false} MergedFromChained(left: seq<Point>, right: seq<Point>, i: nat, j: nat, axis: nat)
    requires ChainedOn(left, axis) && ChainedOn(right, axis)
    requires i <= |left| && j <= |right|
    ensures ChainedOn(MergedFrom(left, right, i, j, axis), axis)
    decreases |left| - i + |right| - j, 1
  {
    if i == |left| {
      assert forall k | 0 <= k < |right[j..]| :: right[j..][k] == right[j + k];
    } else if j == |right| {
      assert forall k | 0 <= k < |left[i..]| :: left[i..][k] == left[i + k];
    } else if left[i].coords[axis] < right[j].coords[axis] {
      TakeLeftChained(left, right, i, j, axis);
    } else {
      TakeRightChained(left, right, i, j, axis);
    }
  }

  /** The step of MergedFromChained that takes the left head. */
  lemma {:induction false} TakeLeftChained(left: seq<Point>, right: seq<Point>, i: nat, j: nat, axis: nat)
    requires ChainedOn(left, axis) && ChainedOn(right, axis)
    requires i < |left| && j < |right| && left[i].coords[axis] < right[j].coords[axis]
    ensures ChainedOn(MergedFrom(left, right, i, j, axis), axis)
    decreases |left| - i + |right| - j, 0
  {
    var m := MergedFrom(left, right, i + 1, j, axis);
    MergedFromChained(left, right, i + 1, j, axis);
    MergedFromHead(left, right, i + 1, j, axis);
    ConsChained(left[i], m, axis);
  }

  /** The step of MergedFromChained that takes the right head. */
  lemma {:induction false} TakeRightChained(left: seq<Point>, right: seq<Point>, i: nat, j: nat, axis: nat)
    requires ChainedOn(left, axis) && ChainedOn(right, axis)
    requires i < |left| && j < |right| && right[j].coords[axis] <= left[i].coords[axis]
    ensures ChainedOn(MergedFrom(left, right, i, j, axis), axis)
    decreases |left| - i + |right| - j, 0
  {
    var m := MergedFrom(left, right, i, j + 1, axis);
    MergedFromChained(left, right, i, j + 1, axis);
    MergedFromHead(left, right, i, j + 1, axis);
    ConsChained(right[j], m, axis);
  }

  /** A point no greater than the head of a chained list may be put in front. */
  lemma ConsChained(h: Point, s: seq<Point>, axis: nat)
    requires axis < |h.coords| && ChainedOn(s, axis)
    requires s != [] ==> h.coords[axis] <= s[0].coords[axis]
    ensures ChainedOn([h] + s, axis)
  {
    var t := [h] + s;
    forall k | 0 <= k < |t| - 1 ensures t[k].coords[axis] <= t[k + 1].coords[axis] {
      if k > 0 {
        assert t[k] == s[k - 1] && t[k + 1] == s[k];
      }
    }
  }

  /** Sortedness between neighbours and pairwise sortedness agree. */
  lemma {:induction false} ChainedIffSorted(s: seq<Point>, axis: nat)
    ensures ChainedOn(s, axis) <==> SortedOn(s, axis)
    decreases |s|
  {
    if ChainedOn(s, axis) && |s| > 1 {
      var t := s[1..];
      assert ChainedOn(t, axis) by {
        forall k | 0 <= k < |t| - 1 ensures t[k].coords[axis] <= t[k + 1].coords[axis] {
          assert t[k] == s[k + 1] && t[k + 1] == s[k + 2];
        }
      }
      ChainedIffSorted(t, axis);
      forall i, j | 0 <= i < j < |s| ensures s[i].coords[axis] <= s[j].coords[axis] {
        if i > 0 {
          assert s[i] == t[i - 1] && s[j] == t[j - 1];
        } else if j > 1 {
          assert s[1] == t[0] && s[j] == t[j - 1];
        }
      }
    }
  }

  /** Merging two sorted lists gives a sorted list. */
  lemma MergedSorted(left: seq<Point>, right: seq<Point>, axis: nat)
    requires SortedOn(left, axis) && SortedOn(right, axis)
    ensures SortedOn(Merged(left, right, axis), axis)
  {
    ChainedIffSorted(left, axis);
    ChainedIffSorted(right, axis);
    MergedFromChained(left, right, 0, 0, axis);
    ChainedIffSorted(Merged(left, right, axis), axis);
  }

  /** The axis sort: lists of at most one point come back as they are; longer
      lists are split at the middle, both halves sorted, and the halves merged.
      The result is a permutation of the input (and sorted, by SortBySorted). */
  function SortBy(points: seq<Point>, axis: nat): seq<Point>
    requires HasAxis(points, axis)
    decreases |points|, 0
  {
    if |points| <= 1 then points
    else
      var middle := |points| / 2;
      SortByPermutation(points[..middle], axis);
      SortByPermutation(points[middle..], axis);
      Merged(SortBy(points[..middle], axis), SortBy(points[middle..], axis), axis)
  }

  /** A list of at most one point is already sorted and comes back as it
      is. */
  lemma SortByShort(points: seq<Point>, axis: nat)
    requires HasAxis(points, axis) && |points| <= 1
    ensures SortBy(points, axis) == points
  {
  }

  /** The axis sort returns a permutation of its input. */
  lemma {:induction false} SortByPermutation(points: seq<Point>, axis: nat)
    requires HasAxis(points, axis)
    ensures multiset(SortBy(points, axis)) == multiset(points)
    ensures |SortBy(points, axis)| == |points|
    ensures HasAxis(SortBy(points, axis), axis)
    decreases |points|, 1
  {
    if |points| > 1 {
      var middle := |points| / 2;
      assert points == points[..middle] + points[middle..];
      var leftHalf := SortBy(points[..middle], axis);
      var rightHalf := SortBy(points[middle..], axis);
      SortByPermutation(points[..middle], axis);
      SortByPermutation(points[middle..], axis);
      MergedPermutation(leftHalf, rightHalf, axis);
    }
    HasAxisPermutation(SortBy(points, axis), points, axis);
  }

  /** Reordering points keeps every coordinate they had. */
  lemma HasAxisPermutation(s: seq<Point>, t: seq<Point>, axis: nat)
    requires multiset(s) == multiset(t) && HasAxis(t, axis)
    ensures HasAxis(s, axis)
  {
    forall p | p in s ensures axis < |p.coords| {
      assert p in multiset(t);
    }
  }

  /** The axis sort returns a list non-decreasing on `axis`. */
  lemma {:induction false} SortBySorted(points: seq<Point>, axis: nat)
    requires HasAxis(points, axis)
    ensures SortedOn(SortBy(points, axis), axis)
    decreases |points|
  {
    if |points| > 1 {
      var middle := |points| / 2;
      assert points == points[..middle] + points[middle..];
      SortBySorted(points[..middle], axis);
      SortBySorted(points[middle..], axis);
      SortByPermutation(points[..middle], axis);
      SortByPermutation(points[middle..], axis);
      MergedSorted(SortBy(points[..middle], axis), SortBy(points[middle..], axis), axis);
    }
  }

  /** In a sorted list, the points before index `m` are no greater and those
      after it no smaller than the point at `m`. */
  lemma SortedSplit(sorted: seq<Point>, m: nat, axis: nat)
    requires SortedOn(sorted, axis) && m < |sorted|
    ensures forall p | p in sorted[..m] ::
      axis < |p.coords| && p.coords[axis] <= sorted[m].coords[axis]
    ensures forall p | p in sorted[m + 1..] ::
      axis < |p.coords| && sorted[m].coords[axis] <= p.coords[axis]
  {
    forall p | p in sorted[..m]
      ensures axis < |p.coords| && p.coords[axis] <= sorted[m].coords[axis]
    {
      var i :| 0 <= i < m && sorted[..m][i] == p;
      assert sorted[i] == p;
    }
    forall p | p in sorted[m + 1..]
      ensures axis < |p.coords| && sorted[m].coords[axis] <= p.coords[axis]
    {
      var i :| 0 <= i < |sorted| - m - 1 && sorted[m + 1..][i] == p;
      assert sorted[m + 1 + i] == p;
    }
  }

  /** The point at index `n / 2` of the sorted list is a median on `axis`:
      no point sorted before it is greater, and none sorted after it is smaller. */
  lemma SortByMedian(points: seq<Point>, axis: nat)
    requires HasAxis(points, axis) && points != []
    ensures var sorted := SortBy(points, axis);
      var m := |sorted| / 2;
      m < |sorted| && axis < |sorted[m].coords| &&
      (forall p | p in sorted[..m] :: axis < |p.coords| && p.coords[axis] <= sorted[m].coords[axis]) &&
      (forall p | p in sorted[m + 1..] :: axis < |p.coords| && sorted[m].coords[axis] <= p.coords[axis])
  {
    var sorted := SortBy(points, axis);
    SortByPermutation(points, axis);
    SortBySorted(points, axis);
    SortedSplit(sorted, |sorted| / 2, axis);
  }

  /** Sorting is not stable: two points with equal keys come out in the reverse of
      their input order, because each merge takes the right head on a tie. */
  lemma SortByReversesTies(p: Point, q: Point, axis: nat)
    requires axis < |p.coords| && axis < |q.coords| && p.coords[axis] == q.coords[axis]
    ensures SortBy([p, q], axis) == [q, p]
  {
    assert [p, q][..1] == [p] && [p, q][1..] == [q];
    assert MergedFrom([p], [q], 0, 0, axis) == [q] + MergedFrom([p], [q], 0, 1, axis);
  }

  /** Every point has coordinate `axis`, and its value there is `key`. */
  ghost predicate AllTied(s: seq<Point>, axis: nat, key: int)
  {
    HasAxis(s, axis) && forall p | p in s :: p.coords[axis] == key
  }

  /** The points in the opposite order. */
  function Reversed(s: seq<Point>): seq<Point>
  {
    if s == [] then [] else Reversed(s[1..]) + [s[0]]
  }

  /** Reversing keeps exactly the points of the list. */
  lemma {:induction false} ReversedMembers(s: seq<Point>)
    ensures forall p :: p in Reversed(s) <==> p in s
  {
    if s != [] {
      ReversedMembers(s[1..]);
      assert s == [s[0]] + s[1..];
    }
  }

  /** Reversing a concatenation reverses and swaps its two parts. */
  lemma {:induction false} ReversedAppend(a: seq<Point>, b: seq<Point>)
    ensures Reversed(a + b) == Reversed(b) + Reversed(a)
    decreases |a|
  {
    if a == [] {
      assert a + b == b;
    } else {
      assert (a + b)[1..] == a[1..] + b;
      ReversedAppend(a[1..], b);
    }
  }

  /** When every key is the same, the merge never finds the left head strictly
      smaller: it takes all that remains of the right input first. */
  lemma {:induction false} MergedFromTied(left: seq<Point>, right: seq<Point>, i: nat, j: nat, axis: nat, key: int)
    requires AllTied(left, axis, key) && AllTied(right, axis, key)
    requires i <= |left| && j <= |right|
    ensures MergedFrom(left, right, i, j, axis) == right[j..] + left[i..]
    decreases |right| - j
  {
    if i == |left| {
      assert left[i..] == [];
      assert right[j..] + left[i..] == right[j..];
    } else if j == |right| {
      assert right[j..] == [];
      assert right[j..] + left[i..] == left[i..];
    } else {
      assert left[i] in left && right[j] in right;
      MergedFromTied(left, right, i, j + 1, axis, key);
      assert right[j..] + left[i..] == [right[j]] + (right[j + 1..] + left[i..]);
    }
  }

  /** The tie rule over a whole list: points that all share one key come out
      in the reverse of their input order. */
  lemma {:induction false} SortByReversesTied(points: seq<Point>, axis: nat, key: int)
    requires AllTied(points, axis, key)
    ensures SortBy(points, axis) == Reversed(points)
    decreases |points|
  {
    if |points| == 1 {
      assert points[1..] == [];
    } else if |points| > 1 {
      var middle := |points| / 2;
      var leftHalf, rightHalf := points[..middle], points[middle..];
      assert points == leftHalf + rightHalf;
      assert AllTied(leftHalf, axis, key) by {
        forall p | p in leftHalf ensures p in points { }
      }
      assert AllTied(rightHalf, axis, key) by {
        forall p | p in rightHalf ensures p in points { }
      }
      SortByReversesTied(leftHalf, axis, key);
      SortByReversesTied(rightHalf, axis, key);
      ReversedMembers(leftHalf);
      ReversedMembers(rightHalf);
      var l, r := Reversed(leftHalf), Reversed(rightHalf);
      MergedFromTied(l, r, 0, 0, axis, key);
      assert l[0..] == l && r[0..] == r;
      ReversedAppend(leftHalf, rightHalf);
    }
  }
}
