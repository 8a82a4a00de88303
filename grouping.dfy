/**
 * Bucketing of indexed observations, horizontal ordering inside each bucket
 * and merging of each bucket into one observation (src/utils/grouping.ts).
 * A group the source never creates (a hole of the sparse JS array between
 * two used indices) is the empty group here.
 */
module Grouping {
  import opened Types
  import opened StableSort

  // ---------------------------------------------------------------------
  // groupObservationsByIndex
  // ---------------------------------------------------------------------

  /** The members of group `k` among the first `n` elements, in input order, without their index. */
  function Bucket(marked: seq<IndexedObservation>, n: nat, k: nat): seq<Observation>
    requires n <= |marked|
  {
    if n == 0 then []
    else Bucket(marked, n - 1, k) + (if marked[n - 1].index == k then [Strip(marked[n - 1])] else [])
  }

  /** Group `k` after the first `n` elements; stated apart so that each use unfolds one step. */
  function GroupAfter(marked: seq<IndexedObservation>, n: nat, k: nat): seq<Observation>
    requires n <= |marked|
  {
    Bucket(marked, n, k)
  }

  /** One more than the largest index among the first `n` elements (0 when there are none). */
  function GroupCount(marked: seq<IndexedObservation>, n: nat): nat
    requires n <= |marked|
  {
    if n == 0 then 0
    else if marked[n - 1].index + 1 > GroupCount(marked, n - 1) then marked[n - 1].index + 1
    else GroupCount(marked, n - 1)
  }

  /** The number of observations over all groups. */
  function TotalSize(groups: seq<seq<Observation>>): nat {
    if groups == [] then 0 else TotalSize(groups[..|groups| - 1]) + |groups[|groups| - 1]|
  }

  /** `n` groups that hold nothing: the holes a JS array gets when it is assigned past its end. */
  function Holes(n: nat): (r: seq<seq<Observation>>)
    ensures |r| == n && forall k :: 0 <= k < n ==> r[k] == []
  {
    if n == 0 then [] else Holes(n - 1) + [[]]
  }

  lemma {:induction false} TotalSizeAppendHoles(groups: seq<seq<Observation>>, extra: nat)
    ensures TotalSize(groups + Holes(extra)) == TotalSize(groups)
  {
    var longer := groups + Holes(extra);
    if extra == 0 {
      assert longer == groups;
    } else {
      assert longer[..|longer| - 1] == groups + Holes(extra - 1);
      assert longer[|longer| - 1] == [];
      TotalSizeAppendHoles(groups, extra - 1);
    }
  }

  lemma {:induction false} TotalSizeGrow(groups: seq<seq<Observation>>, j: nat, x: Observation)
    requires j < |groups|
    ensures TotalSize(groups[j := groups[j] + [x]]) == TotalSize(groups) + 1
  {
    var updated := groups[j := groups[j] + [x]];
    if j == |groups| - 1 {
      assert updated[..|updated| - 1] == groups[..|groups| - 1];
    } else {
      var init := groups[..|groups| - 1];
      assert updated[..|updated| - 1] == init[j := init[j] + [x]];
      TotalSizeGrow(init, j, x);
    }
  }

  /**
   * `groupObservationsByIndex`: group `k` holds the observations tagged
   * `k`, in input order and without their index; there are as many groups
   * as the largest index plus one, and no observation is lost or repeated.
   */
  method GroupObservationsByIndex(marked: seq<IndexedObservation>) returns (groups: seq<seq<Observation>>)
    ensures |groups| == GroupCount(marked, |marked|)
    ensures forall k {:trigger groups[k]} :: 0 <= k < |groups| ==> groups[k] == GroupAfter(marked, |marked|, k)
    ensures TotalSize(groups) == |marked|
  {
    groups := [];
    for i := 0 to |marked|
      invariant |groups| == GroupCount(marked, i)
      invariant forall k {:trigger groups[k]} :: 0 <= k < |groups| ==> groups[k] == GroupAfter(marked, i, k)
      invariant TotalSize(groups) == i
    {
      var m := marked[i];
      if m.index >= |groups| {
        TotalSizeAppendHoles(groups, m.index + 1 - |groups|);
        PadKeepsGroups(marked, i, groups, m.index + 1 - |groups|);
        groups := groups + Holes(m.index + 1 - |groups|);
      }
      PushKeepsGroups(marked, i, groups);
      TotalSizeGrow(groups, m.index, Observation(m.bbox, m.text));
      groups := groups[m.index := groups[m.index] + [Observation(m.bbox, m.text)]];
    }
  }

  /** Padding the groups with holes up to a new index keeps every group what it was. */
  lemma PadKeepsGroups(marked: seq<IndexedObservation>, n: nat, groups: seq<seq<Observation>>, extra: nat)
    requires n <= |marked| && |groups| == GroupCount(marked, n)
    requires forall k {:trigger groups[k]} :: 0 <= k < |groups| ==> groups[k] == GroupAfter(marked, n, k)
    ensures var padded := groups + Holes(extra);
            forall k {:trigger padded[k]} :: 0 <= k < |padded| ==> padded[k] == GroupAfter(marked, n, k)
  {
    BucketEmptyBeyond(marked, n);
    var padded := groups + Holes(extra);
    forall k | 0 <= k < |padded| ensures padded[k] == GroupAfter(marked, n, k) {
      if k >= |groups| {
        assert padded[k] == Holes(extra)[k - |groups|];
      }
    }
  }

  /** Pushing the `n`-th observation onto the group of its index gives the groups after `n + 1` elements. */
  lemma PushKeepsGroups(marked: seq<IndexedObservation>, n: nat, groups: seq<seq<Observation>>)
    requires n < |marked| && marked[n].index < |groups|
    requires forall k {:trigger groups[k]} :: 0 <= k < |groups| ==> groups[k] == GroupAfter(marked, n, k)
    ensures var m := marked[n];
            var pushed := groups[m.index := groups[m.index] + [Observation(m.bbox, m.text)]];
            forall k {:trigger pushed[k]} :: 0 <= k < |pushed| ==> pushed[k] == GroupAfter(marked, n + 1, k)
  {
    var m := marked[n];
    var pushed := groups[m.index := groups[m.index] + [Observation(m.bbox, m.text)]];
    forall k | 0 <= k < |pushed| ensures pushed[k] == GroupAfter(marked, n + 1, k) {
      assert GroupAfter(marked, n + 1, k) == GroupAfter(marked, n, k) + (if m.index == k then [Strip(m)] else []);
    }
  }

  /** No observation among the first `n` has an index at or past the group count. */
  lemma {:induction false} BucketEmptyBeyond(marked: seq<IndexedObservation>, n: nat)
    requires n <= |marked|
    ensures forall k :: k >= GroupCount(marked, n) ==> GroupAfter(marked, n, k) == []
  {
    if n > 0 {
      BucketEmptyBeyond(marked, n - 1);
      forall k | k >= GroupCount(marked, n) ensures GroupAfter(marked, n, k) == [] {
        assert GroupAfter(marked, n, k) == GroupAfter(marked, n - 1, k);
      }
    }
  }

  /** Every observation lands in the group of its index. */
  lemma {:induction false} BucketHoldsMember(marked: seq<IndexedObservation>, n: nat, i: nat)
    requires i < n <= |marked|
    ensures Strip(marked[i]) in Bucket(marked, n, marked[i].index)
  {
    if i < n - 1 {
      BucketHoldsMember(marked, n - 1, i);
    }
  }

  /** Every member of group `k` is an observation tagged `k`. */
  lemma {:induction false} BucketMembersHaveIndex(marked: seq<IndexedObservation>, n: nat, k: nat, x: Observation)
    requires n <= |marked|
    requires x in Bucket(marked, n, k)
    ensures exists i :: 0 <= i < n && marked[i].index == k && Strip(marked[i]) == x
  {
    if x !in Bucket(marked, n - 1, k) {
      assert marked[n - 1].index == k && Strip(marked[n - 1]) == x;
    } else {
      BucketMembersHaveIndex(marked, n - 1, k, x);
    }
  }

  /** An index below the group count; every observation's group exists. */
  lemma {:induction false} GroupCountBoundsIndices(marked: seq<IndexedObservation>, n: nat, i: nat)
    requires i < n <= |marked|
    ensures marked[i].index < GroupCount(marked, n)
  {
    if i < n - 1 {
      GroupCountBoundsIndices(marked, n - 1, i);
    }
  }

  // ---------------------------------------------------------------------
  // sortGroupsHorizontally
  // ---------------------------------------------------------------------

  /** `(a, b) => a.bbox.x - b.bbox.x`. */
  predicate ByX(a: Observation, b: Observation) {
    a.bbox.x <= b.bbox.x
  }

  lemma ByXIsTotalPreorder()
    ensures TotalPreorder(ByX)
  {
  }

  /**
   * `sortGroupsHorizontally`: a copy of the groups, each sorted stably by
   * x; every group keeps its members and the number of groups is unchanged.
   */
  method SortGroupsHorizontally(grouped: seq<seq<Observation>>) returns (groups: seq<seq<Observation>>)
    ensures |groups| == |grouped|
    ensures forall i :: 0 <= i < |groups| ==> groups[i] == SortBy(grouped[i], ByX)
    ensures forall i :: 0 <= i < |groups| ==> multiset(groups[i]) == multiset(grouped[i])
    ensures forall i :: 0 <= i < |groups| ==> SortedBy(groups[i], ByX)
  {
    groups := grouped;
    for i := 0 to |groups|
      invariant |groups| == |grouped|
      invariant forall k :: 0 <= k < i ==> groups[k] == SortBy(grouped[k], ByX)
      invariant forall k :: i <= k < |groups| ==> groups[k] == grouped[k]
    {
      var group := groups[i];
      groups := groups[i := SortBy(group, ByX)];
    }
    forall i | 0 <= i < |groups| ensures SortedBy(groups[i], ByX) {
      ByXIsTotalPreorder();
      SortBySorted(grouped[i], ByX);
    }
  }

  // ---------------------------------------------------------------------
  // mergeGroupedObservations
  // ---------------------------------------------------------------------

  /** `Math.min(...group.map(f))` over a non-empty group. */
  function MinOf(group: seq<Observation>, f: Observation -> real): real
    requires group != []
  {
    if |group| == 1 then f(group[0]) else Min(MinOf(group[..|group| - 1], f), f(group[|group| - 1]))
  }

  /** `Math.max(...group.map(f))` over a non-empty group. */
  function MaxOf(group: seq<Observation>, f: Observation -> real): real
    requires group != []
  {
    if |group| == 1 then f(group[0]) else Max(MaxOf(group[..|group| - 1], f), f(group[|group| - 1]))
  }

  /** The minimum is below every member's value and is one of them. */
  lemma {:induction false} MinOfSpec(group: seq<Observation>, f: Observation -> real)
    requires group != []
    ensures forall k :: 0 <= k < |group| ==> MinOf(group, f) <= f(group[k])
    ensures exists k :: 0 <= k < |group| && MinOf(group, f) == f(group[k])
  {
    if |group| == 1 {
      assert MinOf(group, f) == f(group[0]);
    } else {
      var init := group[..|group| - 1];
      MinOfSpec(init, f);
      assert MinOf(group, f) == Min(MinOf(init, f), f(group[|group| - 1]));
      forall k | 0 <= k < |init| ensures MinOf(group, f) <= f(group[k]) {
        assert init[k] == group[k];
      }
      if MinOf(group, f) != f(group[|group| - 1]) {
        var k :| 0 <= k < |init| && MinOf(init, f) == f(init[k]);
        assert init[k] == group[k];
      }
    }
  }

  /** The maximum is above every member's value and is one of them. */
  lemma {:induction false} MaxOfSpec(group: seq<Observation>, f: Observation -> real)
    requires group != []
    ensures forall k :: 0 <= k < |group| ==> f(group[k]) <= MaxOf(group, f)
    ensures exists k :: 0 <= k < |group| && MaxOf(group, f) == f(group[k])
  {
    if |group| == 1 {
      assert MaxOf(group, f) == f(group[0]);
    } else {
      var init := group[..|group| - 1];
      MaxOfSpec(init, f);
      assert MaxOf(group, f) == Max(MaxOf(init, f), f(group[|group| - 1]));
      forall k | 0 <= k < |init| ensures f(group[k]) <= MaxOf(group, f) {
        assert init[k] == group[k];
      }
      if MaxOf(group, f) != f(group[|group| - 1]) {
        var k :| 0 <= k < |init| && MaxOf(init, f) == f(init[k]);
        assert init[k] == group[k];
      }
    }
  }

  function Left(o: Observation): real { o.bbox.x }
  function Top(o: Observation): real { o.bbox.y }
  function Right(o: Observation): real { o.bbox.x + o.bbox.width }
  function Bottom(o: Observation): real { o.bbox.y + o.bbox.height }

  /** The texts of a group, in order. */
  function Texts(group: seq<Observation>): (r: seq<string>)
    ensures |r| == |group|
  {
    seq(|group|, k requires 0 <= k < |group| => group[k].text)
  }

  /** One group merged: the box spanning from the least x and y to the greatest right and bottom edges, the texts joined by spaces. */
  function MergeGroup(group: seq<Observation>): Observation
    requires group != []
  {
    var minX := MinOf(group, Left);
    var minY := MinOf(group, Top);
    var maxX := MaxOf(group, Right);
    var maxY := MaxOf(group, Bottom);
    Observation(BoundingBox(minX, minY, maxX - minX, maxY - minY), Join(Texts(group)))
  }

  /** `outer` covers `inner`. */
  predicate Contains(outer: BoundingBox, inner: BoundingBox) {
    && outer.x <= inner.x && inner.x + inner.width <= outer.x + outer.width
    && outer.y <= inner.y && inner.y + inner.height <= outer.y + outer.height
  }

  /**
   * `mergeGroupedObservations`: one merged observation per group, in group
   * order; holes produce nothing.
   */
  function MergeGroupedObservations(grouped: seq<seq<Observation>>): (r: seq<Observation>)
    ensures |r| <= |grouped|
  {
    if grouped == [] then []
    else
      var last := grouped[|grouped| - 1];
      MergeGroupedObservations(grouped[..|grouped| - 1]) + (if last == [] then [] else [MergeGroup(last)])
  }

  /**
   * The merged box contains every member's box, and each of its four edges
   * is the edge of some member, so no smaller box contains them all.
   */
  lemma MergedBoxIsTightCover(group: seq<Observation>)
    requires group != []
    ensures forall k :: 0 <= k < |group| ==> Contains(MergeGroup(group).bbox, group[k].bbox)
    ensures exists k :: 0 <= k < |group| && MergeGroup(group).bbox.x == group[k].bbox.x
    ensures exists k :: 0 <= k < |group| && MergeGroup(group).bbox.y == group[k].bbox.y
    ensures exists k :: 0 <= k < |group| &&
              MergeGroup(group).bbox.x + MergeGroup(group).bbox.width == group[k].bbox.x + group[k].bbox.width
    ensures exists k :: 0 <= k < |group| &&
              MergeGroup(group).bbox.y + MergeGroup(group).bbox.height == group[k].bbox.y + group[k].bbox.height
  {
    MinOfSpec(group, Left);
    MinOfSpec(group, Top);
    MaxOfSpec(group, Right);
    MaxOfSpec(group, Bottom);
  }

  /** A one-member group is returned unchanged. */
  lemma MergeSingleton(o: Observation)
    ensures MergeGroup([o]) == o
  {
    assert Texts([o]) == [o.text];
  }

  /** The merged text is the members' texts, in order, each pair separated by one space. */
  lemma {:induction false} MergedTextSeparatesMembers(group: seq<Observation>)
    requires |group| >= 2
    ensures MergeGroup(group).text == group[0].text + " " + Join(Texts(group[1..]))
  {
    assert Texts(group)[1..] == Texts(group[1..]);
  }

  /** The number of groups that are not holes. */
  function NonEmptyCount(grouped: seq<seq<Observation>>): nat {
    if grouped == [] then 0
    else NonEmptyCount(grouped[..|grouped| - 1]) + (if grouped[|grouped| - 1] == [] then 0 else 1)
  }

  /** One merged observation per non-empty group. */
  lemma {:induction false} MergeCount(grouped: seq<seq<Observation>>)
    ensures |MergeGroupedObservations(grouped)| == NonEmptyCount(grouped)
  {
    if grouped != [] {
      MergeCount(grouped[..|grouped| - 1]);
    }
  }

  /** Without holes, the `k`-th merged observation is the merge of the `k`-th group. */
  lemma {:induction false} MergeWithoutHoles(grouped: seq<seq<Observation>>)
    requires forall k :: 0 <= k < |grouped| ==> grouped[k] != []
    ensures |MergeGroupedObservations(grouped)| == |grouped|
    ensures forall k :: 0 <= k < |grouped| ==> MergeGroupedObservations(grouped)[k] == MergeGroup(grouped[k])
  {
    if grouped != [] {
      var init := grouped[..|grouped| - 1];
      MergeWithoutHoles(init);
    }
  }
}
