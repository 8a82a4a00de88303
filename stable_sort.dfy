/**
 * `Array.prototype.sort` / `toSorted` with a comparator, which JavaScript
 * guarantees to be stable. The sort is given here as an insertion sort that
 * takes the input in order and puts each element after every element that is
 * not greater than it. What is proved: the result is a permutation of the
 * input, it is ordered, and a list already in order comes back unchanged.
 * `le(a, b)` holds when the comparator does not put `b` strictly before `a`.
 */
module StableSort {

  /** `le` is total and transitive: what a numeric-difference comparator gives. */
  ghost predicate TotalPreorder<T(!new)>(le: (T, T) -> bool) {
    && (forall a, b :: le(a, b) || le(b, a))
    && (forall a, b, c :: le(a, b) && le(b, c) ==> le(a, c))
  }

  ghost predicate SortedBy<T>(s: seq<T>, le: (T, T) -> bool) {
    forall i, j :: 0 <= i < j < |s| ==> le(s[i], s[j])
  }

  /** Puts `x` in front of the first element that is strictly greater than it. */
  function Insert<T>(s: seq<T>, x: T, le: (T, T) -> bool): (r: seq<T>)
    ensures |r| == |s| + 1
    ensures multiset(r) == multiset(s) + multiset{x}
  {
    if s == [] then [x]
    else if le(s[0], x) then
      assert s == [s[0]] + s[1..];
      [s[0]] + Insert(s[1..], x, le)
    else [x] + s
  }

  /** The insertion sort of `s` by `le`. */
  function SortBy<T>(s: seq<T>, le: (T, T) -> bool): (r: seq<T>)
    ensures |r| == |s|
    ensures multiset(r) == multiset(s)
  {
    if s == [] then []
    else
      assert s == s[..|s| - 1] + [s[|s| - 1]];
      Insert(SortBy(s[..|s| - 1], le), s[|s| - 1], le)
  }

  /** Inserting an element that `y` precedes keeps `y` before every element. */
  lemma {:induction false} InsertKeepsLowerBound<T>(s: seq<T>, x: T, le: (T, T) -> bool, y: T)
    requires forall k :: 0 <= k < |s| ==> le(y, s[k])
    requires le(y, x)
    ensures forall k :: 0 <= k < |Insert(s, x, le)| ==> le(y, Insert(s, x, le)[k])
  {
    if s != [] && le(s[0], x) {
      InsertKeepsLowerBound(s[1..], x, le, y);
      assert Insert(s, x, le) == [s[0]] + Insert(s[1..], x, le);
    }
  }

  lemma {:induction false} InsertSorted<T(!new)>(s: seq<T>, x: T, le: (T, T) -> bool)
    requires TotalPreorder(le)
    requires SortedBy(s, le)
    ensures SortedBy(Insert(s, x, le), le)
  {
    if s == [] {
    } else if le(s[0], x) {
      InsertSorted(s[1..], x, le);
      InsertKeepsLowerBound(s[1..], x, le, s[0]);
      var rest := Insert(s[1..], x, le);
      assert Insert(s, x, le) == [s[0]] + rest;
    } else {
      assert le(x, s[0]);
    }
  }

  /** The output of the sort is ordered by `le`. */
  lemma {:induction false} SortBySorted<T(!new)>(s: seq<T>, le: (T, T) -> bool)
    requires TotalPreorder(le)
    ensures SortedBy(SortBy(s, le), le)
  {
    if s != [] {
      SortBySorted(s[..|s| - 1], le);
      InsertSorted(SortBy(s[..|s| - 1], le), s[|s| - 1], le);
    }
  }

  lemma {:induction false} InsertAfterAll<T>(s: seq<T>, x: T, le: (T, T) -> bool)
    requires forall k :: 0 <= k < |s| ==> le(s[k], x)
    ensures Insert(s, x, le) == s + [x]
  {
    if s != [] {
      InsertAfterAll(s[1..], x, le);
      assert [s[0]] + (s[1..] + [x]) == s + [x];
    }
  }

  /** Stability on already ordered input: sorting it changes nothing. */
  lemma {:induction false} SortBySortedIsIdentity<T>(s: seq<T>, le: (T, T) -> bool)
    requires SortedBy(s, le)
    ensures SortBy(s, le) == s
  {
    if s != [] {
      var init := s[..|s| - 1];
      assert SortedBy(init, le);
      SortBySortedIsIdentity(init, le);
      InsertAfterAll(init, s[|s| - 1], le);
      assert init + [s[|s| - 1]] == s;
    }
  }
}
