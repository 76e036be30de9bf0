/**
 * Ascending sort of integer sequences, used wherever the source sorts a list
 * (the median oracle, `sorted(...)` in the container check).
 */
module Sorting {

  predicate IsSorted(s: seq<int>)
  {
    forall i, j :: 0 <= i < j < |s| ==> s[i] <= s[j]
  }

  /** Inserts `x` into a sorted sequence at its place. */
  function Insert(x: int, s: seq<int>): (r: seq<int>)
    requires IsSorted(s)
    ensures IsSorted(r)
    ensures multiset(r) == multiset(s) + multiset{x}
    ensures |r| == |s| + 1
    decreases |s|, 1
  {
    if s == [] then [x]
    else if x <= s[0] then [x] + s
    else
      var tail := Insert(x, s[1..]);
      assert s == [s[0]] + s[1..];
      HeadBelowInsert(x, s);
      [s[0]] + tail
  }

  /** The head of a sorted sequence stays below everything after inserting a larger `x` into its tail. */
  lemma HeadBelowInsert(x: int, s: seq<int>)
    requires IsSorted(s) && s != [] && s[0] < x
    ensures forall k :: 0 <= k < |Insert(x, s[1..])| ==> s[0] <= Insert(x, s[1..])[k]
    decreases |s|, 0
  {
    var tail := Insert(x, s[1..]);
    forall k | 0 <= k < |tail|
      ensures s[0] <= tail[k]
    {
      assert tail[k] in multiset(tail);
      if tail[k] != x {
        assert tail[k] in multiset(s[1..]);
        var j :| 0 <= j < |s[1..]| && s[1..][j] == tail[k];
        assert s[1 + j] == tail[k];
      }
    }
  }

  /** Insertion sort: an ascending permutation of `s`. */
  function Sort(s: seq<int>): (r: seq<int>)
    ensures IsSorted(r)
    ensures multiset(r) == multiset(s)
    ensures |r| == |s|
  {
    if s == [] then []
    else
      assert s == [s[0]] + s[1..];
      Insert(s[0], Sort(s[1..]))
  }

  /** Two sorted sequences holding the same multiset are equal. */
  lemma {:induction false} SortedUnique(a: seq<int>, b: seq<int>)
    requires IsSorted(a) && IsSorted(b)
    requires multiset(a) == multiset(b)
    ensures a == b
    decreases |a|
  {
    assert |a| == |multiset(a)| == |multiset(b)| == |b|;
    if a != [] {
      assert a[0] in multiset(b);
      assert b[0] in multiset(a);
      assert a[0] == b[0];
      assert a == [a[0]] + a[1..];
      assert b == [b[0]] + b[1..];
      assert multiset(a) == multiset{a[0]} + multiset(a[1..]);
      assert multiset(b) == multiset{b[0]} + multiset(b[1..]);
      assert multiset(a[1..]) == multiset(a) - multiset{a[0]};
      assert multiset(b[1..]) == multiset(b) - multiset{b[0]};
      SortedUnique(a[1..], b[1..]);
    }
  }

  /** Sorting depends only on the multiset of the input. */
  lemma SortOfPermutation(a: seq<int>, b: seq<int>)
    requires multiset(a) == multiset(b)
    ensures Sort(a) == Sort(b)
  {
    SortedUnique(Sort(a), Sort(b));
  }

  /** A sorted sequence that is a permutation of `s` is `Sort(s)`. */
  lemma SortedPermutationIsSort(r: seq<int>, s: seq<int>)
    requires IsSorted(r) && multiset(r) == multiset(s)
    ensures r == Sort(s)
  {
    SortedUnique(r, Sort(s));
  }

  /**
   * When every element of `a` is at most every element of `b`, the sorted
   * union is the sorted `a` followed by the sorted `b`.
   */
  lemma SortOfSplit(a: seq<int>, b: seq<int>)
    requires forall i, j :: 0 <= i < |a| && 0 <= j < |b| ==> a[i] <= b[j]
    ensures Sort(a + b) == Sort(a) + Sort(b)
  {
    var sa, sb := Sort(a), Sort(b);
    forall i, j | 0 <= i < |sa| && 0 <= j < |sb|
      ensures sa[i] <= sb[j]
    {
      assert sa[i] in multiset(a);
      assert sb[j] in multiset(b);
    }
    assert multiset(sa + sb) == multiset(a + b);
    SortedPermutationIsSort(sa + sb, a + b);
  }

  /** The last element of a sorted non-empty sequence is its maximum. */
  lemma {:induction false} SortedLastIsMax(a: seq<int>, m: int)
    requires m in a && forall i :: 0 <= i < |a| ==> a[i] <= m
    ensures |Sort(a)| == |a| > 0 && Sort(a)[|a| - 1] == m
  {
    var s := Sort(a);
    var last := s[|a| - 1];
    assert last in multiset(a);
    assert last <= m;
    assert m in multiset(s);
    var i :| 0 <= i < |s| && s[i] == m;
    assert s[i] <= last;
  }

  /** The first element of a sorted non-empty sequence is its minimum. */
  lemma {:induction false} SortedFirstIsMin(a: seq<int>, m: int)
    requires m in a && forall i :: 0 <= i < |a| ==> m <= a[i]
    ensures |Sort(a)| == |a| > 0 && Sort(a)[0] == m
  {
    var s := Sort(a);
    var first := s[0];
    assert first in multiset(a);
    assert m <= first;
    assert m in multiset(s);
    var i :| 0 <= i < |s| && s[i] == m;
    assert first <= s[i];
  }
}
