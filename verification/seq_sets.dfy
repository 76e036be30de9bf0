/**
 * Lists without repeats, the model's stand-in for the sets, dictionary keys
 * and linked-list nodes of the solutions: a repeat-free list is a set
 * enumerated in a fixed order.
 */
module SeqSets {

  predicate Distinct(s: seq<int>)
  {
    forall i, j :: 0 <= i < j < |s| ==> s[i] != s[j]
  }

  function Elements(s: seq<int>): set<int>
  {
    set x | x in s
  }

  /** A list without repeats has as many members as entries. */
  lemma {:induction false} DistinctSize(s: seq<int>)
    requires Distinct(s)
    ensures |Elements(s)| == |s|
  {
    if |s| > 0 {
      var b := s[..|s| - 1];
      DistinctSize(b);
      assert s == b + [s[|s| - 1]];
      assert Elements(s) == Elements(b) + {s[|s| - 1]};
    }
  }
}
