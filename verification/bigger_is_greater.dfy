/**
 * `biggerIsGreater` of bigger_is_greater/Solution.cs: the next
 * lexicographic permutation of a word. The pivot is the last position with
 * a greater character somewhere to its right; the smallest such character
 * (the leftmost on ties) moves to the pivot and the rest of the word, from
 * the pivot on, follows in ascending order. Characters compare by code,
 * as `char` does in C#.
 */
module BiggerIsGreater {
  import opened Wrappers

  // ---------------------------------------------------------------------------
  // Order
  // ---------------------------------------------------------------------------

  predicate Ascending(s: seq<char>)
  {
    forall i, j :: 0 <= i < j < |s| ==> s[i] <= s[j]
  }

  /** `a` comes strictly before `b` in dictionary order (both of one length). */
  predicate LexLess(a: seq<char>, b: seq<char>)
    requires |a| == |b|
  {
    exists d :: 0 <= d < |a| && a[..d] == b[..d] && a[d] < b[d]
  }

  predicate LexLeq(a: seq<char>, b: seq<char>)
    requires |a| == |b|
  {
    a == b || LexLess(a, b)
  }

  predicate IsPermutation(a: seq<char>, b: seq<char>)
  {
    multiset(a) == multiset(b)
  }

  /** `Order()` on characters: ascending, a permutation of its input. */
  function SortChars(s: seq<char>): (r: seq<char>)
    ensures Ascending(r) && IsPermutation(r, s) && |r| == |s|
  {
    if |s| == 0 then []
    else
      assert s == [s[0]] + s[1..];
      InsertChar(s[0], SortChars(s[1..]))
  }

  /** Inserts `c` into an ascending word at its place. */
  function InsertChar(c: char, s: seq<char>): (r: seq<char>)
    requires Ascending(s)
    ensures Ascending(r) && multiset(r) == multiset(s) + multiset{c} && |r| == |s| + 1
    decreases |s|, 1
  {
    if s == [] then [c]
    else if c <= s[0] then [c] + s
    else
      var tail := InsertChar(c, s[1..]);
      assert s == [s[0]] + s[1..];
      HeadBelowInsert(c, s);
      [s[0]] + tail
  }

  /** The head of an ascending word stays below everything after inserting a larger `c` into its tail. */
  lemma HeadBelowInsert(c: char, s: seq<char>)
    requires Ascending(s) && s != [] && s[0] < c
    ensures forall k :: 0 <= k < |InsertChar(c, s[1..])| ==> s[0] <= InsertChar(c, s[1..])[k]
    decreases |s|, 0
  {
    var tail := InsertChar(c, s[1..]);
    forall k | 0 <= k < |tail|
      ensures s[0] <= tail[k]
    {
      assert tail[k] in multiset(tail);
      if tail[k] != c {
        assert tail[k] in multiset(s[1..]);
        var j :| 0 <= j < |s[1..]| && s[1..][j] == tail[k];
        assert s[1 + j] == tail[k];
      }
    }
  }

  // ---------------------------------------------------------------------------
  // The algorithm
  // ---------------------------------------------------------------------------

  /** Some character right of `index` is greater than the one at `index`. */
  predicate HasGreaterRight(w: seq<char>, index: int)
    requires 0 <= index < |w|
  {
    exists j :: index < j < |w| && w[j] > w[index]
  }

  /** `j` holds the smallest character greater than `w[index]` to its right, the leftmost of equals. */
  predicate SmallestGreaterRight(w: seq<char>, index: int, j: int)
    requires 0 <= index < |w|
  {
    && index < j < |w| && w[j] > w[index]
    && forall i :: index < i < |w| && w[i] > w[index] ==> w[j] < w[i] || (w[j] == w[i] && j <= i)
  }

  /** `GetNextGreatestCharToRight`: the position of the smallest greater character to the right, if any. */
  method GetNextGreatestCharToRight(w: seq<char>, index: nat) returns (result: Option<nat>)
    requires index < |w|
    ensures result.None? <==> !HasGreaterRight(w, index)
    ensures result.Some? ==> SmallestGreaterRight(w, index, result.value)
  {
    result := None;
    var curChar := w[index];
    var i := index + 1;
    while i < |w|
      invariant index < i <= |w|
      invariant result.None? <==> forall j :: index < j < i ==> w[j] <= curChar
      invariant result.Some? ==> index < result.value < i && w[result.value] > curChar
      invariant result.Some? ==> forall j :: index < j < i && w[j] > curChar ==>
        w[result.value] < w[j] || (w[result.value] == w[j] && result.value <= j)
    {
      var testChar := w[i];
      if testChar > curChar {
        if result.None? || testChar < w[result.value] {
          result := Some(i);
        }
      }
      i := i + 1;
    }
  }

  /** The pivot loop: the last position with a greater character to its right, and that character's position. */
  method FindPivot(w: seq<char>) returns (target: Option<nat>, swap: Option<nat>)
    ensures target.None? <==> forall i :: 0 <= i < |w| ==> !HasGreaterRight(w, i)
    ensures target.Some? ==> target.value < |w| && HasGreaterRight(w, target.value)
    ensures target.Some? ==> forall i :: target.value < i < |w| ==> !HasGreaterRight(w, i)
    ensures target.Some? ==> swap.Some? && SmallestGreaterRight(w, target.value, swap.value)
  {
    target, swap := None, None;
    var i := 0;
    while i < |w|
      invariant 0 <= i <= |w|
      invariant target.None? <==> forall j :: 0 <= j < i ==> !HasGreaterRight(w, j)
      invariant target.Some? ==> target.value < i && HasGreaterRight(w, target.value)
      invariant target.Some? ==> forall j :: target.value < j < i ==> !HasGreaterRight(w, j)
      invariant target.Some? ==> swap.Some? && SmallestGreaterRight(w, target.value, swap.value)
    {
      var next := GetNextGreatestCharToRight(w, i);
      if next.Some? {
        target, swap := Some(i), next;
      }
      i := i + 1;
    }
  }

  /** The answer built around pivot `t` and swapped position `s`: prefix, swapped character, the rest in order. */
  function Compose(w: seq<char>, t: nat, s: nat): (r: seq<char>)
    requires t < s < |w|
    ensures |r| == |w|
  {
    w[..t] + [w[s]] + SortChars(w[t..s] + w[s + 1..])
  }

  /**
   * `biggerIsGreater`: "no answer" when no rearrangement of the word is
   * greater; otherwise the smallest rearrangement greater than the word.
   */
  method BiggerIsGreater(w: seq<char>) returns (r: seq<char>)
    ensures (forall v :: IsPermutation(v, w) && |v| == |w| ==> !LexLess(w, v)) ==> r == "no answer"
    ensures (exists v :: IsPermutation(v, w) && |v| == |w| && LexLess(w, v)) ==> IsNext(w, r)
  {
    var target, swap := FindPivot(w);
    if target.None? || swap.None? {
      NoneGreater(w);
      return "no answer";
    }
    var t, s := target.value, swap.value;
    var prefix := w[..t] + [w[s]];
    var postfix := w[..s] + w[s + 1..];
    assert postfix[t..] == w[t..s] + w[s + 1..];
    r := prefix + SortChars(postfix[t..]);
    assert r == Compose(w, t, s);
    ComposeIsNext(w, t, s);
  }

  /** `r` is the least rearrangement of `w` greater than `w`. */
  ghost predicate IsNext(w: seq<char>, r: seq<char>)
  {
    && |r| == |w| && IsPermutation(r, w) && LexLess(w, r)
    && forall v :: IsPermutation(v, w) && |v| == |w| && LexLess(w, v) ==> LexLeq(r, v)
  }

  // ---------------------------------------------------------------------------
  // Proof that the answer is the next permutation
  // ---------------------------------------------------------------------------

  /** Every character past the first `d` of a rearrangement that keeps those `d` comes from the rest. */
  lemma SameRest(w: seq<char>, v: seq<char>, d: nat)
    requires IsPermutation(v, w) && |v| == |w| && d <= |w| && v[..d] == w[..d]
    ensures multiset(v[d..]) == multiset(w[d..])
  {
    assert w == w[..d] + w[d..];
    assert v == v[..d] + v[d..];
    assert multiset(w) == multiset(w[..d]) + multiset(w[d..]);
    assert multiset(v) == multiset(v[..d]) + multiset(v[d..]);
    assert multiset(v[d..]) == multiset(v) - multiset(v[..d]);
    assert multiset(w[d..]) == multiset(w) - multiset(w[..d]);
  }

  /** A character at position `d` of such a rearrangement is some `w[i]` with `i >= d`. */
  lemma Source(w: seq<char>, v: seq<char>, d: nat) returns (i: nat)
    requires IsPermutation(v, w) && |v| == |w| && d < |w| && v[..d] == w[..d]
    ensures d <= i < |w| && w[i] == v[d]
  {
    SameRest(w, v, d);
    assert v[d] in multiset(v[d..]);
    assert v[d] in w[d..];
    var k :| 0 <= k < |w[d..]| && w[d..][k] == v[d];
    i := d + k;
  }

  /** A greater rearrangement first differs at a position with a greater character to its right. */
  lemma GreaterHasPivot(w: seq<char>, v: seq<char>) returns (d: nat)
    requires IsPermutation(v, w) && |v| == |w| && LexLess(w, v)
    ensures d < |w| && w[..d] == v[..d] && w[d] < v[d] && HasGreaterRight(w, d)
  {
    d :| 0 <= d < |w| && w[..d] == v[..d] && w[d] < v[d];
    var i := Source(w, v, d);
    assert i != d;
  }

  /** A word with no pivot, descending throughout, has no greater rearrangement. */
  lemma NoneGreater(w: seq<char>)
    requires forall i :: 0 <= i < |w| ==> !HasGreaterRight(w, i)
    ensures forall v :: IsPermutation(v, w) && |v| == |w| ==> !LexLess(w, v)
  {
    forall v | IsPermutation(v, w) && |v| == |w|
      ensures !LexLess(w, v)
    {
      if LexLess(w, v) {
        var d := GreaterHasPivot(w, v);
      }
    }
  }

  /** Dictionary order ignores a common prefix. */
  lemma PrefixLeq(p: seq<char>, a: seq<char>, b: seq<char>)
    requires |a| == |b| && LexLeq(a, b)
    ensures LexLeq(p + a, p + b)
  {
    if a != b {
      var d :| 0 <= d < |a| && a[..d] == b[..d] && a[d] < b[d];
      assert (p + a)[..|p| + d] == p + a[..d];
      assert (p + b)[..|p| + d] == p + b[..d];
    }
  }

  /** A word in ascending order comes first among its rearrangements. */
  lemma AscendingFirst(a: seq<char>, b: seq<char>)
    requires Ascending(a) && IsPermutation(b, a) && |a| == |b|
    ensures LexLeq(a, b)
  {
    if a != b {
      var d := FirstDifference(a, b);
      var i := Source(a, b, d);
      assert a[d] <= a[i];
    }
  }

  /** Two different words of one length agree up to some position and differ there. */
  lemma {:induction false} FirstDifference(a: seq<char>, b: seq<char>) returns (d: nat)
    requires |a| == |b| && a != b
    ensures d < |a| && a[..d] == b[..d] && a[d] != b[d]
  {
    if a[0] != b[0] {
      d := 0;
    } else {
      assert a == [a[0]] + a[1..] && b == [b[0]] + b[1..];
      var e := FirstDifference(a[1..], b[1..]);
      d := e + 1;
      assert a[..d] == [a[0]] + a[1..][..e];
      assert b[..d] == [b[0]] + b[1..][..e];
    }
  }

  /** The composed answer is a rearrangement of the word. */
  lemma ComposePermutes(w: seq<char>, t: nat, s: nat)
    requires t < s < |w|
    ensures IsPermutation(Compose(w, t, s), w)
  {
    assert w == w[..t] + w[t..s] + [w[s]] + w[s + 1..];
  }

  /** Around the pivot, the composed answer is the least greater rearrangement. */
  lemma ComposeIsNext(w: seq<char>, t: nat, s: nat)
    requires t < |w| && SmallestGreaterRight(w, t, s)
    requires forall i :: t < i < |w| ==> !HasGreaterRight(w, i)
    ensures IsNext(w, Compose(w, t, s))
  {
    var r := Compose(w, t, s);
    ComposePermutes(w, t, s);
    assert r[..t] == w[..t];
    forall v | IsPermutation(v, w) && |v| == |w| && LexLess(w, v)
      ensures LexLeq(r, v)
    {
      ComposeBelow(w, t, s, v);
    }
  }

  /** The composed answer comes no later than any greater rearrangement `v`. */
  lemma ComposeBelow(w: seq<char>, t: nat, s: nat, v: seq<char>)
    requires t < |w| && SmallestGreaterRight(w, t, s)
    requires forall i :: t < i < |w| ==> !HasGreaterRight(w, i)
    requires IsPermutation(v, w) && |v| == |w| && LexLess(w, v)
    ensures LexLeq(Compose(w, t, s), v)
  {
    var r := Compose(w, t, s);
    var d := GreaterHasPivot(w, v);
    assert r[..t] == w[..t];
    if d < t {
      assert r[..d] == w[..d];
    } else {
      assert d == t;
      var i := Source(w, v, t);
      if r[t] == v[t] {
        SameTail(w, t, s, v);
      } else {
        assert r[..t] == v[..t];
      }
    }
  }

  /** When `v` also puts `w[s]` at the pivot, the ascending rest makes the answer come first. */
  lemma SameTail(w: seq<char>, t: nat, s: nat, v: seq<char>)
    requires t < s < |w| && IsPermutation(v, w) && |v| == |w|
    requires v[..t] == w[..t] && v[t] == w[s]
    ensures LexLeq(Compose(w, t, s), v)
  {
    var rest := w[t..s] + w[s + 1..];
    TailPermutes(w, t, s, v);
    AscendingFirst(SortChars(rest), v[t + 1..]);
    PrefixLeq(w[..t] + [w[s]], SortChars(rest), v[t + 1..]);
    assert v == w[..t] + [w[s]] + v[t + 1..];
  }

  /** After a common prefix and `w[s]`, `v` continues with a rearrangement of the rest of the word. */
  lemma TailPermutes(w: seq<char>, t: nat, s: nat, v: seq<char>)
    requires t < s < |w| && IsPermutation(v, w) && |v| == |w|
    requires v[..t] == w[..t] && v[t] == w[s]
    ensures IsPermutation(v[t + 1..], w[t..s] + w[s + 1..])
  {
    var rest := w[t..s] + w[s + 1..];
    SameRest(w, v, t);
    assert w[t..] == w[t..s] + [w[s]] + w[s + 1..];
    assert multiset(w[t..]) == multiset(rest) + multiset{w[s]};
    assert v[t..] == [v[t]] + v[t + 1..];
    assert multiset(v[t..]) == multiset(v[t + 1..]) + multiset{w[s]};
    assert multiset(v[t + 1..]) == multiset(v[t..]) - multiset{w[s]};
    assert multiset(rest) == multiset(w[t..]) - multiset{w[s]};
  }
}
