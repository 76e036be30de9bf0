/**
 * python/longest_increasing_subsequence.py: the length of the longest
 * strictly increasing subsequence, computed two ways. The fast version keeps
 * `longest`, whose entry `l` is the smallest value that ends an increasing
 * subsequence of length `l + 1` seen so far, and places each new value with
 * a binary search; the quadratic version fills a table of the longest
 * subsequence starting at each position. Both are shown to compute the
 * length of the longest chain, so they agree.
 */
module LongestIncreasing {
  import opened Wrappers
  import opened MinMax

  // ---------------------------------------------------------------------------
  // Increasing subsequences
  // ---------------------------------------------------------------------------

  /** `idx` lists positions of `arr` in increasing order whose values strictly increase. */
  predicate Chain(arr: seq<int>, idx: seq<int>)
  {
    && (forall a :: 0 <= a < |idx| ==> 0 <= idx[a] < |arr|)
    && (forall a, b :: 0 <= a < b < |idx| ==> idx[a] < idx[b] && arr[idx[a]] < arr[idx[b]])
  }

  /** `m` is the length of the longest increasing subsequence of `arr`. */
  ghost predicate IsLongest(arr: seq<int>, m: int)
  {
    && (exists idx :: Chain(arr, idx) && |idx| == m)
    && (forall idx :: Chain(arr, idx) ==> |idx| <= m)
  }

  /** There is only one longest length. */
  lemma LongestUnique(arr: seq<int>, m1: int, m2: int)
    requires IsLongest(arr, m1) && IsLongest(arr, m2)
    ensures m1 == m2
  {
    var c1 :| Chain(arr, c1) && |c1| == m1;
    var c2 :| Chain(arr, c2) && |c2| == m2;
  }

  /** A chain's `a`-th position is at least `a`. */
  lemma {:induction false} ChainSpread(arr: seq<int>, idx: seq<int>, a: int)
    requires Chain(arr, idx) && 0 <= a < |idx|
    ensures idx[a] >= a
  {
    if a > 0 {
      ChainSpread(arr, idx, a - 1);
    }
  }

  /** A non-empty list has a longest increasing subsequence of length between 1 and its length. */
  lemma LongestBounds(arr: seq<int>, m: int)
    requires |arr| >= 1 && IsLongest(arr, m)
    ensures 1 <= m <= |arr|
  {
    assert Chain(arr, [0]);
    var c :| Chain(arr, c) && |c| == m;
    if m > 0 {
      ChainSpread(arr, c, m - 1);
    }
  }

  // ---------------------------------------------------------------------------
  // replace_element
  // ---------------------------------------------------------------------------

  predicate Sorted(s: seq<int>)
  {
    forall a, b :: 0 <= a < b < |s| ==> s[a] <= s[b]
  }

  predicate Increasing(s: seq<int>)
  {
    forall a, b :: 0 <= a < b < |s| ==> s[a] < s[b]
  }

  /**
   * `replace_element`: the binary search finds the leftmost position whose
   * value is at least `element` (the last position when there is none) and
   * overwrites it; an empty list fails on the final index.
   */
  method ReplaceElement(sortedArr: seq<int>, element: int) returns (r: Option<seq<int>>, lo: int)
    requires Sorted(sortedArr)
    ensures r.None? <==> |sortedArr| == 0
    ensures r.Some? ==> 0 <= lo < |sortedArr| && r.value == sortedArr[lo := element]
    ensures r.Some? ==> forall x :: 0 <= x < lo ==> sortedArr[x] < element
    ensures r.Some? ==> sortedArr[lo] >= element || lo == |sortedArr| - 1
  {
    lo := 0;
    var hi := |sortedArr| - 1;
    if hi < 0 {
      return None, lo;
    }
    while hi > lo
      invariant 0 <= lo <= hi < |sortedArr|
      invariant forall x :: 0 <= x < lo ==> sortedArr[x] < element
      invariant sortedArr[hi] >= element || hi == |sortedArr| - 1
    {
      var index := lo + (hi - lo) / 2;
      var val := sortedArr[index];
      if val < element {
        lo := index + 1;
      } else {
        hi := index;
      }
    }
    return Some(sortedArr[lo := element]), lo;
  }

  // ---------------------------------------------------------------------------
  // longestIncreasingSubsequence
  // ---------------------------------------------------------------------------

  /** Some increasing subsequence of `s` of length `len` ends with value `v`. */
  ghost predicate EndsWith(s: seq<int>, len: int, v: int)
  {
    exists idx :: len >= 1 && |idx| == len && Chain(s, idx) && s[idx[len - 1]] == v
  }

  /** Every entry `l` of `t` ends some increasing subsequence of `s` of length `l + 1`. */
  ghost predicate Witnessed(s: seq<int>, t: seq<int>)
  {
    forall l :: 0 <= l < |t| ==> EndsWith(s, l + 1, t[l])
  }

  /** The increasing subsequence `idx` is no longer than `t` and ends no lower than the entry for its length. */
  predicate Fits(s: seq<int>, t: seq<int>, idx: seq<int>)
  {
    1 <= |idx| <= |t| && 0 <= idx[|idx| - 1] < |s| && t[|idx| - 1] <= s[idx[|idx| - 1]]
  }

  ghost predicate Bounded(s: seq<int>, t: seq<int>)
  {
    forall idx :: Chain(s, idx) && |idx| >= 1 ==> Fits(s, t, idx)
  }

  /**
   * The loop invariant of `longest` over the prefix `s`: entry `l` is the
   * smallest value that ends an increasing subsequence of length `l + 1`,
   * and no increasing subsequence is longer than `longest`.
   */
  ghost predicate Tails(s: seq<int>, t: seq<int>)
  {
    Increasing(t) && Witnessed(s, t) && Bounded(s, t)
  }

  /** `longest` after value `v` is placed at position `p`: appended at the end or overwriting. */
  function Placed(t: seq<int>, v: int, p: int): seq<int>
    requires 0 <= p <= |t|
  {
    if p == |t| then t + [v] else t[p := v]
  }

  /** One iteration of the loop: append a value above the last entry, otherwise replace. */
  method Place(longest: seq<int>, val: int) returns (longest': seq<int>, p: int)
    requires |longest| >= 1 && Increasing(longest)
    ensures 0 <= p <= |longest| && longest' == Placed(longest, val, p)
    ensures |longest'| == if val > longest[|longest| - 1] then |longest| + 1 else |longest|
    ensures forall x :: 0 <= x < p ==> longest[x] < val
    ensures p < |longest| ==> val <= longest[p]
    ensures Increasing(longest')
  {
    if val > longest[|longest| - 1] {
      longest', p := longest + [val], |longest|;
    } else {
      var r;
      r, p := ReplaceElement(longest, val);
      longest' := r.value;
    }
  }

  /** The first value alone. */
  lemma TailsFirst(v: int)
    ensures Tails([v], [v])
  {
    assert Chain([v], [0]);
    forall idx | Chain([v], idx) && |idx| >= 1
      ensures Fits([v], [v], idx)
    {
      ChainSpread([v], idx, |idx| - 1);
    }
  }

  /** Placing the next value keeps the invariant. */
  lemma TailsStep(s: seq<int>, v: int, t: seq<int>, p: int)
    requires Tails(s, t) && 0 <= p <= |t|
    requires (forall x :: 0 <= x < p ==> t[x] < v) && (p < |t| ==> v <= t[p])
    ensures Tails(s + [v], Placed(t, v, p))
  {
    var t' := Placed(t, v, p);
    PlacedIncreasing(t, v, p);
    forall l | 0 <= l < |t'|
      ensures EndsWith(s + [v], l + 1, t'[l])
    {
      PlacedEnds(s, v, t, p, l);
    }
    forall idx | Chain(s + [v], idx) && |idx| >= 1
      ensures Fits(s + [v], t', idx)
    {
      PlacedBound(s, v, t, p, idx);
    }
  }

  /** Placing keeps `longest` increasing. */
  lemma PlacedIncreasing(t: seq<int>, v: int, p: int)
    requires Increasing(t) && 0 <= p <= |t|
    requires (forall x :: 0 <= x < p ==> t[x] < v) && (p < |t| ==> v <= t[p])
    ensures Increasing(Placed(t, v, p))
  {
  }

  /** A chain of `s` is a chain of `s + [v]`, ending on the same value. */
  lemma ChainGrows(s: seq<int>, v: int, idx: seq<int>)
    requires Chain(s, idx)
    ensures Chain(s + [v], idx)
    ensures forall a :: 0 <= a < |idx| ==> (s + [v])[idx[a]] == s[idx[a]]
  {
  }

  /** Entry `l` after placing still ends an increasing subsequence of length `l + 1`. */
  lemma {:induction false} PlacedEnds(s: seq<int>, v: int, t: seq<int>, p: int, l: int)
    requires Witnessed(s, t) && 0 <= p <= |t|
    requires (forall x :: 0 <= x < p ==> t[x] < v)
    requires 0 <= l < |Placed(t, v, p)|
    ensures EndsWith(s + [v], l + 1, Placed(t, v, p)[l])
  {
    if l != p {
      assert Placed(t, v, p)[l] == t[l];
      EndsGrow(s, v, l + 1, t[l]);
    } else if p == 0 {
      assert Chain(s + [v], [|s|]);
      assert (s + [v])[|s|] == v;
    } else {
      EndsExtend(s, v, p, t[p - 1]);
    }
  }

  /** What ends an increasing subsequence of `s` still does in `s + [v]`. */
  lemma EndsGrow(s: seq<int>, v: int, len: int, x: int)
    requires EndsWith(s, len, x)
    ensures EndsWith(s + [v], len, x)
  {
    var idx :| len >= 1 && |idx| == len && Chain(s, idx) && s[idx[len - 1]] == x;
    ChainGrows(s, v, idx);
    assert (s + [v])[idx[len - 1]] == x;
  }

  /** An increasing subsequence ending below `v` grows by one when `v` is appended. */
  lemma EndsExtend(s: seq<int>, v: int, len: int, x: int)
    requires EndsWith(s, len, x) && x < v
    ensures EndsWith(s + [v], len + 1, v)
  {
    var idx :| len >= 1 && |idx| == len && Chain(s, idx) && s[idx[len - 1]] == x;
    var idx' := idx + [|s|];
    Append(s, v, idx);
    assert (s + [v])[idx'[len]] == v;
  }

  /** A chain of `s` ending below `v` extends by the new position. */
  lemma Append(s: seq<int>, v: int, idx: seq<int>)
    requires Chain(s, idx) && |idx| >= 1 && s[idx[|idx| - 1]] < v
    ensures Chain(s + [v], idx + [|s|])
  {
    var s', idx' := s + [v], idx + [|s|];
    forall a, b | 0 <= a < b < |idx'|
      ensures idx'[a] < idx'[b] && s'[idx'[a]] < s'[idx'[b]]
    {
      if b == |idx| && a < |idx| - 1 {
        assert s[idx[a]] < s[idx[|idx| - 1]];
      }
    }
  }

  /** A chain of `s + [v]` that does not use the new position is a chain of `s`. */
  lemma ChainShrinks(s: seq<int>, v: int, idx: seq<int>)
    requires Chain(s + [v], idx) && |idx| >= 1 && idx[|idx| - 1] < |s|
    ensures Chain(s, idx)
  {
    forall a | 0 <= a < |idx|
      ensures idx[a] < |s|
    {
      if a < |idx| - 1 {
        assert idx[a] < idx[|idx| - 1];
      }
    }
  }

  /** A chain of `s + [v]` through the new position: all of it but the last is a chain of `s` below `v`. */
  lemma ChainThroughNew(s: seq<int>, v: int, idx: seq<int>)
    requires Chain(s + [v], idx) && |idx| >= 2 && idx[|idx| - 1] == |s|
    ensures Chain(s, idx[..|idx| - 1]) && s[idx[|idx| - 2]] < v
  {
    var pre := idx[..|idx| - 1];
    assert idx[|idx| - 2] < idx[|idx| - 1];
    forall a | 0 <= a < |pre|
      ensures 0 <= pre[a] < |s|
    {
      assert idx[a] < idx[|idx| - 1];
    }
  }

  /** Every chain after placing fits the placed list. */
  lemma PlacedBound(s: seq<int>, v: int, t: seq<int>, p: int, idx: seq<int>)
    requires Increasing(t) && Bounded(s, t) && 0 <= p <= |t|
    requires (forall x :: 0 <= x < p ==> t[x] < v) && (p < |t| ==> v <= t[p])
    requires Chain(s + [v], idx) && |idx| >= 1
    ensures Fits(s + [v], Placed(t, v, p), idx)
  {
    var len := |idx|;
    if idx[len - 1] < |s| {
      ChainShrinks(s, v, idx);
      assert Fits(s, t, idx);
      FitsOld(s, v, t, p, idx);
    } else if len == 1 {
      FitsAlone(s, v, t, p, idx);
    } else {
      ChainThroughNew(s, v, idx);
      var pre := idx[..len - 1];
      assert Fits(s, t, pre);
      FitsThrough(s, v, t, p, idx);
    }
  }

  /** A chain not using the new position fits as before, since entries only decrease. */
  lemma FitsOld(s: seq<int>, v: int, t: seq<int>, p: int, idx: seq<int>)
    requires 0 <= p <= |t| && (p < |t| ==> v <= t[p])
    requires Fits(s, t, idx)
    ensures Fits(s + [v], Placed(t, v, p), idx)
  {
    assert (s + [v])[idx[|idx| - 1]] == s[idx[|idx| - 1]];
  }

  /** The new position alone fits: the first entry is at most `v` after placing. */
  lemma FitsAlone(s: seq<int>, v: int, t: seq<int>, p: int, idx: seq<int>)
    requires 0 <= p <= |t| && (forall x :: 0 <= x < p ==> t[x] < v)
    requires |idx| == 1 && idx[0] == |s|
    ensures Fits(s + [v], Placed(t, v, p), idx)
  {
    assert (s + [v])[idx[0]] == v;
  }

  /** A chain ending at the new position: its earlier part fits `t`, so it fits the placed list. */
  lemma FitsThrough(s: seq<int>, v: int, t: seq<int>, p: int, idx: seq<int>)
    requires Increasing(t) && 0 <= p <= |t|
    requires (forall x :: 0 <= x < p ==> t[x] < v) && (p < |t| ==> v <= t[p])
    requires |idx| >= 2 && idx[|idx| - 1] == |s| && 0 <= idx[|idx| - 2] < |s| && s[idx[|idx| - 2]] < v
    requires Fits(s, t, idx[..|idx| - 1])
    ensures Fits(s + [v], Placed(t, v, p), idx)
  {
    var len := |idx|;
    assert idx[..len - 1][len - 2] == idx[len - 2];
    PlacedAbove(t, v, p, len - 2);
    assert (s + [v])[idx[len - 1]] == v;
  }

  /** An entry below `v` lies before the placing position, and the next entry is at most `v` afterwards. */
  lemma PlacedAbove(t: seq<int>, v: int, p: int, q: int)
    requires Increasing(t) && 0 <= p <= |t|
    requires (forall x :: 0 <= x < p ==> t[x] < v) && (p < |t| ==> v <= t[p])
    requires 0 <= q < |t| && t[q] < v
    ensures q < p && q + 1 < |Placed(t, v, p)| && Placed(t, v, p)[q + 1] <= v
  {
  }

  lemma PrefixSnoc(arr: seq<int>, i: int)
    requires 0 <= i < |arr|
    ensures arr[..i + 1] == arr[..i] + [arr[i]]
  {
  }

  /** At the end, the length of `longest` is the longest length. */
  lemma TailsLongest(arr: seq<int>, t: seq<int>)
    requires Tails(arr, t) && |t| >= 1
    ensures IsLongest(arr, |t|)
  {
    assert EndsWith(arr, |t|, t[|t| - 1]);
    forall idx | Chain(arr, idx)
      ensures |idx| <= |t|
    {
      if |idx| >= 1 {
        assert Fits(arr, t, idx);
      }
    }
  }

  /**
   * `longestIncreasingSubsequence`: fails on an empty list (it reads
   * `arr[0]`); otherwise the length of the longest increasing subsequence.
   */
  method LongestIncreasingSubsequence(arr: seq<int>) returns (r: Result<nat, string>)
    ensures r.Err? <==> |arr| == 0
    ensures r.Ok? ==> IsLongest(arr, r.value) && 1 <= r.value <= |arr|
  {
    if |arr| == 0 {
      return Err("list index out of range");
    }
    var longest := [arr[0]];
    TailsFirst(arr[0]);
    assert arr[..1] == [arr[0]];
    var i := 1;
    while i < |arr|
      invariant 1 <= i <= |arr| && |longest| >= 1 && Tails(arr[..i], longest)
    {
      var val := arr[i];
      var before := longest;
      var p;
      longest, p := Place(longest, val);
      TailsStep(arr[..i], val, before, p);
      PrefixSnoc(arr, i);
      i := i + 1;
    }
    assert arr[..i] == arr;
    TailsLongest(arr, longest);
    LongestBounds(arr, |longest|);
    return Ok(|longest|);
  }

  // ---------------------------------------------------------------------------
  // longest_increasing_subsequence_n_squared
  // ---------------------------------------------------------------------------

  /** The longest increasing subsequence starting at position `i`. */
  function Best(arr: seq<int>, i: int): nat
    requires 0 <= i < |arr|
    decreases |arr| - i, |arr| - i + 1
  {
    1 + Reach(arr, i, |arr|)
  }

  /** The longest `Best(j)` over positions `i < j' < j` whose value is above `arr[i]`, 0 when none. */
  function Reach(arr: seq<int>, i: int, j: int): nat
    requires 0 <= i < j <= |arr|
    decreases |arr| - i, j - i
  {
    if j == i + 1 then 0
    else Max(Reach(arr, i, j - 1), if arr[j - 1] > arr[i] then Best(arr, j - 1) else 0)
  }

  /** Every later, larger position bounds `Reach` from below. */
  lemma {:induction false} ReachCovers(arr: seq<int>, i: int, j: int, x: int)
    requires 0 <= i < x < j <= |arr| && arr[x] > arr[i]
    ensures Reach(arr, i, j) >= Best(arr, x)
    decreases j
  {
    if x < j - 1 {
      ReachCovers(arr, i, j - 1, x);
    }
  }

  /** A positive `Reach` is attained at some later, larger position. */
  lemma {:induction false} ReachAttained(arr: seq<int>, i: int, j: int) returns (x: int)
    requires 0 <= i < j <= |arr| && Reach(arr, i, j) > 0
    ensures i < x < j && arr[x] > arr[i] && Best(arr, x) == Reach(arr, i, j)
    decreases j
  {
    if arr[j - 1] > arr[i] && Best(arr, j - 1) >= Reach(arr, i, j - 1) {
      x := j - 1;
    } else {
      x := ReachAttained(arr, i, j - 1);
    }
  }

  /**
   * The table's recurrence: `Best(i)` is one more than `Best(j)` for the
   * best later position `j` with a larger value, and 1 when there is none.
   */
  lemma BestRecurrence(arr: seq<int>, i: int)
    requires 0 <= i < |arr|
    ensures forall j :: i < j < |arr| && arr[j] > arr[i] ==> Best(arr, i) >= 1 + Best(arr, j)
    ensures (forall j :: i < j < |arr| ==> arr[j] <= arr[i]) ==> Best(arr, i) == 1
    ensures Best(arr, i) > 1 ==> exists j :: i < j < |arr| && arr[j] > arr[i] && Best(arr, i) == 1 + Best(arr, j)
  {
    forall j | i < j < |arr| && arr[j] > arr[i]
      ensures Best(arr, i) >= 1 + Best(arr, j)
    {
      ReachCovers(arr, i, |arr|, j);
    }
    if Best(arr, i) > 1 {
      var j := ReachAttained(arr, i, |arr|);
    }
  }

  /** A chain starting at `i` of length `Best(i)`. */
  lemma {:induction false} BestChain(arr: seq<int>, i: int) returns (idx: seq<int>)
    requires 0 <= i < |arr|
    ensures Chain(arr, idx) && |idx| == Best(arr, i) && idx[0] == i
    decreases |arr| - i
  {
    if Reach(arr, i, |arr|) == 0 {
      idx := [i];
    } else {
      var x := ReachAttained(arr, i, |arr|);
      var rest := BestChain(arr, x);
      idx := [i] + rest;
      forall a, b | 0 <= a < b < |idx|
        ensures idx[a] < idx[b] && arr[idx[a]] < arr[idx[b]]
      {
        if a == 0 && b > 1 {
          assert rest[0] < rest[b - 1] && arr[rest[0]] < arr[rest[b - 1]];
        }
      }
    }
  }

  /** No chain starting at `idx[0]` is longer than `Best(idx[0])`. */
  lemma {:induction false} BestBounds(arr: seq<int>, idx: seq<int>)
    requires Chain(arr, idx) && |idx| >= 1
    ensures |idx| <= Best(arr, idx[0])
    decreases |idx|
  {
    if |idx| > 1 {
      var rest := idx[1..];
      assert Chain(arr, rest);
      BestBounds(arr, rest);
      ReachCovers(arr, idx[0], |arr|, idx[1]);
    }
  }

  /** The largest `Best` is the longest length. */
  lemma BestLongest(arr: seq<int>, m: int, i: int)
    requires 0 <= i < |arr| && m == Best(arr, i) && forall x :: 0 <= x < |arr| ==> Best(arr, x) <= m
    ensures IsLongest(arr, m)
  {
    var c := BestChain(arr, i);
    forall idx | Chain(arr, idx)
      ensures |idx| <= m
    {
      if |idx| >= 1 {
        BestBounds(arr, idx);
      }
    }
  }

  /** The table: `longest[i]` is the longest increasing subsequence starting at `i`. */
  method Table(arr: seq<int>) returns (longest: seq<int>)
    ensures |longest| == |arr| && forall x :: 0 <= x < |arr| ==> longest[x] == Best(arr, x)
  {
    var n := |arr|;
    longest := seq(n, _ => 1);
    var i := n - 2;
    while i >= 0
      invariant -2 <= i <= n - 2 && |longest| == n
      invariant forall x :: 0 <= x < n && x > i ==> longest[x] == Best(arr, x)
      invariant forall x :: 0 <= x <= i ==> longest[x] == 1
    {
      var j := i + 1;
      while j < n
        invariant i + 1 <= j <= n && |longest| == n
        invariant longest[i] == 1 + Reach(arr, i, j)
        invariant forall x :: i < x < n ==> longest[x] == Best(arr, x)
        invariant forall x :: 0 <= x < i ==> longest[x] == 1
      {
        var newLongest := longest[j] + 1;
        if arr[j] > arr[i] && newLongest > longest[i] {
          longest := longest[i := newLongest];
        }
        j := j + 1;
      }
      i := i - 1;
    }
  }

  /** Python's `max`: the largest entry, and position holding it. */
  method MaxOf(xs: seq<int>) returns (m: int, at: int)
    requires |xs| >= 1
    ensures 0 <= at < |xs| && m == xs[at] && forall x :: 0 <= x < |xs| ==> xs[x] <= m
  {
    m, at := xs[0], 0;
    var i := 1;
    while i < |xs|
      invariant 1 <= i <= |xs| && 0 <= at < i && m == xs[at]
      invariant forall x :: 0 <= x < i ==> xs[x] <= m
    {
      if xs[i] > m {
        m, at := xs[i], i;
      }
      i := i + 1;
    }
  }

  /**
   * `longest_increasing_subsequence_n_squared`: `max` of an empty table
   * fails; otherwise the length of the longest increasing subsequence.
   */
  method LongestIncreasingSubsequenceNSquared(arr: seq<int>) returns (r: Result<nat, string>)
    ensures r.Err? <==> |arr| == 0
    ensures r.Ok? ==> IsLongest(arr, r.value) && 1 <= r.value <= |arr|
  {
    var longest := Table(arr);
    if |longest| == 0 {
      return Err("max() arg is an empty sequence");
    }
    var m, at := MaxOf(longest);
    BestLongest(arr, m, at);
    LongestBounds(arr, m);
    return Ok(m);
  }

  /** The two versions fail on the same lists and otherwise give the same answer. */
  method BothAgree(arr: seq<int>) returns (fast: Result<nat, string>, slow: Result<nat, string>)
    ensures fast.Ok? <==> slow.Ok?
    ensures fast.Ok? ==> fast.value == slow.value
  {
    fast := LongestIncreasingSubsequence(arr);
    slow := LongestIncreasingSubsequenceNSquared(arr);
    if fast.Ok? && slow.Ok? {
      LongestUnique(arr, fast.value, slow.value);
    }
  }
}
