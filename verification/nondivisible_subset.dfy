/**
 * `nonDivisibleSubset` of nondivisible_subset/Solution.cs: the size of the
 * largest set of positions of `s` no two of whose values sum to a multiple
 * of `k`. The elements are counted by remainder; of two complementary
 * remainders only the more frequent can be kept, and at most one element of
 * remainder 0 and (for even `k`) of remainder `k/2`.
 */
module NonDivisible {
  import opened Wrappers
  import opened MinMax

  // ---------------------------------------------------------------------------
  // Remainders
  // ---------------------------------------------------------------------------

  /** C#'s `%` for a positive divisor: truncated toward zero, so negative for a negative dividend not divisible by `k`. */
  function CsRem(x: int, k: int): int
    requires k > 0
  {
    if x >= 0 then x % k else -((-x) % k)
  }

  lemma ModUnique(x: int, q: int, r: int, k: int)
    requires k > 0 && x == q * k + r && 0 <= r < k
    ensures x % k == r
  {
    var q', r' := x / k, x % k;
    var d := q - q';
    assert d * k == q * k - q' * k;
    if d >= 1 {
      AtLeastOnce(d, k);
    } else if d <= -1 {
      AtLeastOnce(-d, k);
    }
  }

  lemma AtLeastOnce(d: int, k: int)
    requires d >= 1 && k > 0
    ensures d * k >= k
  {
    assert d * k == (d - 1) * k + k;
  }

  /** Where C#'s remainder is not negative it is the mathematical one. */
  lemma CsRemAgrees(x: int, k: int)
    requires k > 0
    ensures CsRem(x, k) >= 0 <==> x >= 0 || x % k == 0
    ensures CsRem(x, k) >= 0 ==> CsRem(x, k) == x % k
  {
    if x < 0 {
      var q := (-x) / k;
      assert -x == q * k + (-x) % k;
      if (-x) % k == 0 {
        assert x == (-q) * k + 0;
        ModUnique(x, -q, 0, k);
      } else {
        assert x == (-q - 1) * k + (k - (-x) % k);
        ModUnique(x, -q - 1, k - (-x) % k, k);
      }
    }
  }

  /** Two values sum to a multiple of `k` exactly when their remainders sum to 0 or `k`. */
  lemma DivisibleSum(a: int, b: int, k: int)
    requires k > 0
    ensures (a + b) % k == 0 <==> (a % k + b % k == 0 || a % k + b % k == k)
  {
    var ra, rb := a % k, b % k;
    var qa, qb := a / k, b / k;
    assert a == qa * k + ra && b == qb * k + rb;
    if ra + rb < k {
      assert a + b == (qa + qb) * k + (ra + rb);
      ModUnique(a + b, qa + qb, ra + rb, k);
    } else {
      assert a + b == (qa + qb + 1) * k + (ra + rb - k);
      ModUnique(a + b, qa + qb + 1, ra + rb - k, k);
    }
  }

  // ---------------------------------------------------------------------------
  // What the answer means
  // ---------------------------------------------------------------------------

  /** `t` is a set of positions of `s` no two of whose values sum to a multiple of `k`. */
  ghost predicate NonDivisibleSet(s: seq<int>, k: int, t: set<int>)
    requires k > 0
  {
    && (forall x :: x in t ==> 0 <= x < |s|)
    && forall x, y :: x in t && y in t && x != y ==> (s[x] + s[y]) % k != 0
  }

  /** `m` is the size of the largest such set. */
  ghost predicate Largest(s: seq<int>, k: int, m: int)
    requires k > 0
  {
    && (exists t :: NonDivisibleSet(s, k, t) && |t| == m)
    && forall t :: NonDivisibleSet(s, k, t) ==> |t| <= m
  }

  /** The remainder of every value. */
  function Remainders(s: seq<int>, k: int): (rs: seq<int>)
    requires k > 0
    ensures |rs| == |s| && forall x :: 0 <= x < |s| ==> rs[x] == s[x] % k
  {
    seq(|s|, x requires 0 <= x < |s| => s[x] % k)
  }

  /** Positions in `t` whose remainders never sum to 0 or `k`: the same sets as `NonDivisibleSet`, stated on remainders. */
  ghost predicate Fine(rs: seq<int>, k: int, t: set<int>)
  {
    && (forall x :: x in t ==> 0 <= x < |rs|)
    && forall x, y :: x in t && y in t && x != y ==> rs[x] + rs[y] != 0 && rs[x] + rs[y] != k
  }

  lemma FineIsNonDivisible(s: seq<int>, k: int, t: set<int>)
    requires k > 0
    ensures NonDivisibleSet(s, k, t) <==> Fine(Remainders(s, k), k, t)
  {
    var rs := Remainders(s, k);
    if forall x :: x in t ==> 0 <= x < |s| {
      forall x, y | x in t && y in t && x != y
        ensures (s[x] + s[y]) % k == 0 <==> rs[x] + rs[y] == 0 || rs[x] + rs[y] == k
      {
        DivisibleSum(s[x], s[y], k);
      }
    }
  }

  /** The positions among the first `n` whose remainder is `r`. */
  function ClassUpTo(rs: seq<int>, n: int, r: int): set<int>
    requires 0 <= n <= |rs|
  {
    set x | 0 <= x < n && rs[x] == r
  }

  function Class(rs: seq<int>, r: int): set<int>
  {
    ClassUpTo(rs, |rs|, r)
  }

  /** `remainderCount`: how many values have each remainder. */
  function Counts(s: seq<int>, k: int): (c: seq<nat>)
    requires k > 0
    ensures |c| == k
  {
    Sizes(Remainders(s, k), k)
  }

  /** The pair loop from pair `(i, j)` on: the larger class of each complementary pair. */
  function PairSum(c: seq<nat>, i: int, j: int): nat
    requires 0 <= i && j < |c|
    decreases j - i
  {
    if i < j then Max(c[i], c[j]) + PairSum(c, i + 1, j - 1) else 0
  }

  /** For even `k`, at most one value of remainder `k/2`. */
  function Half(c: seq<nat>, k: int): nat
    requires k == |c| > 0
  {
    if k % 2 == 0 then Min(1, c[k / 2]) else 0
  }

  /** What the source computes from the counts once `k >= 2`. */
  function Answer(c: seq<nat>, k: int): nat
    requires k == |c| >= 2
  {
    PairSum(c, 1, k - 1) + Half(c, k) + Min(1, c[0])
  }

  // ---------------------------------------------------------------------------
  // The algorithm
  // ---------------------------------------------------------------------------

  /**
   * `nonDivisibleSubset`: 1 for fewer than two values or `k == 1`; an
   * exception when `k` is not positive or some value leaves a negative
   * remainder; otherwise the size of the largest non-divisible set.
   */
  method NonDivisibleSubset(k: int, s: seq<int>) returns (res: Result<int, string>)
    ensures res.Err? <==> |s| >= 2 && k != 1 && (k <= 0 || exists x :: 0 <= x < |s| && CsRem(s[x], k) < 0)
    ensures res.Ok? && (|s| < 2 || k == 1) ==> res.value == 1
    ensures res.Ok? && |s| >= 1 && k >= 1 ==> Largest(s, k, res.value)
  {
    if |s| < 2 || k == 1 {
      if |s| >= 1 && k >= 1 {
        OneIsLargest(s, k);
      }
      return Ok(1);
    }
    if k < 0 {
      return Err("count is less than zero");
    }
    if k == 0 {
      return Err("Attempted to divide by zero.");
    }
    var counts := CountRemainders(s, k);
    if counts.None? {
      return Err("Index was out of range.");
    }
    var remainderCount := counts.value;
    var result := 0;
    var i, j := 1, k - 1;
    while j > i
      invariant 1 <= i && i + j == k && i <= j + 1
      invariant result + PairSum(remainderCount, i, j) == PairSum(remainderCount, 1, k - 1)
    {
      result := result + Max(remainderCount[i], remainderCount[j]);
      i, j := i + 1, j - 1;
    }
    if k % 2 == 0 {
      result := result + Min(1, remainderCount[k / 2]);
    }
    result := result + Min(1, remainderCount[0]);
    AnswerIsLargest(s, k);
    return Ok(result);
  }

  /** The counting loop: `None` where C# would index with a negative remainder. */
  method CountRemainders(s: seq<int>, k: int) returns (counts: Option<seq<nat>>)
    requires k >= 2
    ensures counts.None? <==> exists x :: 0 <= x < |s| && CsRem(s[x], k) < 0
    ensures counts.Some? ==> counts.value == Counts(s, k)
  {
    ghost var rs := Remainders(s, k);
    var c := seq(k, _ => 0);
    var n := 0;
    while n < |s|
      invariant 0 <= n <= |s| && |c| == k
      invariant forall x :: 0 <= x < n ==> CsRem(s[x], k) >= 0
      invariant forall r :: 0 <= r < k ==> c[r] == |ClassUpTo(rs, n, r)|
    {
      var remainder := CsRem(s[n], k);
      if remainder < 0 {
        return None;
      }
      CsRemAgrees(s[n], k);
      Tally(rs, k, n, c);
      c := c[remainder := c[remainder] + 1];
      n := n + 1;
    }
    assert c == Sizes(rs, k);
    return Some(c);
  }

  /** One more position joins the class of its remainder and no other. */
  lemma ClassStep(rs: seq<int>, n: int, r: int)
    requires 0 <= n < |rs| && rs[n] == r
    ensures forall q :: ClassUpTo(rs, n + 1, q) == ClassUpTo(rs, n, q) + (if q == r then {n} else {})
  {
  }

  /** Counting position `n` under its remainder keeps the counts equal to the class sizes. */
  lemma Tally(rs: seq<int>, k: int, n: int, c: seq<nat>)
    requires 0 <= n < |rs| && 0 <= rs[n] < k == |c|
    requires forall r :: 0 <= r < k ==> c[r] == |ClassUpTo(rs, n, r)|
    ensures var c' := c[rs[n] := c[rs[n]] + 1]; forall r :: 0 <= r < k ==> c'[r] == |ClassUpTo(rs, n + 1, r)|
  {
    ClassStep(rs, n, rs[n]);
  }

  // ---------------------------------------------------------------------------
  // Proof that the answer is the largest
  // ---------------------------------------------------------------------------

  /** A member of a non-empty set of positions below `n`, found by counting down. */
  lemma {:induction false} Find(u: set<int>, n: int) returns (x: int)
    requires u != {} && forall z :: z in u ==> 0 <= z < n
    ensures x in u
    decreases n
  {
    if n - 1 in u {
      x := n - 1;
    } else if n > 0 {
      x := Find(u, n - 1);
    } else {
      var none: set<int> := {};
      assert forall z :: z in u <==> z in none;
    }
  }

  /** Two different members of a set of at least two positions below `n`. */
  lemma TwoMembers(t: set<int>, n: int) returns (x: int, y: int)
    requires |t| >= 2 && forall z :: z in t ==> 0 <= z < n
    ensures x in t && y in t && x != y
  {
    x := Find(t, n);
    assert |t - {x}| == |t| - 1;
    y := Find(t - {x}, n);
  }

  /** With one value, or with `k == 1`, one position is the best there is. */
  lemma OneIsLargest(s: seq<int>, k: int)
    requires |s| >= 1 && k >= 1 && (|s| < 2 || k == 1)
    ensures Largest(s, k, 1)
  {
    assert NonDivisibleSet(s, k, {0});
    forall t | NonDivisibleSet(s, k, t)
      ensures |t| <= 1
    {
      if |t| >= 2 {
        var x, y := TwoMembers(t, |s|);
      }
    }
  }

  /** The positions of `t` whose remainders lie between `i` and `j`. */
  function Part(rs: seq<int>, t: set<int>, i: int, j: int): set<int>
  {
    set x | x in t && 0 <= x < |rs| && i <= rs[x] <= j
  }

  /** The answer is largest: no non-divisible set beats it, and one reaches it. */
  lemma AnswerIsLargest(s: seq<int>, k: int)
    requires k >= 2
    ensures Largest(s, k, Answer(Counts(s, k), k))
  {
    var rs := Remainders(s, k);
    var w := Witness(rs, k);
    FineIsNonDivisible(s, k, w);
    forall t | NonDivisibleSet(s, k, t)
      ensures |t| <= Answer(Counts(s, k), k)
    {
      FineIsNonDivisible(s, k, t);
      UpperBound(rs, k, t);
    }
  }

  /** Remainders below `k`: what `Remainders` produces. */
  predicate Below(rs: seq<int>, k: int)
  {
    forall x :: 0 <= x < |rs| ==> 0 <= rs[x] < k
  }

  /** The class sizes of remainder sequence `rs`. */
  function Sizes(rs: seq<int>, k: nat): (c: seq<nat>)
    ensures |c| == k
  {
    seq(k, r => |Class(rs, r)|)
  }

  // Set sizes

  lemma SubsetSize(a: set<int>, b: set<int>)
    requires a <= b
    ensures |a| <= |b|
  {
    assert b == a + (b - a);
  }

  /** Sets with no common member: the union's size is the sum. */
  lemma DisjointSize(a: set<int>, b: set<int>)
    requires forall x :: x in a ==> x !in b
    ensures |a + b| == |a| + |b|
  {
    var none: set<int> := {};
    assert forall x :: x in a * b <==> x in none;
    assert a * b == none;
  }

  /** The sizes of a union of two, at least one of them empty, and a third set. */
  lemma PairSize(left: set<int>, right: set<int>, inner: set<int>, cl: set<int>, cr: set<int>)
    requires left <= cl && right <= cr && (left == {} || right == {})
    ensures |left + right + inner| <= Max(|cl|, |cr|) + |inner|
  {
    SubsetSize(left, cl);
    SubsetSize(right, cr);
    if left == {} {
      assert left + right == right;
    } else {
      assert left + right == left;
    }
  }

  /** A set with at most one member. */
  lemma SingleSize(u: set<int>, c: set<int>, n: int)
    requires u <= c && (forall z :: z in u ==> 0 <= z < n) && forall x, y :: x in u && y in u ==> x == y
    ensures |u| <= Min(1, |c|)
  {
    SubsetSize(u, c);
    if |u| >= 2 {
      var x, y := TwoMembers(u, n);
    }
  }

  // The upper bound

  /** Any fine set has at most the answer's size. */
  lemma UpperBound(rs: seq<int>, k: int, t: set<int>)
    requires k >= 2 && Below(rs, k) && Fine(rs, k, t)
    ensures |t| <= Answer(Sizes(rs, k), k)
  {
    var c := Sizes(rs, k);
    ZeroAndRest(rs, k, t);
    AtMostOne(rs, k, t, 0);
    BandBound(rs, c, k, t, 1, k - 1);
  }

  /** Every position of a fine set has remainder 0 or one in `1..k-1`. */
  lemma ZeroAndRest(rs: seq<int>, k: int, t: set<int>)
    requires Below(rs, k) && forall x :: x in t ==> 0 <= x < |rs|
    ensures |t| == |Part(rs, t, 0, 0)| + |Part(rs, t, 1, k - 1)|
  {
    assert t == Part(rs, t, 0, 0) + Part(rs, t, 1, k - 1);
    DisjointSize(Part(rs, t, 0, 0), Part(rs, t, 1, k - 1));
  }

  /** A fine set holds at most one position of remainder `r` when `r + r` is 0 or `k`. */
  lemma AtMostOne(rs: seq<int>, k: int, t: set<int>, r: int)
    requires Fine(rs, k, t) && (r == 0 || 2 * r == k)
    ensures |Part(rs, t, r, r)| <= Min(1, |Class(rs, r)|)
  {
    var u := Part(rs, t, r, r);
    forall x, y | x in u && y in u
      ensures x == y
    {
    }
    SingleSize(u, Class(rs, r), |rs|);
  }

  /** Within remainders `i..j`, a fine set takes at most the larger class of each pair. */
  lemma {:induction false} BandBound(rs: seq<int>, c: seq<nat>, k: int, t: set<int>, i: int, j: int)
    requires |c| == k && forall r :: 0 <= r < k ==> c[r] == |Class(rs, r)|
    requires k >= 2 && Fine(rs, k, t) && 1 <= i && i + j == k && i <= j + 1
    ensures |Part(rs, t, i, j)| <= PairSum(c, i, j) + Half(c, k)
    decreases j - i
  {
    if i < j {
      BandBound(rs, c, k, t, i + 1, j - 1);
      PairStep(rs, k, t, i, j);
      assert PairSum(c, i, j) == Max(c[i], c[j]) + PairSum(c, i + 1, j - 1);
    } else if i == j {
      AtMostOne(rs, k, t, i);
      assert k / 2 == i;
    } else {
      var none: set<int> := {};
      assert forall x :: x in Part(rs, t, i, j) <==> x in none;
      assert Part(rs, t, i, j) == none;
    }
  }

  /** The outermost pair of the band adds at most the larger of its two classes. */
  lemma PairStep(rs: seq<int>, k: int, t: set<int>, i: int, j: int)
    requires Fine(rs, k, t) && 1 <= i < j && i + j == k
    ensures |Part(rs, t, i, j)| <= Max(|Class(rs, i)|, |Class(rs, j)|) + |Part(rs, t, i + 1, j - 1)|
  {
    var left, right, inner := Part(rs, t, i, i), Part(rs, t, j, j), Part(rs, t, i + 1, j - 1);
    assert Part(rs, t, i, j) == left + right + inner;
    OneSide(rs, k, t, i, j);
    PairSize(left, right, inner, Class(rs, i), Class(rs, j));
  }

  /** Of two complementary remainders a fine set uses at most one. */
  lemma OneSide(rs: seq<int>, k: int, t: set<int>, i: int, j: int)
    requires Fine(rs, k, t) && i != j && i + j == k
    ensures Part(rs, t, i, i) == {} || Part(rs, t, j, j) == {}
  {
    if Part(rs, t, i, i) != {} && Part(rs, t, j, j) != {} {
      var x := Find(Part(rs, t, i, i), |rs|);
      var y := Find(Part(rs, t, j, j), |rs|);
    }
  }

  // The witness

  /** Remainder `r` is the one kept of the pair `r, k - r`: the more frequent, the smaller on a tie. */
  predicate Keep(c: seq<nat>, r: int, k: int)
    requires 0 < r < k == |c|
  {
    c[r] > c[k - r] || (c[r] == c[k - r] && r < k - r)
  }

  /** The positions in band `i..j` whose remainder is kept, leaving out the middle `k/2`. */
  function Kept(rs: seq<int>, c: seq<nat>, k: int, i: int, j: int): set<int>
    requires |c| == k
  {
    set x | 0 <= x < |rs| && i <= rs[x] <= j && 0 < rs[x] < k && rs[x] + rs[x] != k && Keep(c, rs[x], k)
  }

  /** The kept positions of band `i..j` are the kept class of its outer pair and those of the inner band. */
  lemma KeptSplit(rs: seq<int>, c: seq<nat>, k: int, i: int, j: int)
    requires 1 <= i < j && i + j == k == |c|
    ensures Kept(rs, c, k, i, j) == (if c[i] >= c[j] then Class(rs, i) else Class(rs, j)) + Kept(rs, c, k, i + 1, j - 1)
  {
    var outer := if c[i] >= c[j] then Class(rs, i) else Class(rs, j);
    forall x
      ensures x in Kept(rs, c, k, i, j) <==> x in outer || x in Kept(rs, c, k, i + 1, j - 1)
    {
      if 0 <= x < |rs| && rs[x] == i {
        assert Keep(c, i, k) <==> c[i] >= c[j];
      } else if 0 <= x < |rs| && rs[x] == j {
        assert Keep(c, j, k) <==> c[j] > c[i];
      }
    }
  }

  /** The kept positions are as many as the pair loop counts. */
  lemma {:induction false} KeptSize(rs: seq<int>, c: seq<nat>, k: int, i: int, j: int)
    requires |c| == k && forall r :: 0 <= r < k ==> c[r] == |Class(rs, r)|
    requires 1 <= i && i + j == k && i <= j + 1
    ensures |Kept(rs, c, k, i, j)| == PairSum(c, i, j)
    decreases j - i
  {
    if i < j {
      KeptSize(rs, c, k, i + 1, j - 1);
      KeptStep(rs, c, k, i, j);
    } else {
      var none: set<int> := {};
      assert forall x :: x in Kept(rs, c, k, i, j) <==> x in none;
      assert Kept(rs, c, k, i, j) == none;
    }
  }

  lemma KeptStep(rs: seq<int>, c: seq<nat>, k: int, i: int, j: int)
    requires 1 <= i < j && i + j == k == |c| && c[i] == |Class(rs, i)| && c[j] == |Class(rs, j)|
    requires |Kept(rs, c, k, i + 1, j - 1)| == PairSum(c, i + 1, j - 1)
    ensures |Kept(rs, c, k, i, j)| == PairSum(c, i, j)
  {
    KeptSplit(rs, c, k, i, j);
    var outer := if c[i] >= c[j] then Class(rs, i) else Class(rs, j);
    DisjointSize(outer, Kept(rs, c, k, i + 1, j - 1));
  }

  /** The kept positions form a fine set. */
  lemma KeptFine(rs: seq<int>, c: seq<nat>, k: int)
    requires k >= 2 && |c| == k
    ensures Fine(rs, k, Kept(rs, c, k, 1, k - 1))
  {
  }

  /** Two fine sets whose cross pairs are fine make a fine union. */
  lemma FineUnion(rs: seq<int>, k: int, a: set<int>, b: set<int>)
    requires Fine(rs, k, a) && Fine(rs, k, b)
    requires forall x, y :: x in a && y in b ==> rs[x] + rs[y] != 0 && rs[x] + rs[y] != k
    ensures Fine(rs, k, a + b)
  {
  }

  /** A set reaching the answer: the kept positions and one position of remainder `k/2` and of 0, where there are any. */
  lemma Witness(rs: seq<int>, k: int) returns (w: set<int>)
    requires k >= 2 && Below(rs, k)
    ensures Fine(rs, k, w) && |w| == Answer(Sizes(rs, k), k)
  {
    var c := Sizes(rs, k);
    var pairs := Kept(rs, c, k, 1, k - 1);
    KeptSize(rs, c, k, 1, k - 1);
    KeptFine(rs, c, k);
    var even := k % 2 == 0;
    var half := OneOf(rs, k / 2, even);
    var zero := OneOf(rs, 0, true);
    AddHalf(rs, c, k, pairs, half, even);
    AddZero(rs, c, k, pairs + half, zero);
    w := pairs + half + zero;
  }

  /** Adding at most one position of remainder `k/2` to the kept positions. */
  lemma AddHalf(rs: seq<int>, c: seq<nat>, k: int, pairs: set<int>, half: set<int>, even: bool)
    requires k >= 2 && |c| == k && (even <==> k % 2 == 0) && pairs == Kept(rs, c, k, 1, k - 1) && Fine(rs, k, pairs)
    requires c[k / 2] == |Class(rs, k / 2)|
    requires half <= Class(rs, k / 2) && |half| == if even then Min(1, c[k / 2]) else 0
    ensures Fine(rs, k, pairs + half) && |pairs + half| == |pairs| + Half(c, k)
    ensures forall x :: x in pairs + half ==> 0 <= x < |rs| && 0 < rs[x] < k
  {
    AtMostOneMember(half);
    forall x, y | x in pairs && y in half
      ensures rs[x] + rs[y] != 0 && rs[x] + rs[y] != k
    {
      assert k / 2 + k / 2 == k;
    }
    FineUnion(rs, k, pairs, half);
    DisjointSize(pairs, half);
  }

  /** Adding at most one position of remainder 0. */
  lemma AddZero(rs: seq<int>, c: seq<nat>, k: int, rest: set<int>, zero: set<int>)
    requires k >= 2 && |c| == k && c[0] == |Class(rs, 0)|
    requires Fine(rs, k, rest) && forall x :: x in rest ==> 0 <= x < |rs| && 0 < rs[x] < k
    requires zero <= Class(rs, 0) && |zero| == Min(1, c[0])
    ensures Fine(rs, k, rest + zero) && |rest + zero| == |rest| + Min(1, c[0])
  {
    AtMostOneMember(zero);
    DisjointSize(rest, zero);
  }

  /** A set of at most one member holds no two different ones. */
  lemma AtMostOneMember(u: set<int>)
    requires |u| <= 1
    ensures forall x, y :: x in u && y in u ==> x == y
  {
    forall x, y | x in u && y in u
      ensures x == y
    {
      if x != y {
        SubsetSize({x, y}, u);
      }
    }
  }

  /** One position of remainder `r` when `wanted` and there is one, otherwise none. */
  lemma OneOf(rs: seq<int>, r: int, wanted: bool) returns (u: set<int>)
    ensures u <= Class(rs, r)
    ensures |u| == if wanted then Min(1, |Class(rs, r)|) else 0
  {
    u := {};
    if wanted && Class(rs, r) != {} {
      var h := Find(Class(rs, r), |rs|);
      u := {h};
    }
  }
}
