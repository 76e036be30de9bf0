/**
 * The counting logic of `main` in cpp/bit_array.cpp: the sequence
 * a[0] = s, a[i] = (a[i-1] * p + q) mod 2^31 is generated for i < n, every
 * value is marked in a bit set, and the number of marked bits is the answer.
 * The 2^31-bit `bitset` is a set of integers. Console input becomes parameters
 * and the printed count the result.
 */
module BitArray {
  import opened SeqSets

  /** `MOD`: 2^31. */
  const Modulus: nat := 0x8000_0000

  /** The value after `prev`; the product fits in a `long long` when every input is below 2^31. */
  function NextValue(prev: nat, p: nat, q: nat): (v: nat)
    ensures v < Modulus
  {
    (prev * p + q) % Modulus
  }

  /** The first `n` values of the sequence, the first always present. */
  function Generated(n: nat, s: nat, p: nat, q: nat): (a: seq<nat>)
    requires n >= 1
    ensures |a| == n && a[0] == s
    ensures forall i :: 1 <= i < n ==> a[i] < Modulus
    ensures forall i :: 1 <= i < n ==> a[i] == NextValue(a[i - 1], p, q)
  {
    if n == 1 then [s]
    else
      var a := Generated(n - 1, s, p, q);
      a + [NextValue(a[n - 2], p, q)]
  }

  /** A sequence holds at most as many distinct values as it has entries, and at least one if non-empty. */
  lemma {:induction false} DistinctBounds(a: seq<nat>)
    ensures |Elements(a)| <= |a|
    ensures |a| > 0 ==> |Elements(a)| >= 1
  {
    if |a| > 0 {
      var b := a[..|a| - 1];
      DistinctBounds(b);
      assert Elements(a) == Elements(b) + {a[|a| - 1]} by {
        assert a == b + [a[|a| - 1]];
      }
      assert a[0] in Elements(a);
    }
  }

  /**
   * `main`'s count: the number of distinct values among the first `n`
   * generated (the first value is marked even when `n < 2`, so at least one).
   */
  method CountDistinct(n: int, s: nat, p: nat, q: nat) returns (count: nat)
    requires s < Modulus && p < Modulus && q < Modulus
    ensures count == |Elements(Generated(if n < 1 then 1 else n, s, p, q))|
    ensures 1 <= count && (n >= 1 ==> count <= n)
  {
    var seen: set<int> := {s};
    var prev := s;
    var i := 1;
    ghost var a := [s];
    while i < n
      invariant 1 <= i && (n >= 1 ==> i <= n) && (n < 1 ==> i == 1)
      invariant a == Generated(i, s, p, q) && prev == a[i - 1]
      invariant seen == Elements(a)
    {
      var v := NextValue(prev, p, q);
      a := a + [v];
      seen := seen + {v};
      prev := v;
      i := i + 1;
    }
    assert i == if n < 1 then 1 else n;
    count := |seen|;
    DistinctBounds(a);
  }
}
