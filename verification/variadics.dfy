/**
 * `ReverseBits` and `reversed_binary_value` of cpp/variadics.cpp: a list of
 * bits read as a binary number whose first bit is the least significant.
 * The template recursion becomes a recursive function on a non-empty
 * sequence of booleans (an empty list has no specialisation and does not
 * compile).
 */
module Variadics {
  import opened Powers

  function Bit(b: bool): nat
  {
    if b then 1 else 0
  }

  /** `ReverseBits<Bit, BitsToRight...>::value`, with the one-bit specialisation as the base case. */
  function ReverseBits(bits: seq<bool>): (v: nat)
    requires |bits| > 0
    ensures v < Pow2(|bits|)
  {
    if |bits| == 1 then Bit(bits[0])
    else Bit(bits[0]) + 2 * ReverseBits(bits[1..])
  }

  /** The usual reading of a bit list, most significant bit first. */
  function MsbFirst(bits: seq<bool>): (v: nat)
    ensures v < Pow2(|bits|)
  {
    if |bits| == 0 then 0
    else 2 * MsbFirst(bits[..|bits| - 1]) + Bit(bits[|bits| - 1])
  }

  function Reverse(bits: seq<bool>): (r: seq<bool>)
    ensures |r| == |bits|
    ensures forall i :: 0 <= i < |bits| ==> r[i] == bits[|bits| - 1 - i]
  {
    if |bits| == 0 then [] else Reverse(bits[1..]) + [bits[0]]
  }

  /** `reversed_binary_value<digits...>()` is the binary number written by the digits in reverse order. */
  lemma {:induction false} ReversedBinary(bits: seq<bool>)
    requires |bits| > 0
    ensures ReverseBits(bits) == MsbFirst(Reverse(bits))
  {
    var r := Reverse(bits);
    if |bits| == 1 {
      assert r[..0] == [];
    } else {
      ReversedBinary(bits[1..]);
      assert r[..|r| - 1] == Reverse(bits[1..]);
    }
  }

  /** The first bit is the least significant: it decides the parity. */
  lemma {:induction false} FirstBitParity(bits: seq<bool>)
    requires |bits| > 0
    ensures ReverseBits(bits) % 2 == Bit(bits[0])
  {
    if |bits| > 1 {
      EvenPlus(Bit(bits[0]), ReverseBits(bits[1..]));
    }
  }

  lemma EvenPlus(b: nat, high: nat)
    requires b < 2
    ensures (b + 2 * high) % 2 == b
  {
  }

  /** A single bit evaluates to itself. */
  lemma SingleBit(b: bool)
    ensures ReverseBits([b]) == Bit(b)
  {
  }

  /** The example of the source's comment: the digits 1, 0, 1, 1 give 13. */
  lemma Thirteen()
    ensures ReverseBits([true, false, true, true]) == 13
  {
    assert [true, false, true, true][1..] == [false, true, true];
    assert [false, true, true][1..] == [true, true];
    assert [true, true][1..] == [true];
  }
}
