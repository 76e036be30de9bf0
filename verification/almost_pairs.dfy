/**
 * `pairs` of almost_pairs/Solution.cs: how many elements `x` of the list
 * have `x - k` in the list too. The list goes into a dictionary keyed by
 * the elements, which throws on a repeated element; the dictionary is
 * modelled by the set of elements and its enumeration by the list order.
 */
module AlmostPairs {
  import opened Wrappers
  import opened SeqSets

  /** The elements that have a partner `k` below them. */
  function Paired(arr: seq<int>, k: int): set<int>
  {
    PairedIn(arr, k, Elements(arr))
  }

  /** At most every element pairs, and with `k == 0` every element pairs with itself. */
  lemma PairedBounds(arr: seq<int>, k: int)
    requires Distinct(arr)
    ensures |Paired(arr, k)| <= |arr|
    ensures k == 0 ==> |Paired(arr, k)| == |arr|
  {
    DistinctSize(arr);
    var p, e := Paired(arr, k), Elements(arr);
    assert p * e == p;
    assert |e - p| == |e| - |p|;
    if k == 0 {
      assert forall x :: x in e ==> x in arr && x - k in e;
      assert p == e;
    }
  }

  /** The elements of `xs` whose partner `x - k` is among `keys`. */
  function PairedIn(xs: seq<int>, k: int, keys: set<int>): set<int>
  {
    set x | x in xs && x - k in keys
  }

  lemma PairedInSnoc(xs: seq<int>, x: int, k: int, keys: set<int>)
    ensures PairedIn(xs + [x], k, keys) == PairedIn(xs, k, keys) + (if x - k in keys then {x} else {})
  {
  }

  /**
   * `pairs`: `ToDictionary` throws on a repeated element; otherwise the
   * count of elements `x` with `x - k` present, which is at most the list's
   * length and all of it when `k == 0`.
   */
  method Pairs(k: int, arr: seq<int>) returns (r: Result<nat, string>)
    ensures r.Err? <==> !Distinct(arr)
    ensures r.Ok? ==> r.value == |Paired(arr, k)| && r.value <= |arr|
    ensures r.Ok? && k == 0 ==> r.value == |arr|
  {
    var keys := ToDictionary(arr);
    if keys.None? {
      return Err("An item with the same key has already been added.");
    }
    var result := CountPaired(arr, k, keys.value);
    PairedBounds(arr, k);
    return Ok(result);
  }

  /** `arr.ToDictionary(num => num)`: the key set, or nothing when an element repeats. */
  method ToDictionary(arr: seq<int>) returns (keys: Option<set<int>>)
    ensures keys.None? <==> !Distinct(arr)
    ensures keys.Some? ==> keys.value == Elements(arr)
  {
    var seen: set<int> := {};
    var i := 0;
    while i < |arr|
      invariant 0 <= i <= |arr| && Distinct(arr[..i]) && seen == Elements(arr[..i])
    {
      if arr[i] in seen {
        var j :| 0 <= j < i && arr[j] == arr[i];
        return None;
      }
      assert arr[..i + 1] == arr[..i] + [arr[i]];
      seen := seen + {arr[i]};
      i := i + 1;
    }
    assert arr[..i] == arr;
    return Some(seen);
  }

  /** The loop over the dictionary: one for every key whose partner is a key too. */
  method CountPaired(arr: seq<int>, k: int, keys: set<int>) returns (result: nat)
    requires Distinct(arr)
    ensures result == |PairedIn(arr, k, keys)|
  {
    result := 0;
    var i := 0;
    while i < |arr|
      invariant 0 <= i <= |arr| && result == |PairedIn(arr[..i], k, keys)|
    {
      assert arr[..i + 1] == arr[..i] + [arr[i]];
      PairedInSnoc(arr[..i], arr[i], k, keys);
      if arr[i] - k in keys {
        assert arr[i] !in arr[..i];
        result := result + 1;
      }
      i := i + 1;
    }
    assert arr[..i] == arr;
  }
}
