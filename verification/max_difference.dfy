/**
 * `get_max_difference` of python/max_difference.py: the largest
 * `numbers[j] - numbers[i]` with `i < j`, or 0 when no later number exceeds
 * an earlier one. One pass keeps the minimum seen so far. Only integers are
 * modelled; the source also admits floats.
 */
module MaxDifference {
  import opened Wrappers

  /** `m` is the smallest of the first `k` numbers. */
  predicate PrefixMin(numbers: seq<int>, k: int, m: int)
    requires 0 < k <= |numbers|
  {
    (forall j :: 0 <= j < k ==> m <= numbers[j]) && (exists j :: 0 <= j < k && numbers[j] == m)
  }

  /** No later-minus-earlier difference among the first `k` numbers exceeds `d`. */
  predicate Bounds(numbers: seq<int>, k: int, d: int)
    requires 0 <= k <= |numbers|
  {
    forall i, j :: 0 <= i < j < k ==> numbers[j] - numbers[i] <= d
  }

  /** `d` is 0 or some later-minus-earlier difference among the first `k` numbers. */
  predicate Attained(numbers: seq<int>, k: int, d: int)
    requires 0 <= k <= |numbers|
  {
    d == 0 || exists i, j :: 0 <= i < j < k && numbers[j] - numbers[i] == d
  }

  /**
   * `get_max_difference`: `ValueError` on an empty list; otherwise the
   * maximum of 0 and every later-minus-earlier difference.
   */
  method GetMaxDifference(numbers: seq<int>) returns (r: Result<int, string>)
    ensures r.Err? <==> numbers == []
    ensures r.Ok? ==> r.value >= 0 && Bounds(numbers, |numbers|, r.value) && Attained(numbers, |numbers|, r.value)
  {
    if |numbers| == 0 {
      return Err("no numbers provided!");
    }
    var best := numbers[0] - numbers[0];
    var minNumber: Option<int> := None;
    var k := 0;
    while k < |numbers|
      invariant 0 <= k <= |numbers|
      invariant minNumber.None? <==> k == 0
      invariant minNumber.Some? ==> PrefixMin(numbers, k, minNumber.value)
      invariant best >= 0 && Bounds(numbers, k, best) && Attained(numbers, k, best)
    {
      var number := numbers[k];
      if minNumber.None? {
        minNumber := Some(number);
      } else {
        best := Stretch(numbers, k, best, minNumber.value);
        minNumber := Some(if minNumber.value <= number then minNumber.value else number);
      }
      k := k + 1;
    }
    return Ok(best);
  }

  /** One step of the loop: the best difference so far against `number - minimum`. */
  method Stretch(numbers: seq<int>, k: int, best: int, minimum: int) returns (best': int)
    requires 0 < k < |numbers| && PrefixMin(numbers, k, minimum)
    requires best >= 0 && Bounds(numbers, k, best) && Attained(numbers, k, best)
    ensures best' >= 0 && Bounds(numbers, k + 1, best') && Attained(numbers, k + 1, best')
  {
    var difference := numbers[k] - minimum;
    best' := if best >= difference then best else difference;
    var j :| 0 <= j < k && numbers[j] == minimum;
    if best < difference {
      assert numbers[k] - numbers[j] == best';
    }
  }
}
