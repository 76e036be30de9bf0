/**
 * Fraudulent-activity notices: a day's spending triggers a notice when it is
 * at least twice the median of the previous `d` days' spending. The drivers
 * feed every day through the sliding-window median calculator
 * (cpp/MovingMedian.cpp `activityNotifications`,
 * java/fraudulent_activity/Result.java `Result.activityNotifications`).
 */
module ActivityNotifications {
  import opened Wrappers
  import opened MinMax
  import opened SlidingMedian
  import Sorting

  // ---------------------------------------------------------------------------
  // The reference definition
  // ---------------------------------------------------------------------------

  /** Day `i` triggers a notice: at least `d` days precede it and it reaches twice their median. */
  predicate Notice(xs: seq<int>, d: int, i: int)
    requires 1 <= d && 0 <= i < |xs|
  {
    d <= i && xs[i] >= TwiceMedian(xs[i - d..i])
  }

  /** The number of notices among the first `n` days. */
  function NoticesUpTo(xs: seq<int>, d: int, n: nat): (r: nat)
    requires 1 <= d && n <= |xs|
    ensures r <= n
    ensures n <= d ==> r == 0
  {
    if n == 0 then 0
    else NoticesUpTo(xs, d, n - 1) + if Notice(xs, d, n - 1) then 1 else 0
  }

  /** The number of notices over the whole record. */
  function Notices(xs: seq<int>, d: int): nat
    requires 1 <= d
  {
    NoticesUpTo(xs, d, |xs|)
  }

  // ---------------------------------------------------------------------------
  // The circular sample table
  // ---------------------------------------------------------------------------

  /**
   * After the first `i` days, the node values `v` hold the last `min(i, d)`
   * days in circular order: the slots before the rolling index `s` hold the
   * newest days and the slots from `s` on hold the older ones, oldest first.
   */
  predicate WindowHeld(v: seq<int>, xs: seq<int>, i: int, d: int, s: int)
  {
    && 0 <= i <= |xs| && 1 <= d && 0 <= s < d
    && (i < d ==> s == i)
    && |v| == Min(i, d)
    && v == xs[i - s..i] + xs[i - Min(i, d)..i - s]
  }

  /** The table starts empty with the rolling index at 0. */
  lemma WindowEmpty(xs: seq<int>, d: int)
    requires 1 <= d
    ensures WindowHeld([], xs, 0, d, 0)
  {
  }

  /**
   * Adding day `i` keeps the table in circular order: while filling, the day is
   * appended; once full, it overwrites the oldest day at the rolling index.
   */
  lemma WindowStep(v: seq<int>, xs: seq<int>, i: int, d: int, s: int)
    requires WindowHeld(v, xs, i, d, s) && i < |xs|
    ensures |v| == d ==> WindowHeld(v[s := xs[i]], xs, i + 1, d, (s + 1) % d)
    ensures |v| < d ==> WindowHeld(v + [xs[i]], xs, i + 1, d, (s + 1) % d)
  {
    if |v| < d {
      WindowAppend(v, xs, i, d, s);
    } else if s + 1 < d {
      WindowOverwrite(v, xs, i, d, s);
    } else {
      WindowOverwriteLast(v, xs, i, d, s);
    }
  }

  lemma WindowAppend(v: seq<int>, xs: seq<int>, i: int, d: int, s: int)
    requires WindowHeld(v, xs, i, d, s) && i < |xs| && |v| < d
    ensures WindowHeld(v + [xs[i]], xs, i + 1, d, (s + 1) % d)
  {
    assert i < d && s == i && Min(i, d) == i;
    assert v == xs[0..i];
    NextIndex(s, d);
    if i + 1 < d {
      assert v + [xs[i]] == xs[0..i + 1] + xs[0..0];
    } else {
      assert v + [xs[i]] == xs[i + 1..i + 1] + xs[0..i + 1];
    }
  }

  lemma WindowOverwrite(v: seq<int>, xs: seq<int>, i: int, d: int, s: int)
    requires WindowHeld(v, xs, i, d, s) && i < |xs| && |v| == d && s + 1 < d
    ensures WindowHeld(v[s := xs[i]], xs, i + 1, d, (s + 1) % d)
  {
    assert d <= i && Min(i, d) == d && Min(i + 1, d) == d;
    NextIndex(s, d);
    var newer, older := xs[i - s..i], xs[i - d..i - s];
    assert |newer| == s && |older| == d - s;
    assert v[s := xs[i]] == newer + [xs[i]] + older[1..];
    assert newer + [xs[i]] == xs[i + 1 - (s + 1)..i + 1];
    assert older[1..] == xs[i + 1 - d..i + 1 - (s + 1)];
  }

  lemma WindowOverwriteLast(v: seq<int>, xs: seq<int>, i: int, d: int, s: int)
    requires WindowHeld(v, xs, i, d, s) && i < |xs| && |v| == d && s + 1 == d
    ensures WindowHeld(v[s := xs[i]], xs, i + 1, d, (s + 1) % d)
  {
    assert d <= i && Min(i, d) == d && Min(i + 1, d) == d;
    NextIndex(s, d);
    var newer := xs[i - s..i];
    assert v == newer + [xs[i - d]];
    assert v[s := xs[i]] == newer + [xs[i]];
    assert newer + [xs[i]] == xs[i + 1 - d..i + 1];
  }

  /** The table holds exactly the last `min(i, d)` days, in some order. */
  lemma WindowMultiset(v: seq<int>, xs: seq<int>, i: int, d: int, s: int)
    requires WindowHeld(v, xs, i, d, s)
    ensures multiset(v) == multiset(xs[i - Min(i, d)..i])
  {
    assert xs[i - Min(i, d)..i] == xs[i - Min(i, d)..i - s] + xs[i - s..i];
  }

  /** The median depends only on which values are present, not on their order. */
  lemma TwiceMedianOfPermutation(a: seq<int>, b: seq<int>)
    requires |a| > 0 && multiset(a) == multiset(b)
    ensures |b| == |a| && TwiceMedian(a) == TwiceMedian(b)
  {
    assert |multiset(a)| == |a| && |multiset(b)| == |b|;
    Sorting.SortOfPermutation(a, b);
  }

  // ---------------------------------------------------------------------------
  // The drivers
  // ---------------------------------------------------------------------------

  /**
   * The C++ driver: a window of fewer than one day is rejected by the
   * calculator's constructor; otherwise the count of notices.
   */
  method ActivityNotificationsCpp(xs: seq<int>, d: int) returns (r: Result<nat, MedianError>)
    ensures r.Err? <==> d < 1
    ensures r.Ok? ==> r.value == Notices(xs, d)
  {
    var created := NewCpp(d);
    if created.Err? {
      return Err(created.error);
    }
    var mm := created.value;
    var count: nat := 0;
    WindowEmpty(xs, d);
    for i := 0 to |xs|
      invariant Valid(mm) && mm.maxSamples == d
      invariant WindowHeld(NodeValues(mm.arena), xs, i, d, mm.sampleIndex)
      invariant count == NoticesUpTo(xs, d, i)
    {
      mm, count := DayCpp(mm, xs, i, d, count);
    }
    return Ok(count);
  }

  /**
   * The Java driver: the calculator rejects windows of fewer than two days
   * (its min-heap would have capacity 0); otherwise the count of notices.
   */
  method ActivityNotificationsJava(xs: seq<int>, d: int) returns (r: Result<nat, MedianError>)
    ensures r.Err? <==> d < 2
    ensures r.Ok? ==> r.value == Notices(xs, d)
  {
    var created := NewChecked(d);
    if created.Err? {
      return Err(created.error);
    }
    var mm := created.value;
    var count: nat := 0;
    WindowEmpty(xs, d);
    for i := 0 to |xs|
      invariant Valid(mm) && mm.maxSamples == d
      invariant WindowHeld(NodeValues(mm.arena), xs, i, d, mm.sampleIndex)
      invariant count == NoticesUpTo(xs, d, i)
    {
      mm, count := DayJava(mm, xs, i, d, count);
    }
    return Ok(count);
  }

  /**
   * The C++ test for day `i`: only once `d` samples are held, the day's
   * spending against twice the median read from the calculator.
   */
  function NoticeCpp(mm: MovingMedian, xs: seq<int>, i: int, d: int): (b: bool)
    requires Valid(mm) && d == mm.maxSamples && i < |xs|
    requires WindowHeld(NodeValues(mm.arena), xs, i, d, mm.sampleIndex)
    ensures b == Notice(xs, d, i)
  {
    if WindowFull(mm, xs, i, d) then xs[i] >= TwiceMedianCpp(mm, xs, i, d) else false
  }

  /** The Java test for day `i`: twice the median is the first plus the second median. */
  function NoticeJava(mm: MovingMedian, xs: seq<int>, i: int, d: int): (b: bool)
    requires Valid(mm) && d == mm.maxSamples && i < |xs|
    requires WindowHeld(NodeValues(mm.arena), xs, i, d, mm.sampleIndex)
    ensures b == Notice(xs, d, i)
  {
    if WindowFull(mm, xs, i, d) then xs[i] >= TwiceMedianJava(mm, xs, i, d) else false
  }

  /** The calculator holds `d` samples exactly when `d` days have been seen. */
  function WindowFull(mm: MovingMedian, xs: seq<int>, i: int, d: int): (b: bool)
    requires Valid(mm) && d == mm.maxSamples && i < |xs|
    requires WindowHeld(NodeValues(mm.arena), xs, i, d, mm.sampleIndex)
    ensures b == (d <= i)
  {
    WindowCount(mm, xs, i, d);
    SampleCount(mm) == d
  }

  /** Twice the median as the C++ driver reads it: twice the median of the previous `d` days. */
  function TwiceMedianCpp(mm: MovingMedian, xs: seq<int>, i: int, d: int): (r: int)
    requires Valid(mm) && d == mm.maxSamples && d <= i < |xs|
    requires WindowHeld(NodeValues(mm.arena), xs, i, d, mm.sampleIndex)
    ensures r == TwiceMedian(xs[i - d..i])
  {
    WindowCount(mm, xs, i, d);
    WindowMedian(mm, xs, i, d);
    GetTwiceMedian(mm).value
  }

  /** Twice the median as the Java driver reads it: the first plus the second median. */
  function TwiceMedianJava(mm: MovingMedian, xs: seq<int>, i: int, d: int): (r: int)
    requires Valid(mm) && d == mm.maxSamples && d <= i < |xs|
    requires WindowHeld(NodeValues(mm.arena), xs, i, d, mm.sampleIndex)
    ensures r == TwiceMedian(xs[i - d..i])
  {
    WindowCount(mm, xs, i, d);
    WindowMedian(mm, xs, i, d);
    GetFirstMedian(mm).value + GetSecondMedian(mm).value
  }

  /** One pass of the C++ loop: test day `i` for a notice, then feed it to the calculator. */
  method DayCpp(mm: MovingMedian, xs: seq<int>, i: int, d: int, count: nat) returns (mm': MovingMedian, count': nat)
    requires Valid(mm) && d == mm.maxSamples && i < |xs|
    requires WindowHeld(NodeValues(mm.arena), xs, i, d, mm.sampleIndex)
    requires count == NoticesUpTo(xs, d, i)
    ensures Valid(mm') && mm'.maxSamples == d
    ensures WindowHeld(NodeValues(mm'.arena), xs, i + 1, d, mm'.sampleIndex)
    ensures count' == NoticesUpTo(xs, d, i + 1)
  {
    count' := if NoticeCpp(mm, xs, i, d) then count + 1 else count;
    mm' := AddDay(mm, xs, i, d);
  }

  /** One pass of the Java loop. */
  method DayJava(mm: MovingMedian, xs: seq<int>, i: int, d: int, count: nat) returns (mm': MovingMedian, count': nat)
    requires Valid(mm) && d == mm.maxSamples && i < |xs|
    requires WindowHeld(NodeValues(mm.arena), xs, i, d, mm.sampleIndex)
    requires count == NoticesUpTo(xs, d, i)
    ensures Valid(mm') && mm'.maxSamples == d
    ensures WindowHeld(NodeValues(mm'.arena), xs, i + 1, d, mm'.sampleIndex)
    ensures count' == NoticesUpTo(xs, d, i + 1)
  {
    count' := if NoticeJava(mm, xs, i, d) then count + 1 else count;
    mm' := AddDay(mm, xs, i, d);
  }

  /** Feeds day `i` to the calculator, keeping the table in circular order. */
  method AddDay(mm: MovingMedian, xs: seq<int>, i: int, d: int) returns (mm': MovingMedian)
    requires Valid(mm) && d == mm.maxSamples && i < |xs|
    requires WindowHeld(NodeValues(mm.arena), xs, i, d, mm.sampleIndex)
    ensures Valid(mm') && mm'.maxSamples == d
    ensures WindowHeld(NodeValues(mm'.arena), xs, i + 1, d, mm'.sampleIndex)
  {
    WindowStep(NodeValues(mm.arena), xs, i, d, mm.sampleIndex);
    mm' := Add(mm, xs[i]);
  }

  /** The calculator holds one sample per day seen, up to `d`. */
  lemma WindowCount(mm: MovingMedian, xs: seq<int>, i: int, d: int)
    requires Valid(mm) && WindowHeld(NodeValues(mm.arena), xs, i, d, mm.sampleIndex)
    ensures SampleCount(mm) == Min(i, d)
  {
  }

  /** With a full window, the calculator's median is the median of the previous `d` days. */
  lemma WindowMedian(mm: MovingMedian, xs: seq<int>, i: int, d: int)
    requires Valid(mm) && d == mm.maxSamples && SampleCount(mm) == d
    requires WindowHeld(NodeValues(mm.arena), xs, i, d, mm.sampleIndex) && i < |xs|
    ensures d <= i && |NodeValues(mm.arena)| == d
    ensures TwiceMedian(NodeValues(mm.arena)) == TwiceMedian(xs[i - d..i])
  {
    WindowMultiset(NodeValues(mm.arena), xs, i, d, mm.sampleIndex);
    TwiceMedianOfPermutation(NodeValues(mm.arena), xs[i - d..i]);
  }
}
