/**
 * The moving-average noise floor of noise_peak_finding: every entry of the signal is
 * replaced by the ceiling of the mean of a window around it.
 */
module Smoothing {
  import opened Arithmetic

  /**
   * The inputs on which the smoothing divides by a non-zero length: a non-empty signal
   * with a positive window, or an empty signal with a window that is not positive
   * (an empty signal with a positive window divides sum([]) by len([]) == 0, and a
   * window below 1 on a non-empty signal makes an empty slice).
   */
  predicate SmoothingDefined(n: int, windowSize: int) {
    (n == 0 && windowSize <= 0) || (n >= 1 && windowSize >= 1)
  }

  /**
   * The window [begin, end) of entry i in a signal of n entries, with
   * lower == floor(w / 2) and upper == ceil(w / 2): centred in the interior,
   * cut at 0 near the start and at n near the end.
   */
  function Window(n: int, windowSize: int, i: int): (bounds: (int, int))
    requires 1 <= windowSize <= n && 0 <= i < n
    ensures 0 <= bounds.0 <= i < bounds.1 <= n
    ensures bounds.1 - bounds.0 <= windowSize
    ensures windowSize / 2 <= i < n - CeilDiv(windowSize, 2) ==> bounds.1 - bounds.0 == windowSize
  {
    var lower, upper := windowSize / 2, CeilDiv(windowSize, 2);
    assert lower + upper == windowSize;
    if lower <= i < n - upper then (i - lower, i + upper)
    else if i < upper then (0, i + upper)
    else (i - lower, n)
  }

  /** Ceiling of the mean of the entries in the window of entry i. */
  function WindowAverage(signal: seq<int>, windowSize: int, i: int): int
    requires 1 <= windowSize <= |signal| && 0 <= i < |signal|
  {
    var (begin, end) := Window(|signal|, windowSize, i);
    CeilDiv(Sum(signal[begin..end]), end - begin)
  }

  /** The smoothed signal: flat when the signal is shorter than the window, windowed otherwise. */
  function Smoothed(signal: seq<int>, windowSize: int): (r: seq<int>)
    requires SmoothingDefined(|signal|, windowSize)
    ensures |r| == |signal|
  {
    if |signal| < windowSize then
      seq(|signal|, _ => CeilDiv(Sum(signal), |signal|))
    else
      seq(|signal|, i requires 0 <= i < |signal| => WindowAverage(signal, windowSize, i))
  }

  function Max(s: seq<int>): (m: int)
    requires |s| > 0
    ensures m in s && forall k :: 0 <= k < |s| ==> s[k] <= m
  {
    if |s| == 1 then s[0]
    else
      var m := Max(s[..|s| - 1]);
      if s[|s| - 1] > m then s[|s| - 1] else m
  }

  function Min(s: seq<int>): (m: int)
    requires |s| > 0
    ensures m in s && forall k :: 0 <= k < |s| ==> m <= s[k]
  {
    if |s| == 1 then s[0]
    else
      var m := Min(s[..|s| - 1]);
      if s[|s| - 1] < m then s[|s| - 1] else m
  }

  /** A sum of n entries lies between n times their least and n times their largest. */
  lemma {:induction false} SumBounds(s: seq<int>, lo: int, hi: int)
    requires forall k :: 0 <= k < |s| ==> lo <= s[k] <= hi
    ensures |s| * lo <= Sum(s) <= |s| * hi
  {
    if s != [] {
      SumBounds(s[..|s| - 1], lo, hi);
      assert |s| * lo == (|s| - 1) * lo + lo;
      assert |s| * hi == (|s| - 1) * hi + hi;
    }
  }

  /** The ceiling of a mean never leaves the range of the values averaged. */
  lemma CeilMeanBounds(s: seq<int>)
    requires |s| > 0
    ensures Min(s) <= CeilDiv(Sum(s), |s|) <= Max(s)
  {
    var n, total, lo, hi := |s|, Sum(s), Min(s), Max(s);
    var q := CeilDiv(total, n);
    assert n * lo <= total <= n * hi by {
      SumBounds(s, lo, hi);
    }
    assert lo <= q by {
      MulLeCancel(n, lo, q);
    }
    assert q <= hi by {
      if hi < q {
        MulMonotone(n, hi, q - 1);
      }
    }
  }

  /** When the signal is shorter than the window, every entry is the same ceiling of the mean. */
  lemma SmoothedFlat(signal: seq<int>, windowSize: int)
    requires 1 <= |signal| < windowSize
    ensures forall i, j :: 0 <= i < j < |signal| ==> Smoothed(signal, windowSize)[i] == Smoothed(signal, windowSize)[j]
    ensures forall i :: 0 <= i < |signal| ==>
      var a := Smoothed(signal, windowSize)[i];
      |signal| * (a - 1) < Sum(signal) <= |signal| * a && Min(signal) <= a <= Max(signal)
  {
    CeilMeanBounds(signal);
  }

  /**
   * When the window fits, every entry is the ceiling of the mean of a non-empty window
   * that holds the entry itself, and lies between the least and the largest value of it.
   */
  lemma SmoothedWithinWindow(signal: seq<int>, windowSize: int, i: int)
    requires 1 <= windowSize <= |signal| && 0 <= i < |signal|
    ensures var (begin, end) := Window(|signal|, windowSize, i);
      var a := Smoothed(signal, windowSize)[i];
      0 <= begin <= i < end <= |signal| && end - begin <= windowSize &&
      a == CeilDiv(Sum(signal[begin..end]), end - begin) &&
      Min(signal[begin..end]) <= a <= Max(signal[begin..end])
  {
    assert Smoothed(signal, windowSize)[i] == WindowAverage(signal, windowSize, i);
    WindowAverageBounds(signal, windowSize, i);
  }

  /** A window average never leaves the range of the values in its window. */
  lemma WindowAverageBounds(signal: seq<int>, windowSize: int, i: int)
    requires 1 <= windowSize <= |signal| && 0 <= i < |signal|
    ensures var (begin, end) := Window(|signal|, windowSize, i);
      Min(signal[begin..end]) <= WindowAverage(signal, windowSize, i) <= Max(signal[begin..end])
  {
    var (begin, end) := Window(|signal|, windowSize, i);
    CeilMeanBounds(signal[begin..end]);
  }

  /** The smoothing loop of noise_peak_finding, one window average appended per entry. */
  method Smooth(coincidences: seq<int>, windowSize: int) returns (smoothed: seq<int>)
    requires SmoothingDefined(|coincidences|, windowSize)
    ensures smoothed == Smoothed(coincidences, windowSize)
  {
    var n := |coincidences|;
    smoothed := [];
    var lowerBound := windowSize / 2;
    var upperBound := CeilDiv(windowSize, 2);

    if n < windowSize {
      var average := CeilDiv(Sum(coincidences), n);
      for k := 0 to n
        invariant |smoothed| == k
        invariant forall j :: 0 <= j < k ==> smoothed[j] == average
      {
        smoothed := smoothed + [average];
      }
    } else {
      for i := 0 to n
        invariant |smoothed| == i
        invariant forall j :: 0 <= j < i ==> smoothed[j] == WindowAverage(coincidences, windowSize, j)
      {
        var begin, end;
        if lowerBound <= i < n - upperBound {
          begin, end := i - lowerBound, i + upperBound;
        } else if i < upperBound {
          begin, end := 0, i + upperBound;
        } else {
          begin, end := i - lowerBound, n;
        }
        assert (begin, end) == Window(n, windowSize, i);
        var average := CeilDiv(Sum(coincidences[begin..end]), end - begin);
        smoothed := smoothed + [average];
      }
    }
  }
}
