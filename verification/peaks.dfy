/**
 * Peak extraction of noise_peak_finding: a left-to-right scan that keeps the first maximum
 * of every run of entries lying above their smoothed floor.
 */
module Peaks {
  import opened Arithmetic
  import opened Smoothing

  /** The scan's peak_index / peak_value pair: both None, or the run's first maximum so far. */
  datatype Run = Idle | Active(index: nat, value: int)

  /** What the scan has built after a prefix: the closed peaks and the open run. */
  datatype Scan = Scan(peaks: seq<nat>, run: Run)

  /**
   * One step at index i with raw value `raw` and floor `floor`. Above the floor the run
   * opens or moves to a strictly larger value; below it an open run is closed and its
   * index emitted; on the floor nothing happens.
   */
  function Step(st: Scan, i: nat, raw: int, floor: int): Scan
  {
    if raw > floor then
      if st.run.Idle? || raw > st.run.value then Scan(st.peaks, Active(i, raw)) else st
    else if raw < floor && st.run.Active? then
      Scan(st.peaks + [st.run.index], Idle)
    else st
  }

  /** The scan state after the first k entries. */
  function ScanTo(raw: seq<int>, floor: seq<int>, k: nat): Scan
    requires k <= |raw| == |floor|
  {
    if k == 0 then Scan([], Idle)
    else Step(ScanTo(raw, floor, k - 1), k - 1, raw[k - 1], floor[k - 1])
  }

  /** The peak indices: the closed peaks, then the run still open at the end. */
  function PeakIndices(raw: seq<int>, floor: seq<int>): seq<nat>
    requires |raw| == |floor|
  {
    var st := ScanTo(raw, floor, |raw|);
    if st.run.Active? then st.peaks + [st.run.index] else st.peaks
  }

  /** The last index before k whose raw value is strictly below the floor, or -1. */
  function LastBelow(raw: seq<int>, floor: seq<int>, k: int): (b: int)
    requires 0 <= k <= |raw| == |floor|
    ensures -1 <= b < k && (b >= 0 ==> raw[b] < floor[b])
    ensures forall j :: b < j < k ==> raw[j] >= floor[j]
  {
    if k == 0 then -1
    else if raw[k - 1] < floor[k - 1] then k - 1
    else LastBelow(raw, floor, k - 1)
  }

  /** The first index after p whose raw value is strictly below the floor, or the length. */
  function NextBelow(raw: seq<int>, floor: seq<int>, p: int): (e: int)
    requires 0 <= p < |raw| == |floor|
    ensures p < e <= |raw| && (e < |raw| ==> raw[e] < floor[e])
    ensures forall j :: p < j < e ==> raw[j] >= floor[j]
    decreases |raw| - p
  {
    if p + 1 == |raw| then |raw|
    else if raw[p + 1] < floor[p + 1] then p + 1
    else NextBelow(raw, floor, p + 1)
  }

  /**
   * p lies above the floor and is the first maximum of its run, the stretch between the
   * nearest entries below the floor on either side: no entry of the run above the floor is
   * larger, and none before p in the run is as large.
   */
  ghost predicate FirstMaxOfRun(raw: seq<int>, floor: seq<int>, p: int)
    requires 0 <= p < |raw| == |floor|
  {
    raw[p] > floor[p] &&
    (forall j :: LastBelow(raw, floor, p) < j < NextBelow(raw, floor, p) && raw[j] > floor[j] ==> raw[j] <= raw[p]) &&
    (forall j :: LastBelow(raw, floor, p) < j < p && raw[j] > floor[j] ==> raw[j] < raw[p])
  }

  /**
   * The closed peaks: indices of the signal, each the first maximum of its run, each run
   * closed at or before `last`, and each run closed before the next peak.
   */
  ghost predicate PeaksInv(raw: seq<int>, floor: seq<int>, last: int, peaks: seq<nat>)
    requires |raw| == |floor|
  {
    (forall a :: 0 <= a < |peaks| ==>
       peaks[a] < |raw| && NextBelow(raw, floor, peaks[a]) <= last && FirstMaxOfRun(raw, floor, peaks[a])) &&
    (forall a, b :: 0 <= a < b < |peaks| ==> NextBelow(raw, floor, peaks[a]) < peaks[b])
  }

  /**
   * The open run after k entries, `last` being the last entry below the floor: none of the
   * entries since `last` is above the floor, or the run's index holds their first maximum.
   */
  ghost predicate RunInv(raw: seq<int>, floor: seq<int>, k: nat, last: int, run: Run)
    requires k <= |raw| == |floor| && -1 <= last
  {
    match run
    case Idle => forall j :: last < j < k ==> raw[j] <= floor[j]
    case Active(p, v) =>
      last < p < k && v == raw[p] && raw[p] > floor[p] &&
      (forall j :: last < j < k && raw[j] > floor[j] ==> raw[j] <= v) &&
      (forall j :: last < j < p && raw[j] > floor[j] ==> raw[j] < v)
  }

  /** What holds of the scan after k entries. */
  ghost predicate ScanInv(raw: seq<int>, floor: seq<int>, k: nat, st: Scan)
    requires k <= |raw| == |floor|
  {
    var last := LastBelow(raw, floor, k);
    PeaksInv(raw, floor, last, st.peaks) && RunInv(raw, floor, k, last, st.run)
  }

  /** An index strictly after the last entry below the floor shares that last entry. */
  lemma LastBelowSame(raw: seq<int>, floor: seq<int>, k: nat, p: nat)
    requires k <= |raw| == |floor| && LastBelow(raw, floor, k) < p <= k
    ensures LastBelow(raw, floor, p) == LastBelow(raw, floor, k)
  {
  }

  /** The first entry below the floor after p is e when e is below it and nothing between is. */
  lemma NextBelowIs(raw: seq<int>, floor: seq<int>, p: nat, e: nat)
    requires p < e <= |raw| == |floor|
    requires e < |raw| ==> raw[e] < floor[e]
    requires forall j :: p < j < e ==> raw[j] >= floor[j]
    ensures NextBelow(raw, floor, p) == e
  {
  }

  /** Closing the open run at k, below the floor or the end of the signal, adds a peak. */
  lemma CloseRun(raw: seq<int>, floor: seq<int>, k: nat, last: int, peaks: seq<nat>, run: Run)
    requires k <= |raw| == |floor| && last == LastBelow(raw, floor, k) && run.Active?
    requires PeaksInv(raw, floor, last, peaks) && RunInv(raw, floor, k, last, run)
    requires k < |raw| ==> raw[k] < floor[k]
    ensures PeaksInv(raw, floor, k, peaks + [run.index])
  {
    var p := run.index;
    LastBelowSame(raw, floor, k, p);
    NextBelowIs(raw, floor, p, k);
    assert FirstMaxOfRun(raw, floor, p);
    var peaks' := peaks + [p];
    forall a, b | 0 <= a < b < |peaks'|
      ensures NextBelow(raw, floor, peaks'[a]) < peaks'[b]
    {
      if b == |peaks'| - 1 {
        assert NextBelow(raw, floor, peaks'[a]) <= last;
      }
    }
  }

  /** One step of the scan keeps ScanInv. */
  lemma StepKeepsInv(raw: seq<int>, floor: seq<int>, k: nat)
    requires k < |raw| == |floor|
    requires ScanInv(raw, floor, k, ScanTo(raw, floor, k))
    ensures ScanInv(raw, floor, k + 1, ScanTo(raw, floor, k + 1))
  {
    var st := ScanTo(raw, floor, k);
    var last := LastBelow(raw, floor, k);
    var st' := ScanTo(raw, floor, k + 1);
    assert st' == Step(st, k, raw[k], floor[k]);
    if raw[k] < floor[k] {
      assert LastBelow(raw, floor, k + 1) == k;
      if st.run.Active? {
        CloseRun(raw, floor, k, last, st.peaks, st.run);
      }
    } else {
      assert LastBelow(raw, floor, k + 1) == last;
      assert RunInv(raw, floor, k + 1, last, st'.run);
    }
  }

  /** ScanInv holds after every prefix. */
  lemma {:induction false} ScanInvHolds(raw: seq<int>, floor: seq<int>, k: nat)
    requires k <= |raw| == |floor|
    ensures ScanInv(raw, floor, k, ScanTo(raw, floor, k))
  {
    if k == 0 {
      assert ScanTo(raw, floor, 0) == Scan([], Idle);
    } else {
      assert ScanInv(raw, floor, k - 1, ScanTo(raw, floor, k - 1)) by {
        ScanInvHolds(raw, floor, k - 1);
      }
      StepKeepsInv(raw, floor, k - 1);
    }
  }

  /**
   * The peak indices are strictly increasing indices of the signal; each one is the first
   * maximum of its run above the floor, and consecutive peaks lie in different runs.
   */
  lemma PeakIndicesProperties(raw: seq<int>, floor: seq<int>)
    requires |raw| == |floor|
    ensures var peaks := PeakIndices(raw, floor);
      (forall a :: 0 <= a < |peaks| ==> peaks[a] < |raw| && FirstMaxOfRun(raw, floor, peaks[a])) &&
      (forall a, b :: 0 <= a < b < |peaks| ==> peaks[a] < peaks[b]) &&
      (forall a :: 0 <= a < |peaks| - 1 ==> NextBelow(raw, floor, peaks[a]) < peaks[a + 1])
  {
    var n := |raw|;
    var st := ScanTo(raw, floor, n);
    ScanInvHolds(raw, floor, n);
    var last := LastBelow(raw, floor, n);
    if st.run.Active? {
      CloseRun(raw, floor, n, last, st.peaks, st.run);
    }
  }

  /** j lies in the run of p: strictly between the nearest entries below the floor around p. */
  ghost predicate InRunOf(raw: seq<int>, floor: seq<int>, p: int, j: int)
    requires |raw| == |floor|
  {
    0 <= p < |raw| && LastBelow(raw, floor, p) < j < NextBelow(raw, floor, p)
  }

  /** j lies in the run of one of the peaks. */
  ghost predicate Covered(raw: seq<int>, floor: seq<int>, peaks: seq<nat>, j: int)
    requires |raw| == |floor|
  {
    exists a :: 0 <= a < |peaks| && InRunOf(raw, floor, peaks[a], j)
  }

  /** Every entry before k above its floor lies in the run of a closed peak or in the open run. */
  ghost predicate CoverInv(raw: seq<int>, floor: seq<int>, k: nat, st: Scan)
    requires k <= |raw| == |floor|
  {
    forall j :: 0 <= j < k && raw[j] > floor[j] ==>
      Covered(raw, floor, st.peaks, j) || (st.run.Active? && LastBelow(raw, floor, k) < j)
  }

  lemma CoveredAppend(raw: seq<int>, floor: seq<int>, peaks: seq<nat>, p: nat, j: int)
    requires |raw| == |floor|
    requires Covered(raw, floor, peaks, j) || InRunOf(raw, floor, p, j)
    ensures Covered(raw, floor, peaks + [p], j)
  {
    var peaks' := peaks + [p];
    if Covered(raw, floor, peaks, j) {
      var a :| 0 <= a < |peaks| && InRunOf(raw, floor, peaks[a], j);
      assert peaks'[a] == peaks[a];
    } else {
      assert peaks'[|peaks|] == p;
    }
  }

  /** Closing the open run keeps CoverInv: its entries are now in the run of the new peak. */
  lemma CloseRunCovers(raw: seq<int>, floor: seq<int>, k: nat)
    requires k <= |raw| == |floor| && (k < |raw| ==> raw[k] < floor[k])
    requires ScanInv(raw, floor, k, ScanTo(raw, floor, k))
    requires CoverInv(raw, floor, k, ScanTo(raw, floor, k))
    requires ScanTo(raw, floor, k).run.Active?
    ensures var st := ScanTo(raw, floor, k);
      forall j :: 0 <= j < k && raw[j] > floor[j] ==> Covered(raw, floor, st.peaks + [st.run.index], j)
  {
    var st := ScanTo(raw, floor, k);
    var p := st.run.index;
    var last := LastBelow(raw, floor, k);
    LastBelowSame(raw, floor, k, p);
    NextBelowIs(raw, floor, p, k);
    forall j | 0 <= j < k && raw[j] > floor[j]
      ensures Covered(raw, floor, st.peaks + [p], j)
    {
      CoveredAppend(raw, floor, st.peaks, p, j);
    }
  }

  /** One step of the scan keeps CoverInv. */
  lemma StepKeepsCover(raw: seq<int>, floor: seq<int>, k: nat)
    requires k < |raw| == |floor|
    requires ScanInv(raw, floor, k, ScanTo(raw, floor, k))
    requires CoverInv(raw, floor, k, ScanTo(raw, floor, k))
    ensures CoverInv(raw, floor, k + 1, ScanTo(raw, floor, k + 1))
  {
    var st := ScanTo(raw, floor, k);
    var st' := ScanTo(raw, floor, k + 1);
    assert st' == Step(st, k, raw[k], floor[k]);
    if raw[k] < floor[k] && st.run.Active? {
      CloseRunCovers(raw, floor, k);
      assert st' == Scan(st.peaks + [st.run.index], Idle);
    } else if raw[k] < floor[k] {
      assert st' == st && LastBelow(raw, floor, k + 1) == k;
    } else {
      assert st'.peaks == st.peaks && (st.run.Active? ==> st'.run.Active?);
      assert LastBelow(raw, floor, k + 1) == LastBelow(raw, floor, k);
    }
  }

  /** ScanInv and CoverInv hold after every prefix. */
  lemma {:induction false} CoverInvHolds(raw: seq<int>, floor: seq<int>, k: nat)
    requires k <= |raw| == |floor|
    ensures CoverInv(raw, floor, k, ScanTo(raw, floor, k))
  {
    if k > 0 {
      assert CoverInv(raw, floor, k - 1, ScanTo(raw, floor, k - 1)) by {
        CoverInvHolds(raw, floor, k - 1);
      }
      ScanInvHolds(raw, floor, k - 1);
      StepKeepsCover(raw, floor, k - 1);
    }
  }

  /**
   * Every entry above its floor lies in the run of some peak, so together with
   * PeakIndicesProperties each run that rises above the floor yields exactly one peak.
   */
  lemma PeaksCoverEveryRun(raw: seq<int>, floor: seq<int>)
    requires |raw| == |floor|
    ensures forall j :: 0 <= j < |raw| && raw[j] > floor[j] ==> Covered(raw, floor, PeakIndices(raw, floor), j)
  {
    var n := |raw|;
    var st := ScanTo(raw, floor, n);
    ScanInvHolds(raw, floor, n);
    CoverInvHolds(raw, floor, n);
    if st.run.Active? {
      CloseRunCovers(raw, floor, n);
    }
  }

  /** When no entry lies above its floor, no peak is found. */
  lemma NoPeaksWithoutExcess(raw: seq<int>, floor: seq<int>)
    requires |raw| == |floor|
    requires forall j :: 0 <= j < |raw| ==> raw[j] <= floor[j]
    ensures PeakIndices(raw, floor) == []
  {
    ScanStaysIdle(raw, floor, |raw|);
  }

  lemma {:induction false} ScanStaysIdle(raw: seq<int>, floor: seq<int>, k: nat)
    requires k <= |raw| == |floor|
    requires forall j :: 0 <= j < k ==> raw[j] <= floor[j]
    ensures ScanTo(raw, floor, k) == Scan([], Idle)
  {
    if k > 0 {
      ScanStaysIdle(raw, floor, k - 1);
    }
  }

  /** The peak scan of noise_peak_finding over the signal and its smoothed floor. */
  method ExtractPeaks(coincidences: seq<int>, smoothed: seq<int>) returns (peakIndices: seq<nat>)
    requires |coincidences| == |smoothed|
    ensures peakIndices == PeakIndices(coincidences, smoothed)
  {
    peakIndices := [];
    var run := Idle;
    for i := 0 to |coincidences|
      invariant Scan(peakIndices, run) == ScanTo(coincidences, smoothed, i)
    {
      if coincidences[i] > smoothed[i] {
        if run.Idle? || coincidences[i] > run.value {
          run := Active(i, coincidences[i]);
        }
      } else if coincidences[i] < smoothed[i] && run.Active? {
        peakIndices := peakIndices + [run.index];
        run := Idle;
      }
    }
    if run.Active? {
      peakIndices := peakIndices + [run.index];
    }
  }

  /** The noise floor of the signal and the indices of its peaks above it. */
  method NoisePeakFinding(coincidences: seq<int>, windowSize: int) returns (peakIndices: seq<nat>)
    requires SmoothingDefined(|coincidences|, windowSize)
    ensures peakIndices == PeakIndices(coincidences, Smoothed(coincidences, windowSize))
    ensures forall a, b :: 0 <= a < b < |peakIndices| ==> peakIndices[a] < peakIndices[b]
    ensures forall a :: 0 <= a < |peakIndices| ==> peakIndices[a] < |coincidences|
  {
    var smoothed := Smooth(coincidences, windowSize);
    peakIndices := ExtractPeaks(coincidences, smoothed);
    PeakIndicesProperties(coincidences, smoothed);
  }
}
