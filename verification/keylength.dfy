/**
 * find_key_length: the coincidence signal of a ciphertext, its peaks above the noise
 * floor, and the rounded mean distance between consecutive peaks.
 */
module KeyLength {
  import opened Options
  import opened Arithmetic
  import opened Letters
  import opened Smoothing
  import opened Peaks

  /** Number of positions j < m with s[j] == c. */
  function CountIn(s: string, c: char, m: nat): nat
    requires m <= |s|
  {
    if m == 0 then 0 else CountIn(s, c, m - 1) + (if s[m - 1] == c then 1 else 0)
  }

  /** CountIn is the size of the set of matching positions. */
  lemma {:induction false} CountInIsSetSize(s: string, c: char, m: nat)
    requires m <= |s|
    ensures CountIn(s, c, m) == |set j | 0 <= j < m && s[j] == c|
    ensures CountIn(s, c, m) <= m
  {
    if m > 0 {
      CountInIsSetSize(s, c, m - 1);
      var before := set j | 0 <= j < m - 1 && s[j] == c;
      var now := set j | 0 <= j < m && s[j] == c;
      if s[m - 1] == c {
        assert now == before + {m - 1};
      } else {
        assert now == before;
      }
    }
  }

  /** Length of the coincidence signal of a message of n characters: one entry per offset 1..n-1. */
  function SignalLength(n: nat): nat
  {
    if n == 0 then 0 else n - 1
  }

  /**
   * The coincidence signal as main.py computes it: the entry for offset i (at list index
   * i - 1) counts the positions j < n - i whose character equals the character AT i.
   */
  function Coincidences(s: string): (r: seq<int>)
    ensures |r| == SignalLength(|s|)
  {
    seq(SignalLength(|s|), k requires 0 <= k < SignalLength(|s|) => CountIn(s, s[k + 1], |s| - (k + 1)))
  }

  /** Each entry is the number of matching positions, so it lies in [0, n - i]. */
  lemma CoincidencesCount(s: string, i: nat)
    requires 1 <= i < |s|
    ensures Coincidences(s)[i - 1] == |set j | 0 <= j < |s| - i && s[j] == s[i]|
    ensures 0 <= Coincidences(s)[i - 1] <= |s| - i
  {
    CountInIsSetSize(s, s[i], |s| - i);
  }

  /** The guard of the inner loop: a character that both is and is not in a..z. */
  predicate SkipsOffset(c: char) {
    !IsAsciiLower(c) && IsAsciiLower(c)
  }

  /** The counting loops of find_key_length. */
  method CountCoincidences(encryptedMessage: string) returns (coincidences: seq<int>)
    ensures coincidences == Coincidences(encryptedMessage)
    ensures forall k :: 0 <= k < |coincidences| ==> 0 <= coincidences[k] <= |encryptedMessage| - (k + 1)
  {
    var n := |encryptedMessage|;
    coincidences := [];
    for i := 1 to if n == 0 then 1 else n
      invariant |coincidences| == i - 1
      invariant forall k :: 0 <= k < i - 1 ==> coincidences[k] == CountIn(encryptedMessage, encryptedMessage[k + 1], n - (k + 1))
    {
      var counter := 0;
      for j := 0 to n - i
        invariant counter == CountIn(encryptedMessage, encryptedMessage[i], j)
      {
        if SkipsOffset(encryptedMessage[i]) {
          // The guard of the source never holds: no character is both in a..z and outside it.
          assert false;
        }
        if encryptedMessage[i] == encryptedMessage[j] {
          counter := counter + 1;
        }
      }
      coincidences := coincidences + [counter];
    }
    forall k | 0 <= k < |coincidences|
      ensures 0 <= coincidences[k] <= n - (k + 1)
    {
      CoincidencesCount(encryptedMessage, k + 1);
    }
  }

  /** Number of positions j < m with s[j] == s[j + d]: the pair count of the Kasiski examination. */
  function PairCount(s: string, d: nat, m: nat): nat
    requires m + d <= |s|
  {
    if m == 0 then 0 else PairCount(s, d, m - 1) + (if s[m - 1] == s[m - 1 + d] then 1 else 0)
  }

  /**
   * The signal differs from the pair count: in "abab" the offset 2 has two equal pairs,
   * (0, 2) and (1, 3), while the entry counts only one match of s[2] in s[0..2].
   */
  lemma CoincidencesAreNotPairCounts()
    ensures Coincidences("abab")[1] == 1
    ensures PairCount("abab", 2, 2) == 2
  {
    assert Coincidences("abab")[1] == CountIn("abab", 'a', 2);
  }

  /** The distances between consecutive peaks. */
  function Distances(peaks: seq<int>): (d: seq<int>)
    ensures |d| == if |peaks| == 0 then 0 else |peaks| - 1
  {
    if |peaks| == 0 then []
    else seq(|peaks| - 1, i requires 0 <= i < |peaks| - 1 => peaks[i + 1] - peaks[i])
  }

  /** The distances add up to the distance between the last and the first peak. */
  lemma {:induction false} DistancesTelescope(peaks: seq<int>)
    requires |peaks| >= 1
    ensures Sum(Distances(peaks)) == peaks[|peaks| - 1] - peaks[0]
  {
    if |peaks| > 1 {
      var front := peaks[..|peaks| - 1];
      DistancesTelescope(front);
      assert Distances(peaks)[..|peaks| - 2] == Distances(front);
    }
  }

  /** Strictly increasing peaks are at least 1 apart. */
  lemma DistancesPositive(peaks: seq<int>)
    requires forall a, b :: 0 <= a < b < |peaks| ==> peaks[a] < peaks[b]
    ensures forall i :: 0 <= i < |Distances(peaks)| ==> Distances(peaks)[i] >= 1
  {
  }

  /**
   * The key-length estimate: the mean distance between consecutive peaks, rounded half
   * to even; None when there are fewer than two peaks.
   */
  function KeyLengthEstimate(peaks: seq<int>): Option<int>
  {
    if |peaks| > 1 then
      var distances := Distances(peaks);
      Some(RoundHalfEven(Sum(distances), |distances|))
    else None
  }

  /**
   * With two or more strictly increasing peaks the estimate is the nearest integer to
   * (last - first) / (count - 1), the even one on a tie, and at least 1.
   */
  lemma EstimateProperties(peaks: seq<int>)
    requires forall a, b :: 0 <= a < b < |peaks| ==> peaks[a] < peaks[b]
    ensures |peaks| < 2 <==> KeyLengthEstimate(peaks).None?
    ensures |peaks| >= 2 ==>
      var r, span, gaps := KeyLengthEstimate(peaks).value, peaks[|peaks| - 1] - peaks[0], |peaks| - 1;
      r >= 1 && -gaps <= 2 * (span - gaps * r) <= gaps &&
      (2 * (span - gaps * r) == gaps || 2 * (span - gaps * r) == -gaps ==> r % 2 == 0)
  {
    if |peaks| >= 2 {
      var gaps := |peaks| - 1;
      var span := peaks[gaps] - peaks[0];
      assert Sum(Distances(peaks)) == span by {
        DistancesTelescope(peaks);
      }
      var r := RoundHalfEven(span, gaps);
      assert KeyLengthEstimate(peaks) == Some(r);
      assert span >= gaps by {
        SpanAtLeastGaps(peaks);
      }
      if r <= 0 {
        MulMonotone(gaps, r, 0);
      }
    }
  }

  /** Strictly increasing integers spread over at least one unit per gap. */
  lemma {:induction false} SpanAtLeastGaps(peaks: seq<int>)
    requires |peaks| >= 1
    requires forall a, b :: 0 <= a < b < |peaks| ==> peaks[a] < peaks[b]
    ensures peaks[|peaks| - 1] - peaks[0] >= |peaks| - 1
  {
    if |peaks| > 1 {
      SpanAtLeastGaps(peaks[..|peaks| - 1]);
    }
  }

  /**
   * find_key_length: count the coincidences, find the peaks above their noise floor and
   * return the rounded mean peak distance, or None with fewer than two peaks.
   */
  method FindKeyLength(encryptedMessage: string, windowSize: int) returns (keyLength: Option<int>)
    requires SmoothingDefined(SignalLength(|encryptedMessage|), windowSize)
    ensures var signal := Coincidences(encryptedMessage);
      keyLength == KeyLengthEstimate(PeakIndices(signal, Smoothed(signal, windowSize)))
    ensures keyLength.Some? ==> keyLength.value >= 1
  {
    var coincidences := CountCoincidences(encryptedMessage);
    var peakIndices := NoisePeakFinding(coincidences, windowSize);
    EstimateProperties(peakIndices);
    if |peakIndices| > 1 {
      var distanceOfPeaks := Distances(peakIndices);
      keyLength := Some(RoundHalfEven(Sum(distanceOfPeaks), |distanceOfPeaks|));
    } else {
      keyLength := None;
    }
  }
}
