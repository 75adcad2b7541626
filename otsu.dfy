/** GlobalThreshold.OtsuThreshold: Otsu's threshold chosen in one pass over a
    256-bin histogram, keeping a running pixel count and intensity sum. The
    histogram, the pixel count and the intensity sum of the whole image are
    inputs; they are required to agree with each other. */
module GlobalThreshold {
  import opened Grids

  /** A 256-bin histogram of pixel counts. */
  predicate IsHistogram(hist: seq<int>)
  {
    |hist| == 256 && forall b :: 0 <= b < 256 ==> hist[b] >= 0
  }

  /** Number of pixels with an intensity below `n`. */
  function Count(hist: seq<int>, n: int): int
    requires 0 <= n <= |hist|
  {
    if n == 0 then 0 else Count(hist, n - 1) + hist[n - 1]
  }

  /** Sum of the intensities of the pixels with an intensity below `n`. */
  function Weighted(hist: seq<int>, n: int): int
    requires 0 <= n <= |hist|
  {
    if n == 0 then 0 else Weighted(hist, n - 1) + (n - 1) * hist[n - 1]
  }

  /** The inputs describe one image: the counts add up to `pixelCount` and the
      weighted counts to `meanTotal` (which, despite its name, is a sum). */
  predicate Consistent(hist: seq<int>, pixelCount: int, meanTotal: int)
  {
    IsHistogram(hist) && Count(hist, 256) == pixelCount && Weighted(hist, 256) == meanTotal
  }

  /** Threshold `t` splits the pixels into two non-empty classes: those at or below `t`
      and those above it. Only such thresholds reach the variance computation. */
  predicate Candidate(hist: seq<int>, pixelCount: int, t: int)
    requires IsHistogram(hist) && 0 <= t < 256
  {
    0 < Count(hist, t + 1) < pixelCount
  }

  /** The between-class variance of threshold `t`, with both class means
      truncated to integers before they are subtracted. */
  function Variance(hist: seq<int>, pixelCount: int, meanTotal: int, t: int): int
    requires IsHistogram(hist) && 0 <= t < 256 && Candidate(hist, pixelCount, t)
  {
    var i0 := Count(hist, t + 1);
    var i1 := pixelCount - i0;
    var curMean := Weighted(hist, t + 1);
    var mean0 := Quot(curMean, i0);
    var mean1 := Quot(meanTotal - curMean, i1);
    (mean1 - mean0) * (mean1 - mean0) * i0 * i1
  }

  /** No threshold below `n` has a positive variance. */
  ghost predicate NoGainBefore(hist: seq<int>, pixelCount: int, meanTotal: int, n: int)
    requires IsHistogram(hist) && 0 <= n <= 256
  {
    forall t :: 0 <= t < n && Candidate(hist, pixelCount, t) ==> Variance(hist, pixelCount, meanTotal, t) <= 0
  }

  /** Among the thresholds below `n`, `q` has a positive variance that no other
      reaches, and every earlier one is strictly smaller: the first maximum. */
  ghost predicate BestBefore(hist: seq<int>, pixelCount: int, meanTotal: int, q: int, n: int)
    requires IsHistogram(hist) && 0 <= n <= 256
  {
    0 <= q < n && Candidate(hist, pixelCount, q) && Variance(hist, pixelCount, meanTotal, q) > 0 &&
    (forall t :: 0 <= t < n && Candidate(hist, pixelCount, t) ==>
      Variance(hist, pixelCount, meanTotal, t) <= Variance(hist, pixelCount, meanTotal, q)) &&
    (forall t :: 0 <= t < q && Candidate(hist, pixelCount, t) ==>
      Variance(hist, pixelCount, meanTotal, t) < Variance(hist, pixelCount, meanTotal, q))
  }

  /** `q` is Otsu's threshold: the first threshold of greatest positive
      between-class variance, or 0 when no threshold has a positive variance. */
  ghost predicate IsOtsuChoice(hist: seq<int>, pixelCount: int, meanTotal: int, q: int)
    requires IsHistogram(hist)
  {
    if NoGainBefore(hist, pixelCount, meanTotal, 256) then q == 0
    else BestBefore(hist, pixelCount, meanTotal, q, 256)
  }

  /** The counts of a histogram never decrease as the bound grows. */
  lemma {:induction false} CountMonotone(hist: seq<int>, m: int, n: int)
    requires IsHistogram(hist) && 0 <= m <= n <= 256
    ensures 0 <= Count(hist, m) <= Count(hist, n)
    decreases n
  {
    if m < n {
      CountMonotone(hist, m, n - 1);
    } else if n > 0 {
      CountMonotone(hist, 0, n - 1);
    }
  }

  /** Once every pixel has been counted, no later threshold is a candidate:
      the scan may stop there. */
  lemma NoCandidateAfterFull(hist: seq<int>, pixelCount: int, t: int)
    requires IsHistogram(hist) && Count(hist, 256) == pixelCount
    requires 0 <= t < 256 && Count(hist, t + 1) == pixelCount
    ensures forall u :: t <= u < 256 ==> !Candidate(hist, pixelCount, u)
  {
    forall u | t <= u < 256
      ensures !Candidate(hist, pixelCount, u)
    {
      CountMonotone(hist, t + 1, u + 1);
      CountMonotone(hist, u + 1, 256);
    }
  }

  /** A positive count below `n` comes from some non-empty bin below `n`. */
  lemma {:induction false} SomeBinBelow(hist: seq<int>, n: int) returns (b: int)
    requires IsHistogram(hist) && 0 <= n <= 256 && Count(hist, n) > 0
    ensures 0 <= b < n && hist[b] > 0
    decreases n
  {
    if hist[n - 1] > 0 {
      b := n - 1;
    } else {
      b := SomeBinBelow(hist, n - 1);
    }
  }

  /** A count below the total leaves some non-empty bin at or above `n`. */
  lemma {:induction false} SomeBinAbove(hist: seq<int>, n: int) returns (b: int)
    requires IsHistogram(hist) && 0 <= n <= 256 && Count(hist, n) < Count(hist, 256)
    ensures n <= b < 256 && hist[b] > 0
    decreases 256 - n
  {
    CountMonotone(hist, n, n + 1);
    if hist[n] > 0 {
      b := n;
    } else {
      b := SomeBinAbove(hist, n + 1);
    }
  }

  /** A candidate threshold lies at or above the smallest intensity present and
      strictly below the largest one. */
  lemma CandidateBetweenIntensities(hist: seq<int>, pixelCount: int, meanTotal: int, t: int)
    requires Consistent(hist, pixelCount, meanTotal) && 0 <= t < 256 && Candidate(hist, pixelCount, t)
    ensures exists b :: 0 <= b <= t && hist[b] > 0
    ensures exists b :: t < b < 256 && hist[b] > 0
  {
    var lo := SomeBinBelow(hist, t + 1);
    var hi := SomeBinAbove(hist, t + 1);
  }

  /** A nonzero Otsu threshold lies at or above the smallest intensity present
      and strictly below the largest one. */
  lemma OtsuBetweenIntensities(hist: seq<int>, pixelCount: int, meanTotal: int, q: int)
    requires Consistent(hist, pixelCount, meanTotal) && IsOtsuChoice(hist, pixelCount, meanTotal, q) && q != 0
    ensures exists b :: 0 <= b <= q && hist[b] > 0
    ensures exists b :: q < b < 256 && hist[b] > 0
  {
    CandidateBetweenIntensities(hist, pixelCount, meanTotal, q);
  }

  /** The tie rule makes the choice unique. */
  lemma OtsuChoiceUnique(hist: seq<int>, pixelCount: int, meanTotal: int, q1: int, q2: int)
    requires IsHistogram(hist)
    requires IsOtsuChoice(hist, pixelCount, meanTotal, q1) && IsOtsuChoice(hist, pixelCount, meanTotal, q2)
    ensures q1 == q2
  {
  }

  /** An image with a single intensity has no candidate threshold, so its
      threshold is 0. */
  lemma {:induction false} ConstantImageGivesZero(hist: seq<int>, pixelCount: int, meanTotal: int, v: int, q: int)
    requires Consistent(hist, pixelCount, meanTotal) && 0 <= v < 256
    requires forall b :: 0 <= b < 256 && b != v ==> hist[b] == 0
    requires IsOtsuChoice(hist, pixelCount, meanTotal, q)
    ensures q == 0
  {
    forall t | 0 <= t < 256
      ensures !Candidate(hist, pixelCount, t)
    {
      if t < v {
        ZeroBelow(hist, v, t + 1);
      } else {
        ZeroBelow(hist, v, v);
        CountMonotone(hist, t + 1, 256);
        CountMonotone(hist, v, v + 1);
        CountStable(hist, v + 1, t + 1);
        CountStable(hist, t + 1, 256);
      }
    }
  }

  /** The bins below `v` are empty, so nothing is counted below any bound up to `v`. */
  lemma {:induction false} ZeroBelow(hist: seq<int>, v: int, n: int)
    requires IsHistogram(hist) && 0 <= n <= v < 256
    requires forall b :: 0 <= b < v ==> hist[b] == 0
    ensures Count(hist, n) == 0
    decreases n
  {
    if n > 0 {
      ZeroBelow(hist, v, n - 1);
    }
  }

  /** Bins between two bounds that are all empty add nothing to the count. */
  lemma {:induction false} CountStable(hist: seq<int>, m: int, n: int)
    requires IsHistogram(hist) && 0 <= m <= n <= 256
    requires forall b :: m <= b < n ==> hist[b] == 0
    ensures Count(hist, n) == Count(hist, m)
    decreases n
  {
    if m < n {
      CountStable(hist, m, n - 1);
    }
  }

  /** GlobalThreshold.OtsuThreshold. The loop visits thresholds in increasing
      order, skips those with an empty first class, stops at the first one whose
      second class is empty, and replaces the current choice only on a strictly
      larger variance. */
  method OtsuThreshold(histogram: seq<int>, pixelCount: int, meanTotal: int) returns (q: byte)
    requires Consistent(histogram, pixelCount, meanTotal)
    ensures IsOtsuChoice(histogram, pixelCount, meanTotal, q)
  {
    var i0 := 0;
    var curMean := 0;
    var maxVar := 0;
    q := 0;
    var t := 0;
    while t < |histogram|
      invariant 0 <= t <= 256
      invariant i0 == Count(histogram, t) && curMean == Weighted(histogram, t)
      invariant NoGainBefore(histogram, pixelCount, meanTotal, t) ==> q == 0 && maxVar == 0
      invariant !NoGainBefore(histogram, pixelCount, meanTotal, t) ==>
        BestBefore(histogram, pixelCount, meanTotal, q, t) && maxVar == Variance(histogram, pixelCount, meanTotal, q)
    {
      CountMonotone(histogram, t, t + 1);
      i0 := i0 + histogram[t];
      if i0 == 0 {
        t := t + 1;
        continue;
      }
      var i1 := pixelCount - i0;
      if i1 != 0 {
        CountMonotone(histogram, t + 1, 256);
        curMean := curMean + t * histogram[t];
        var mean0 := Quot(curMean, i0);
        var mean1 := Quot(meanTotal - curMean, i1);
        var varianceBetween := (mean1 - mean0) * (mean1 - mean0) * i0 * i1;
        assert varianceBetween == Variance(histogram, pixelCount, meanTotal, t);
        if !(varianceBetween > maxVar) {
          t := t + 1;
          continue;
        }
        maxVar := varianceBetween;
        q := t;
      } else {
        NoCandidateAfterFull(histogram, pixelCount, t);
        break;
      }
      t := t + 1;
    }
  }
}
