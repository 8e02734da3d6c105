/**
 * compute_histogram, otsu_compute and apply_threshold of the accelerator
 * kernel (otsu_threshold.cpp). The sweep's between-class variance is
 * w_b * w_f * (mean_b - mean_f)^2 with both class means truncated by
 * integer division, and the sweep keeps the first threshold that attains
 * the largest value.
 */
module Otsu {
  import opened Platform
  import opened Histogram
  import opened IntSqrt

  /** The largest value a uint64_t holds. */
  const U64Max: nat := 0xFFFF_FFFF_FFFF_FFFF

  /** compute_histogram: zero the 256 bins, then count every pixel. */
  method ComputeHistogram(img: seq<Byte>, hist: array<nat>)
    requires IsImage(img) && hist.Length == NumBins
    modifies hist
    ensures hist[..] == Hist(img)
    ensures IsHistogram(hist[..])
    ensures forall v :: 0 <= v < NumBins ==> hist[v] == CountOf(img, v)
  {
    var i := 0;
    while i < NumBins
      invariant 0 <= i <= NumBins
      invariant forall j :: 0 <= j < i ==> hist[j] == 0
    {
      hist[i] := 0;
      i := i + 1;
    }
    assert hist[..] == Hist(img[..0]);
    i := 0;
    while i < ImgSize
      invariant 0 <= i <= ImgSize
      invariant hist[..] == Hist(img[..i])
    {
      assert img[..i + 1] == img[..i] + [img[i]];
      HistAppend(img[..i], img[i]);
      hist[img[i]] := hist[img[i]] + 1;
      i := i + 1;
    }
    assert img[..ImgSize] == img;
    ImageHistogram(img);
  }

  /** Threshold t splits the pixels into two non-empty classes: <= t and > t. */
  predicate Splits(h: seq<nat>, t: int)
    requires IsHistogram(h)
  {
    0 <= t < NumBins && 0 < Weight(h, t + 1) < ImgSize
  }

  /** mean_bg = sum_bg / weight_bg. */
  function BgMean(h: seq<nat>, t: int): int
    requires IsHistogram(h) && Splits(h, t)
  {
    Moment(h, t + 1) / Weight(h, t + 1)
  }

  /** mean_fg = (sum_total - sum_bg) / (total - weight_bg). */
  function FgMean(h: seq<nat>, t: int): int
    requires IsHistogram(h) && Splits(h, t)
  {
    (Moment(h, NumBins) - Moment(h, t + 1)) / (ImgSize - Weight(h, t + 1))
  }

  /**
   * var_between = weight_bg * weight_fg * (mean_bg - mean_fg)^2 for class
   * weights wb, wf and class intensity sums sb, sf.
   */
  function ClassVariance(wb: nat, wf: nat, sb: nat, sf: nat): int
    requires wb > 0 && wf > 0
  {
    var d := sb / wb - sf / wf;
    wb * wf * (d * d)
  }

  /** The between-class variance of threshold t. */
  function BetweenVar(h: seq<nat>, t: int): int
    requires IsHistogram(h) && Splits(h, t)
  {
    SliceMoments(h, t + 1, NumBins);
    ClassVariance(Weight(h, t + 1), ImgSize - Weight(h, t + 1),
                  Moment(h, t + 1), Moment(h, NumBins) - Moment(h, t + 1))
  }

  lemma DivLower(sum: nat, n: nat, k: nat)
    requires 0 < n && k * n <= sum
    ensures k <= sum / n
  {
    DivBounds(sum, n);
    LessFromProducts(k, sum / n + 1, n);
  }

  /** a + b = 2^16 bounds a * b by 2^30. */
  lemma ProductOfSplit(a: nat, b: nat)
    requires a + b == ImgSize
    ensures a * b <= 0x4000_0000
  {
    assert (a + b) * (a + b) - 4 * (a * b) == (a - b) * (a - b);
  }

  lemma ProductBounds(a: nat, b: nat, c: nat, A: nat, C: nat)
    requires 1 <= a * b <= A && 1 <= c <= C
    ensures 1 <= a * b * c <= A * C
  {
    MulLe(a * b, A, c);
    assert A * c <= A * C;
  }

  /** A class whose values are all <= t has a truncated mean <= t. */
  lemma MeanAtMost(sum: nat, n: nat, t: nat)
    requires 0 < n && sum + n <= (t + 1) * n
    ensures 0 <= sum / n <= t
  {
    assert (t + 1) * n == t * n + n;
    DivBound(sum, n, t);
  }

  /** A class whose values are all in t+1..255 has a truncated mean there too. */
  lemma MeanAtLeast(sum: nat, n: nat, t: nat)
    requires 0 < n && (t + 1) * n <= sum && sum + n <= NumBins * n
    ensures t + 1 <= sum / n <= 255
  {
    assert NumBins * n == 255 * n + n;
    DivLower(sum, n, t + 1);
    DivBound(sum, n, 255);
  }

  lemma SquareOfNegative(d: int)
    requires -255 <= d <= -1
    ensures 1 <= d * d <= 65025
  {
    MulLe(1, -d, -d);
    SquareBound(d);
  }

  /**
   * For a split threshold both class means are in range and on either side
   * of it, the foreground sum cannot underflow, and the between-class
   * variance is positive and fits in 64 bits.
   */
  lemma {:induction false} SplitFacts(h: seq<nat>, t: int)
    requires IsHistogram(h) && Splits(h, t)
    ensures Moment(h, t + 1) <= Moment(h, NumBins)
    ensures 0 <= BgMean(h, t) <= t < t + 1 <= FgMean(h, t) <= 255
    ensures 1 <= BetweenVar(h, t) <= 0x4000_0000 * 65025 < U64Max
  {
    var wb := Weight(h, t + 1);
    var wf := ImgSize - wb;
    SliceMoments(h, 0, t + 1);
    SliceMoments(h, t + 1, NumBins);
    var sb := Moment(h, t + 1);
    var sf := Moment(h, NumBins) - sb;
    MeanAtMost(sb, wb, t);
    MeanAtLeast(sf, wf, t);
    var mb := sb / wb;
    var mf := sf / wf;
    assert mb == BgMean(h, t) && mf == FgMean(h, t);
    var d := mb - mf;
    SquareOfNegative(d);
    ProductOfSplit(wb, wf);
    assert 1 <= wb * wf by {
      MulLe(1, wb, wf);
    }
    ProductBounds(wb, wf, d * d, 0x4000_0000, 65025);
    assert ClassVariance(wb, wf, sb, sf) == wb * wf * (d * d);
  }

  /**
   * OTSU_SWEEP from threshold t on, with the running maximum maxVar and
   * its threshold best: skip while the background is empty, stop at the
   * first empty foreground, and replace the best only on a strictly larger
   * variance.
   */
  function Sweep(h: seq<nat>, t: nat, maxVar: int, best: Byte): Byte
    requires IsHistogram(h) && t <= NumBins
    decreases NumBins - t
  {
    if t == NumBins then best
    else if Weight(h, t + 1) == 0 then Sweep(h, t + 1, maxVar, best)
    else if Weight(h, t + 1) >= ImgSize then best
    else if BetweenVar(h, t) > maxVar then Sweep(h, t + 1, BetweenVar(h, t), t)
    else Sweep(h, t + 1, maxVar, best)
  }

  /** The threshold otsu_compute returns for histogram h. */
  function OtsuThreshold(h: seq<nat>): Byte
    requires IsHistogram(h)
  {
    Sweep(h, 0, 0, 0)
  }

  /**
   * r is the lowest threshold of largest between-class variance among the
   * thresholds that split the image, or 0 when no threshold does.
   */
  ghost predicate IsLowestArgmax(h: seq<nat>, r: int)
    requires IsHistogram(h)
  {
    if exists t :: Splits(h, t) then
      && Splits(h, r)
      && (forall t :: Splits(h, t) ==> BetweenVar(h, t) <= BetweenVar(h, r))
      && (forall t :: t < r && Splits(h, t) ==> BetweenVar(h, t) < BetweenVar(h, r))
    else r == 0
  }

  /** What the sweep variables hold on entry to iteration t. */
  ghost predicate SweepState(h: seq<nat>, t: nat, maxVar: int, best: Byte)
    requires IsHistogram(h)
  {
    || ((forall u :: u < t ==> !Splits(h, u)) && maxVar == 0 && best == 0)
    || (&& best < t && Splits(h, best) && maxVar == BetweenVar(h, best)
        && (forall u :: u < t && Splits(h, u) ==> BetweenVar(h, u) <= maxVar)
        && (forall u :: u < best && Splits(h, u) ==> BetweenVar(h, u) < maxVar))
  }

  /** Once the background holds every pixel, no later threshold splits. */
  lemma {:induction false} NoSplitAfterFull(h: seq<nat>, t: nat)
    requires IsHistogram(h) && t < NumBins && Weight(h, t + 1) >= ImgSize
    ensures forall u :: t <= u ==> !Splits(h, u)
  {
    forall u | t <= u < NumBins
      ensures !Splits(h, u)
    {
      SliceMoments(h, t + 1, u + 1);
    }
  }

  /** A sweep with no split threshold left returns its best so far. */
  lemma StopCorrect(h: seq<nat>, t: nat, maxVar: int, best: Byte)
    requires IsHistogram(h) && t <= NumBins && SweepState(h, t, maxVar, best)
    requires forall u :: t <= u ==> !Splits(h, u)
    ensures IsLowestArgmax(h, best)
  {
  }

  /** A threshold that does not split, or does not beat the best, changes nothing. */
  lemma KeepStep(h: seq<nat>, t: nat, maxVar: int, best: Byte)
    requires IsHistogram(h) && t < NumBins && SweepState(h, t, maxVar, best)
    requires !Splits(h, t) || (BetweenVar(h, t) <= maxVar && 1 <= BetweenVar(h, t))
    ensures SweepState(h, t + 1, maxVar, best)
  {
  }

  /** A strictly larger variance makes t the new best. */
  lemma UpdateStep(h: seq<nat>, t: nat, maxVar: int, best: Byte)
    requires IsHistogram(h) && t < NumBins && SweepState(h, t, maxVar, best)
    requires Splits(h, t) && BetweenVar(h, t) > maxVar
    ensures SweepState(h, t + 1, BetweenVar(h, t), t)
  {
  }

  lemma {:induction false} SweepCorrect(h: seq<nat>, t: nat, maxVar: int, best: Byte)
    requires IsHistogram(h) && t <= NumBins && SweepState(h, t, maxVar, best)
    ensures IsLowestArgmax(h, Sweep(h, t, maxVar, best))
    decreases NumBins - t
  {
    if t == NumBins {
      StopCorrect(h, t, maxVar, best);
    } else if Weight(h, t + 1) == 0 {
      KeepStep(h, t, maxVar, best);
      SweepCorrect(h, t + 1, maxVar, best);
    } else if Weight(h, t + 1) >= ImgSize {
      NoSplitAfterFull(h, t);
      StopCorrect(h, t, maxVar, best);
    } else {
      SplitFacts(h, t);
      if BetweenVar(h, t) > maxVar {
        UpdateStep(h, t, maxVar, best);
        SweepCorrect(h, t + 1, BetweenVar(h, t), t);
      } else {
        KeepStep(h, t, maxVar, best);
        SweepCorrect(h, t + 1, maxVar, best);
      }
    }
  }

  /**
   * otsu_compute's result is the lowest threshold maximising the
   * between-class variance, and 0 when no threshold splits the image.
   */
  lemma OtsuIsLowestArgmax(h: seq<nat>)
    requires IsHistogram(h)
    ensures IsLowestArgmax(h, OtsuThreshold(h))
  {
    SweepCorrect(h, 0, 0, 0);
  }

  /** One iteration of OTSU_SWEEP, read off the definition of Sweep. */
  lemma SweepStep(h: seq<nat>, t: nat, maxVar: int, best: Byte)
    requires IsHistogram(h) && t < NumBins
    ensures Weight(h, t + 1) == 0 ==> Sweep(h, t, maxVar, best) == Sweep(h, t + 1, maxVar, best)
    ensures Weight(h, t + 1) >= ImgSize ==> Sweep(h, t, maxVar, best) == best
    ensures Splits(h, t) && BetweenVar(h, t) > maxVar ==>
              Sweep(h, t, maxVar, best) == Sweep(h, t + 1, BetweenVar(h, t), t)
    ensures Splits(h, t) && BetweenVar(h, t) <= maxVar ==>
              Sweep(h, t, maxVar, best) == Sweep(h, t + 1, maxVar, best)
  {
  }

  /** SUM_TOTAL: the intensity sum of all pixels, sum over i of i * hist[i]. */
  method SumTotal(hist: array<nat>) returns (sumTotal: nat)
    requires hist.Length == NumBins
    ensures sumTotal == Moment(hist[..], NumBins)
  {
    sumTotal := 0;
    var i := 0;
    while i < NumBins
      invariant 0 <= i <= NumBins
      invariant sumTotal == Moment(hist[..], i)
    {
      sumTotal := sumTotal + i * hist[i];
      i := i + 1;
    }
  }

  /** otsu_compute: SUM_TOTAL, then OTSU_SWEEP. */
  method OtsuCompute(hist: array<nat>) returns (thr: Byte)
    requires hist.Length == NumBins && IsHistogram(hist[..])
    ensures thr == OtsuThreshold(hist[..])
    ensures IsLowestArgmax(hist[..], thr)
  {
    ghost var h := hist[..];
    var sumTotal := SumTotal(hist);
    var sumBg := 0;
    var weightBg := 0;
    var maxVar := 0;
    var bestThr: Byte := 0;
    var t := 0;
    while t < NumBins
      invariant 0 <= t <= NumBins
      invariant weightBg == Weight(h, t) && sumBg == Moment(h, t)
      invariant Sweep(h, t, maxVar, bestThr) == OtsuThreshold(h)
    {
      SliceMoments(h, t + 1, NumBins);
      SweepStep(h, t, maxVar, bestThr);
      weightBg := weightBg + hist[t];
      if weightBg == 0 {
        assert hist[t] == 0;
        t := t + 1;
        continue;
      }
      var weightFg := ImgSize - weightBg;
      if weightFg == 0 {
        break;
      }
      sumBg := sumBg + t * hist[t];
      SplitFacts(h, t);
      var sumFg := sumTotal - sumBg;
      var varBetween := ClassVariance(weightBg, weightFg, sumBg, sumFg);
      if varBetween > maxVar {
        maxVar := varBetween;
        bestThr := t;
      }
      t := t + 1;
    }
    thr := bestThr;
    OtsuIsLowestArgmax(h);
  }

  /** The bins of values other than c are empty: at most one class is non-empty. */
  lemma {:induction false} WeightsOfOneBin(h: seq<nat>, c: Byte, k: nat)
    requires |h| == NumBins && k <= NumBins
    requires forall v :: 0 <= v < NumBins && v != c ==> h[v] == 0
    ensures Weight(h, k) == if k <= c then 0 else h[c]
  {
    if k > 0 {
      WeightsOfOneBin(h, c, k - 1);
    }
  }

  lemma {:induction false} CountOfUniform(s: seq<Byte>, c: Byte, v: int)
    requires forall i :: 0 <= i < |s| ==> s[i] == c
    requires v != c
    ensures CountOf(s, v) == 0
  {
    if s != [] {
      CountOfUniform(s[..|s| - 1], c, v);
    }
  }

  /**
   * An image of one intensity has no threshold that splits it, so
   * otsu_compute returns 0; in particular so does an all-zero image.
   */
  lemma {:induction false} UniformImageOtsuZero(img: seq<Byte>, c: Byte)
    requires IsImage(img) && forall i :: 0 <= i < |img| ==> img[i] == c
    ensures IsHistogram(Hist(img))
    ensures forall t :: !Splits(Hist(img), t)
    ensures OtsuThreshold(Hist(img)) == 0
  {
    var h := Hist(img);
    ImageHistogram(img);
    forall v | 0 <= v < NumBins && v != c
      ensures h[v] == 0
    {
      CountOfUniform(img, c, v);
    }
    WeightsOfOneBin(h, c, NumBins);
    forall t | 0 <= t < NumBins
      ensures !Splits(h, t)
    {
      WeightsOfOneBin(h, c, t + 1);
    }
    OtsuIsLowestArgmax(h);
  }

  /** apply_threshold's output: 255 where the pixel exceeds thr, else 0. */
  function Binarize(img: seq<Byte>, thr: int): (mask: seq<Byte>)
    ensures |mask| == |img|
  {
    seq(|img|, i requires 0 <= i < |img| => if img[i] > thr then 255 else 0)
  }

  /**
   * The mask is binary, marks exactly the pixels above the threshold, and
   * its foreground count is the number of pixels above the threshold.
   */
  lemma {:induction false} BinarizeFacts(img: seq<Byte>, thr: int)
    ensures IsMask(Binarize(img, thr))
    ensures forall i :: 0 <= i < |img| ==> (Binarize(img, thr)[i] == 255 <==> img[i] > thr)
    ensures CountNonzero(Binarize(img, thr)) == CountAbove(img, thr)
  {
    if img != [] {
      var p := img[..|img| - 1];
      BinarizeFacts(p, thr);
      assert Binarize(img, thr)[..|img| - 1] == Binarize(p, thr);
    }
  }

  /** apply_threshold. */
  method ApplyThreshold(imgIn: seq<Byte>, imgOut: array<Byte>, thr: Byte)
    requires IsImage(imgIn) && imgOut.Length == ImgSize
    modifies imgOut
    ensures imgOut[..] == Binarize(imgIn, thr)
  {
    var i := 0;
    while i < ImgSize
      invariant 0 <= i <= ImgSize
      invariant imgOut[..i] == Binarize(imgIn, thr)[..i]
    {
      imgOut[i] := if imgIn[i] > thr then 255 else 0;
      i := i + 1;
    }
  }
}
