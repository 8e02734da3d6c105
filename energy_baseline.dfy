/**
 * energy_sw_baseline (energy_analyzer.c): the processor-only Otsu that
 * the firmware times against the accelerator. It walks the same histogram
 * sweep as otsu_compute, but keeps its best variance in a uint32_t that
 * saturates at 0xFFFFFFFF, while the variances themselves are 64-bit.
 * Once a variance above 0xFFFFFFFF has been seen, every later variance
 * above 0xFFFFFFFF wins the strict comparison again, so the baseline ends
 * on the LAST such threshold where otsu_compute keeps the FIRST maximum.
 */
module EnergyBaseline {
  import opened Platform
  import opened Histogram
  import opened Otsu
  import opened OtsuTop

  /**
   * The baseline sweep from t on: the skip and stop rules of otsu_compute,
   * but the stored best variance is min(var, 0xFFFFFFFF).
   */
  function BaselineSweep(h: seq<nat>, t: nat, bestVar: int, best: Byte): Byte
    requires IsHistogram(h) && t <= NumBins
    decreases NumBins - t
  {
    if t == NumBins then best
    else if Weight(h, t + 1) == 0 then BaselineSweep(h, t + 1, bestVar, best)
    else if Weight(h, t + 1) >= ImgSize then best
    else if BetweenVar(h, t) > bestVar then
      BaselineSweep(h, t + 1, Min(BetweenVar(h, t), U32Max), t)
    else BaselineSweep(h, t + 1, bestVar, best)
  }

  /** The threshold energy_sw_baseline applies. */
  function BaselineThreshold(h: seq<nat>): Byte
    requires IsHistogram(h)
  {
    BaselineSweep(h, 0, 0, 0)
  }

  /** One iteration of the baseline sweep, read off its definition. */
  lemma BaselineStep(h: seq<nat>, t: nat, bestVar: int, best: Byte)
    requires IsHistogram(h) && t < NumBins
    ensures Weight(h, t + 1) == 0 ==>
              BaselineSweep(h, t, bestVar, best) == BaselineSweep(h, t + 1, bestVar, best)
    ensures Weight(h, t + 1) >= ImgSize ==> BaselineSweep(h, t, bestVar, best) == best
    ensures Splits(h, t) && BetweenVar(h, t) > bestVar ==>
              BaselineSweep(h, t, bestVar, best) ==
              BaselineSweep(h, t + 1, Min(BetweenVar(h, t), U32Max), t)
    ensures Splits(h, t) && BetweenVar(h, t) <= bestVar ==>
              BaselineSweep(h, t, bestVar, best) == BaselineSweep(h, t + 1, bestVar, best)
  {
  }

  /**
   * energy_sw_baseline: histogram, intensity sum, the saturating sweep, and
   * the mask. The histogram, sum and mask loops compute exactly what
   * compute_histogram, otsu_compute's SUM_TOTAL and apply_threshold do, so
   * those methods stand in for them.
   */
  method EnergySwBaseline(img: array<Byte>, maskOut: array<Byte>)
    requires img.Length == ImgSize && maskOut.Length == ImgSize && img != maskOut
    modifies maskOut
    ensures IsHistogram(Hist(img[..]))
    ensures maskOut[..] == Binarize(img[..], BaselineThreshold(Hist(img[..])))
  {
    var hist := new nat[NumBins];
    ComputeHistogram(img[..], hist);
    BaselineSumFits(img[..]);
    var threshold := BaselineSweepLoop(hist);
    ApplyThreshold(img[..], maskOut, threshold);
  }

  /** |mb - mf| squared is (mb - mf) squared: the unsigned diff of the source. */
  lemma AbsDiffVariance(wb: nat, wf: nat, sb: nat, sf: nat, diff: int)
    requires wb > 0 && wf > 0
    requires diff == if sb / wb > sf / wf then sb / wb - sf / wf else sf / wf - sb / wb
    ensures wb * wf * (diff * diff) == ClassVariance(wb, wf, sb, sf)
  {
    var d := sb / wb - sf / wf;
    assert diff * diff == d * d;
  }

  /** The sweep loop of energy_sw_baseline, with its uint32_t best_var. */
  method BaselineSweepLoop(hist: array<nat>) returns (threshold: Byte)
    requires hist.Length == NumBins && IsHistogram(hist[..])
    ensures threshold == BaselineThreshold(hist[..])
  {
    ghost var h := hist[..];
    var sum := SumTotal(hist);
    var sumB := 0;
    var wB := 0;
    var bestVar := 0;
    threshold := 0;
    var t := 0;
    while t < NumBins
      invariant 0 <= t <= NumBins
      invariant wB == Weight(h, t) && sumB == Moment(h, t)
      invariant 0 <= bestVar <= U32Max
      invariant BaselineSweep(h, t, bestVar, threshold) == BaselineThreshold(h)
    {
      SliceMoments(h, t + 1, NumBins);
      BaselineStep(h, t, bestVar, threshold);
      wB := wB + hist[t];
      if wB == 0 {
        assert hist[t] == 0;
        t := t + 1;
        continue;
      }
      var wF := ImgSize - wB;
      if wF == 0 {
        break;
      }
      sumB := sumB + t * hist[t];
      SplitFacts(h, t);
      var sumF: nat := sum - sumB;
      var meanB := sumB / wB;
      var meanF := sumF / wF;
      var diff := if meanB > meanF then meanB - meanF else meanF - meanB;
      AbsDiffVariance(wB, wF, sumB, sumF, diff);
      var v := wB * wF * (diff * diff);
      if v > bestVar {
        bestVar := v / 0x1_0000;   // the scaled store, overwritten just below
        threshold := t;
        bestVar := if v > U32Max then U32Max else v;
      }
      t := t + 1;
    }
  }

  /**
   * The 32-bit `sum` of the baseline cannot wrap: it is the pixel sum, at
   * most 255 * IMG_SIZE, and so is each term t * hist[t].
   */
  lemma {:induction false} BaselineSumFits(img: seq<Byte>)
    requires IsImage(img)
    ensures IsHistogram(Hist(img))
    ensures Moment(Hist(img), NumBins) == SumOf(img) <= U32Max
    ensures forall t :: 0 <= t < NumBins ==> t * Hist(img)[t] <= U32Max
  {
    ImageHistogram(img);
    forall t | 0 <= t < NumBins
      ensures t * Hist(img)[t] <= U32Max
    {
      var h := Hist(img);
      SliceMoments(h, t, t + 1);
      SliceMoments(h, t + 1, NumBins);
      SliceMoments(h, 0, t);
    }
  }

  /**
   * Without saturation the two sweeps agree: when no split threshold has a
   * variance above 0xFFFFFFFF, the stored best is exact and the baseline
   * returns otsu_compute's threshold.
   */
  lemma {:induction false} BaselineMatchesSweep(h: seq<nat>, t: nat, maxVar: int, best: Byte)
    requires IsHistogram(h) && t <= NumBins && maxVar <= U32Max
    requires forall u :: Splits(h, u) ==> BetweenVar(h, u) <= U32Max
    ensures BaselineSweep(h, t, maxVar, best) == Sweep(h, t, maxVar, best)
    decreases NumBins - t
  {
    if t < NumBins {
      SweepStep(h, t, maxVar, best);
      BaselineStep(h, t, maxVar, best);
      if Weight(h, t + 1) == 0 {
        BaselineMatchesSweep(h, t + 1, maxVar, best);
      } else if Weight(h, t + 1) < ImgSize {
        if BetweenVar(h, t) > maxVar {
          BaselineMatchesSweep(h, t + 1, BetweenVar(h, t), t);
        } else {
          BaselineMatchesSweep(h, t + 1, maxVar, best);
        }
      }
    }
  }

  lemma BaselineAgreesWithoutSaturation(h: seq<nat>)
    requires IsHistogram(h)
    requires forall u :: Splits(h, u) ==> BetweenVar(h, u) <= U32Max
    ensures BaselineThreshold(h) == OtsuThreshold(h)
  {
    BaselineMatchesSweep(h, 0, 0, 0);
  }

  /** Some split threshold has a variance the uint32_t cannot hold. */
  ghost predicate Saturates(h: seq<nat>)
    requires IsHistogram(h)
  {
    exists u :: Splits(h, u) && BetweenVar(h, u) > U32Max
  }

  /** r is the last split threshold whose variance exceeds 0xFFFFFFFF. */
  ghost predicate IsLastSaturating(h: seq<nat>, r: int)
    requires IsHistogram(h)
  {
    && Splits(h, r) && BetweenVar(h, r) > U32Max
    && forall u :: r < u && Splits(h, u) ==> BetweenVar(h, u) <= U32Max
  }

  /** The sweep variables of the baseline on entry to iteration t. */
  ghost predicate BaselineState(h: seq<nat>, t: nat, bestVar: int, best: Byte)
    requires IsHistogram(h)
  {
    && 0 <= bestVar <= U32Max
    && ((exists u :: u < t && Splits(h, u) && BetweenVar(h, u) > U32Max) ==>
          && bestVar == U32Max && best < t && Splits(h, best) && BetweenVar(h, best) > U32Max
          && forall u :: best < u < t && Splits(h, u) ==> BetweenVar(h, u) <= U32Max)
  }

  lemma BaselineKeep(h: seq<nat>, t: nat, bestVar: int, best: Byte)
    requires IsHistogram(h) && t < NumBins && BaselineState(h, t, bestVar, best)
    requires !Splits(h, t) || BetweenVar(h, t) <= bestVar
    ensures BaselineState(h, t + 1, bestVar, best)
  {
  }

  lemma BaselineUpdate(h: seq<nat>, t: nat, bestVar: int, best: Byte)
    requires IsHistogram(h) && t < NumBins && BaselineState(h, t, bestVar, best)
    requires Splits(h, t) && BetweenVar(h, t) > bestVar
    ensures BaselineState(h, t + 1, Min(BetweenVar(h, t), U32Max), t)
  {
  }

  lemma {:induction false} BaselineLast(h: seq<nat>, t: nat, bestVar: int, best: Byte)
    requires IsHistogram(h) && t <= NumBins && BaselineState(h, t, bestVar, best)
    ensures Saturates(h) ==> IsLastSaturating(h, BaselineSweep(h, t, bestVar, best))
    decreases NumBins - t
  {
    if t < NumBins {
      BaselineStep(h, t, bestVar, best);
      if Weight(h, t + 1) == 0 {
        BaselineKeep(h, t, bestVar, best);
        BaselineLast(h, t + 1, bestVar, best);
      } else if Weight(h, t + 1) >= ImgSize {
        NoSplitAfterFull(h, t);
      } else if BetweenVar(h, t) > bestVar {
        BaselineUpdate(h, t, bestVar, best);
        BaselineLast(h, t + 1, Min(BetweenVar(h, t), U32Max), t);
      } else {
        BaselineKeep(h, t, bestVar, best);
        BaselineLast(h, t + 1, bestVar, best);
      }
    }
  }

  /**
   * Once some variance overflows the uint32_t, the baseline returns the
   * last threshold whose variance does, not the first maximum.
   */
  lemma BaselineIsLastSaturating(h: seq<nat>)
    requires IsHistogram(h) && Saturates(h)
    ensures IsLastSaturating(h, BaselineThreshold(h))
  {
    BaselineLast(h, 0, 0, 0);
  }

  /** An image of one intensity keeps the baseline's threshold at 0. */
  lemma UniformImageBaselineZero(img: seq<Byte>, c: Byte)
    requires IsImage(img) && forall i :: 0 <= i < |img| ==> img[i] == c
    ensures IsHistogram(Hist(img))
    ensures BaselineThreshold(Hist(img)) == 0
  {
    UniformImageOtsuZero(img, c);
    BaselineAgreesWithoutSaturation(Hist(img));
  }

  /** Half the pixels at 0, a quarter at 128 and a quarter at 255. */
  function ThreeLevelImage(): (img: seq<Byte>)
    ensures IsImage(img)
  {
    seq(ImgSize, i => if i < 32768 then 0 else if i < 49152 then 128 else 255)
  }

  function ThreeLevelHist(): seq<nat> {
    seq(NumBins, v => if v == 0 then 32768 else if v == 128 || v == 255 then 16384 else 0)
  }

  lemma {:induction false} ThreeLevelCounts(k: nat)
    requires k <= ImgSize
    ensures CountOf(ThreeLevelImage()[..k], 0) == Min(k, 32768)
    ensures CountOf(ThreeLevelImage()[..k], 128) == Min(Max(k - 32768, 0), 16384)
    ensures CountOf(ThreeLevelImage()[..k], 255) == Max(k - 49152, 0)
    ensures forall v :: v != 0 && v != 128 && v != 255 ==> CountOf(ThreeLevelImage()[..k], v) == 0
  {
    if k > 0 {
      var img := ThreeLevelImage();
      ThreeLevelCounts(k - 1);
      assert img[..k][..k - 1] == img[..k - 1];
    }
  }

  lemma ThreeLevelHistogram()
    ensures Hist(ThreeLevelImage()) == ThreeLevelHist()
  {
    var img := ThreeLevelImage();
    ThreeLevelCounts(ImgSize);
    assert img[..ImgSize] == img;
  }

  lemma {:induction false} ThreeLevelPrefix(k: nat)
    requires k <= NumBins
    ensures Weight(ThreeLevelHist(), k) ==
              if k == 0 then 0 else if k <= 128 then 32768 else if k <= 255 then 49152 else 65536
    ensures Moment(ThreeLevelHist(), k) ==
              if k <= 128 then 0 else if k <= 255 then 2097152 else 6275072
  {
    if k > 0 {
      ThreeLevelPrefix(k - 1);
    }
  }

  /**
   * The three-level histogram: thresholds 0..127 all score
   * 32768 * 32768 * 191^2 and thresholds 128..254 all score
   * 49152 * 16384 * 213^2, both above 0xFFFFFFFF, the first larger.
   */
  lemma ThreeLevelScoreAt(t: int)
    requires 0 <= t < NumBins
    ensures IsHistogram(ThreeLevelHist())
    ensures Splits(ThreeLevelHist(), t) <==> t <= 254
    ensures t <= 127 ==> BetweenVar(ThreeLevelHist(), t) == 39171175481344
    ensures 128 <= t <= 254 ==> BetweenVar(ThreeLevelHist(), t) == 36535944609792
  {
    var h := ThreeLevelHist();
    ThreeLevelPrefix(t + 1);
    ThreeLevelPrefix(NumBins);
    if t <= 127 {
      assert Weight(h, t + 1) == 32768 && Moment(h, t + 1) == 0;
      LowerScore();
    } else if t <= 254 {
      assert Weight(h, t + 1) == 49152 && Moment(h, t + 1) == 2097152;
      UpperScore();
    }
  }

  lemma LowerScore()
    ensures ClassVariance(32768, 32768, 0, 6275072) == 39171175481344
  {
    assert 6275072 / 32768 == 191;
  }

  lemma UpperScore()
    ensures ClassVariance(49152, 16384, 2097152, 4177920) == 36535944609792
  {
    assert 2097152 / 49152 == 42 && 4177920 / 16384 == 255;
  }

  /** otsu_compute keeps the first of the equal scores of 0..127: threshold 0. */
  lemma ThreeLevelOtsu()
    ensures IsHistogram(ThreeLevelHist())
    ensures OtsuThreshold(ThreeLevelHist()) == 0
  {
    var h := ThreeLevelHist();
    ThreeLevelScoreAt(0);
    var r := OtsuThreshold(h);
    ThreeLevelScoreAt(r);
    OtsuIsLowestArgmax(h);
  }

  /** Every split threshold saturates, so the baseline ends on the last, 254. */
  lemma ThreeLevelBaseline()
    ensures IsHistogram(ThreeLevelHist())
    ensures BaselineThreshold(ThreeLevelHist()) == 254
  {
    var h := ThreeLevelHist();
    ThreeLevelScoreAt(254);
    var r := BaselineThreshold(h);
    ThreeLevelScoreAt(r);
    BaselineIsLastSaturating(h);
  }

  /**
   * The comment "same algorithm as HLS" does not hold: on the three-level
   * image otsu_compute returns 0 while the baseline returns 254, and the
   * two masks differ on every pixel of value 128.
   */
  lemma BaselineDivergesFromHls()
    ensures IsHistogram(Hist(ThreeLevelImage()))
    ensures OtsuOf(ThreeLevelImage()) == 0
    ensures BaselineThreshold(Hist(ThreeLevelImage())) == 254
    ensures FinalMask(ThreeLevelImage(), ModeFast)[32768] == 255
    ensures Binarize(ThreeLevelImage(), 254)[32768] == 0
  {
    ThreeLevelHistogram();
    ThreeLevelOtsu();
    ThreeLevelBaseline();
  }
}
