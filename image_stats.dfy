/**
 * The accelerator's statistics block (image_stats.cpp): one pass over the
 * image accumulating sum, sum of squares, minimum and maximum, the variance
 * as E[x^2] - mean^2 clamped at zero, a Newton square root, and the
 * three-way rule that turns the statistics into a processing mode.
 */
module ImageStatsHls {
  import opened Platform
  import opened IntSqrt

  /**
   * variance = floor(sum_sq / IMG_SIZE) - mean^2, or 0 when that difference
   * would be negative (the uint32_t subtraction is guarded, not wrapped).
   * The difference is never negative, so the variance is always exactly
   * E[x^2] - mean^2.
   */
  function OnePassVariance(img: seq<Byte>): (v: nat)
    requires IsImage(img)
    ensures v <= SumSq(img) / ImgSize <= 65025
    ensures v + MeanOf(img) * MeanOf(img) == SumSq(img) / ImgSize
  {
    MeanSquareAtMostSecondMoment(img);
    var mean := MeanOf(img);
    var ex2 := SumSq(img) / ImgSize;
    if ex2 > mean * mean then ex2 - mean * mean else 0
  }

  /**
   * floor(sum_sq / IMG_SIZE) >= mean^2 for the truncated mean: expanding
   * sum (x - mean)^2 >= 0 gives sum_sq >= IMG_SIZE * mean^2. So the guard
   * `e_x2 > mean_sq` at image_stats.cpp:41 only ever fails with equality,
   * where both branches give 0.
   */
  lemma MeanSquareAtMostSecondMoment(img: seq<Byte>)
    requires IsImage(img)
    ensures MeanOf(img) * MeanOf(img) <= SumSq(img) / ImgSize
  {
    var m := MeanOf(img);
    SqDevExpand(img, m);
    SecondMomentBound(SqDevSum(img, m), SumOf(img), SumSq(img), m);
  }

  /**
   * From d >= 0, d + 2 m s == q + N m^2 and m N <= s (N = IMG_SIZE):
   * q >= N m^2, hence floor(q / N) >= m^2.
   */
  lemma SecondMomentBound(d: nat, s: nat, q: nat, m: nat)
    requires d + 2 * m * s == q + ImgSize * (m * m)
    requires m * ImgSize <= s
    ensures m * m <= q / ImgSize
  {
    MulLe(m * ImgSize, s, 2 * m);
    assert 2 * m * (m * ImgSize) == 2 * (ImgSize * (m * m));
    assert ImgSize * (m * m) <= q;
    DivLowerBound(q, m * m);
  }

  /** k * IMG_SIZE <= q gives k <= q / IMG_SIZE. */
  lemma DivLowerBound(q: nat, k: nat)
    requires ImgSize * k <= q
    ensures k <= q / ImgSize
  {
  }

  /** What compute_image_stats writes into its ImageStats record. */
  function StatsOf(img: seq<Byte>): Stats
    requires IsImage(img)
  {
    var s := ISqrt(OnePassVariance(img));
    Stats(MeanOf(img), Min(s, 255), MaxOf(img) - MinOf(img), MinOf(img), MaxOf(img))
  }

  /** compute_image_stats: the single accumulation loop, then the Newton root. */
  method ComputeImageStats(img: seq<Byte>) returns (stats: Stats)
    requires IsImage(img)
    ensures stats == StatsOf(img)
    ensures forall i :: 0 <= i < |img| ==> stats.minVal <= img[i] <= stats.maxVal
    ensures exists i :: 0 <= i < |img| && img[i] == stats.minVal
    ensures exists i :: 0 <= i < |img| && img[i] == stats.maxVal
    ensures stats.contrast == stats.maxVal - stats.minVal
    ensures stats.stdDev * stats.stdDev <= OnePassVariance(img)
    ensures OnePassVariance(img) < (stats.stdDev + 1) * (stats.stdDev + 1)
  {
    var sum: nat := 0;
    var sumSq: nat := 0;
    var vMin: Byte := 255;
    var vMax: Byte := 0;
    var i := 0;
    while i < ImgSize
      invariant 0 <= i <= ImgSize
      invariant sum == SumOf(img[..i]) && sumSq == SumSq(img[..i])
      invariant vMin == MinOf(img[..i]) && vMax == MaxOf(img[..i])
    {
      var px := img[i];
      assert img[..i + 1][..i] == img[..i];
      sum := sum + px;
      sumSq := sumSq + px as int * px as int;
      if px < vMin {
        vMin := px;
      }
      if px > vMax {
        vMax := px;
      }
      i := i + 1;
    }
    assert img[..ImgSize] == img;
    MeanBound(sum, ImgSize);
    var mean: Byte := sum / ImgSize;
    var meanSq := mean * mean;
    var ex2 := sumSq / ImgSize;
    var variance := if ex2 > meanSq then ex2 - meanSq else 0;
    var s := NewtonSqrt(variance);
    stats := Stats(mean, Min(s, 255), vMax - vMin, vMin, vMax);
    StatsOfFacts(img);
  }

  lemma StatsOfFacts(img: seq<Byte>)
    requires IsImage(img)
    ensures var stats := StatsOf(img);
      && (forall i :: 0 <= i < |img| ==> stats.minVal <= img[i] <= stats.maxVal)
      && (exists i :: 0 <= i < |img| && img[i] == stats.minVal)
      && (exists i :: 0 <= i < |img| && img[i] == stats.maxVal)
      && stats.contrast == stats.maxVal - stats.minVal
      && stats.stdDev * stats.stdDev <= OnePassVariance(img)
      && OnePassVariance(img) < (stats.stdDev + 1) * (stats.stdDev + 1)
  {
    SqrtOfByteSquare(OnePassVariance(img));
    MinMaxAreExtremes(img);
  }

  /** select_mode: the rule-based selector. */
  function SelectMode(stats: Stats): (m: ProcessingMode)
    ensures m == Fast <==> stats.contrast >= 150 && stats.stdDev >= 50
    ensures m == Normal <==> !(stats.contrast >= 150 && stats.stdDev >= 50)
                             && stats.contrast >= 80 && stats.stdDev >= 25
    ensures m == Careful <==> !(stats.contrast >= 80 && stats.stdDev >= 25)
  {
    if stats.contrast >= 150 && stats.stdDev >= 50 then Fast
    else if stats.contrast >= 80 && stats.stdDev >= 25 then Normal
    else Careful
  }

  /**
   * Modes are ordered by post-processing effort: an image with at least the
   * contrast and spread of another never gets a more careful mode.
   */
  lemma SelectModeMonotone(a: Stats, b: Stats)
    requires a.contrast <= b.contrast && a.stdDev <= b.stdDev
    ensures SelectMode(b).Code() <= SelectMode(a).Code()
  {
  }

  /** The clamp of std_dev to 255 never fires: the variance is at most 255^2. */
  lemma {:induction false} StdDevIsExactRoot(img: seq<Byte>)
    requires IsImage(img)
    ensures StatsOf(img).stdDev == ISqrt(OnePassVariance(img))
    ensures StatsOf(img).mean <= 255 && OnePassVariance(img) <= 65025
  {
    SqrtOfByteSquare(OnePassVariance(img));
    MinMaxAreExtremes(img);
  }

  /**
   * An all-zero image: mean 0, std_dev 0, contrast 0, and hence CAREFUL.
   */
  lemma {:induction false} AllZeroImageStats(img: seq<Byte>)
    requires IsImage(img) && forall i :: 0 <= i < |img| ==> img[i] == 0
    ensures StatsOf(img) == Stats(0, 0, 0, 0, 0)
    ensures SelectMode(StatsOf(img)) == Careful
  {
    UniformImage(img, 0);
    assert OnePassVariance(img) == 0;
  }
}
