/**
 * The firmware's own statistics and mode choice (adaptive_controller.c),
 * computed on the processor before the accelerator is started. Unlike the
 * accelerator's block it takes two passes: the truncated mean first, then
 * the mean squared deviation from that truncated mean.
 */
module AdaptiveController {
  import opened Platform
  import opened IntSqrt
  import ImageStatsHls

  /** What adaptive_compute_stats writes into its SwImageStats record. */
  function SwStatsOf(img: seq<Byte>): Stats
    requires IsImage(img)
  {
    var s := ISqrt(TwoPassVariance(img));
    Stats(MeanOf(img), Min(s, 255), MaxOf(img) - MinOf(img), MinOf(img), MaxOf(img))
  }

  /** The properties the firmware relies on when it reads the record. */
  lemma SwStatsOfFacts(img: seq<Byte>)
    requires IsImage(img)
    ensures var stats := SwStatsOf(img);
      && (forall i :: 0 <= i < |img| ==> stats.minVal <= img[i] <= stats.maxVal)
      && (exists i :: 0 <= i < |img| && img[i] == stats.minVal)
      && (exists i :: 0 <= i < |img| && img[i] == stats.maxVal)
      && stats.contrast == stats.maxVal - stats.minVal
      && stats.mean * ImgSize <= SumOf(img) < (stats.mean + 1) * ImgSize
      && stats.stdDev == ISqrt(TwoPassVariance(img))
      && stats.stdDev * stats.stdDev <= TwoPassVariance(img)
      && TwoPassVariance(img) < (stats.stdDev + 1) * (stats.stdDev + 1)
  {
    SqrtOfByteSquare(TwoPassVariance(img));
    MinMaxAreExtremes(img);
  }

  /**
   * adaptive_compute_stats. The 32-bit `sum` cannot wrap: it is at most
   * 255 * IMG_SIZE.
   */
  method AdaptiveComputeStats(img: seq<Byte>) returns (stats: Stats)
    requires IsImage(img)
    ensures stats == SwStatsOf(img)
    ensures SumOf(img) <= U32Max
  {
    // Pass 1: mean, min, max
    var sum: nat := 0;
    var minV: Byte := 255;
    var maxV: Byte := 0;
    var i := 0;
    while i < ImgSize
      invariant 0 <= i <= ImgSize
      invariant sum == SumOf(img[..i]) && sum <= U32Max
      invariant minV == MinOf(img[..i]) && maxV == MaxOf(img[..i])
    {
      var p := img[i];
      assert img[..i + 1][..i] == img[..i];
      sum := sum + p;
      if p < minV {
        minV := p;
      }
      if p > maxV {
        maxV := p;
      }
      i := i + 1;
    }
    assert img[..ImgSize] == img;
    MeanBound(sum, ImgSize);
    var mean: Byte := sum / ImgSize;
    assert mean == MeanOf(img);

    // Pass 2: sum of squared deviations from the truncated mean
    var varSum: nat := 0;
    i := 0;
    while i < ImgSize
      invariant 0 <= i <= ImgSize
      invariant varSum == SqDevSum(img[..i], mean)
    {
      var diff := img[i] as int - mean as int;
      assert img[..i + 1][..i] == img[..i];
      varSum := varSum + diff * diff;
      i := i + 1;
    }
    assert img[..ImgSize] == img;
    assert varSum == SqDevSum(img, mean);
    var variance := varSum / ImgSize;
    assert variance == TwoPassVariance(img);
    var s := NewtonSqrt(variance);
    stats := Stats(mean, Min(s, 255), maxV - minV, minV, maxV);
  }

  /** adaptive_select_mode: returns PROCESSING_MODE_FAST/NORMAL/CAREFUL (0/1/2). */
  function AdaptiveSelectMode(stats: Stats): (m: Byte)
    ensures m == ModeFast <==> stats.contrast >= 150 && stats.stdDev >= 50
    ensures m == ModeNormal <==> !(stats.contrast >= 150 && stats.stdDev >= 50)
                                 && stats.contrast >= 80 && stats.stdDev >= 25
    ensures m == ModeCareful <==> !(stats.contrast >= 80 && stats.stdDev >= 25)
  {
    if stats.contrast >= 150 && stats.stdDev >= 50 then ModeFast
    else if stats.contrast >= 80 && stats.stdDev >= 25 then ModeNormal
    else ModeCareful
  }

  /**
   * The firmware's selector and the accelerator's select_mode use the same
   * thresholds: on the same statistics the byte code equals the enum value.
   */
  lemma AdaptiveMatchesHls(stats: Stats)
    ensures AdaptiveSelectMode(stats) == ImageStatsHls.SelectMode(stats).Code()
  {
  }

  /** An all-zero image: mean 0, std_dev 0, contrast 0, hence CAREFUL (2). */
  lemma {:induction false} AllZeroImageSwStats(img: seq<Byte>)
    requires IsImage(img) && forall i :: 0 <= i < |img| ==> img[i] == 0
    ensures SwStatsOf(img) == Stats(0, 0, 0, 0, 0)
    ensures AdaptiveSelectMode(SwStatsOf(img)) == ModeCareful
  {
    UniformImage(img, 0);
    assert TwoPassVariance(img) == 0;
  }
}
