/**
 * otsu_threshold_top, the accelerator's entry point (otsu_threshold.cpp):
 * histogram, Otsu threshold, the CAREFUL fallback to a stricter
 * statistical threshold, binarisation, mode-dependent opening and closing,
 * the foreground count and the result record. `mode` is the raw byte the
 * processor writes into the control register, not a three-valued enum.
 */
module OtsuTop {
  import opened Platform
  import opened IntSqrt
  import opened Histogram
  import opened Otsu
  import opened Morphology

  /** OtsuResult: threshold, foreground_pixels, mode_used. */
  datatype OtsuResult = OtsuResult(threshold: Byte, foregroundPixels: nat, modeUsed: Byte)

  /** The CAREFUL fallback: clamp(mean + (3 * isqrt(variance)) / 5, 1, 255). */
  function StrictThreshold(img: seq<Byte>): Byte
    requires IsImage(img)
  {
    var strict := MeanOf(img) + (3 * ISqrt(TwoPassVariance(img))) / 5;
    if strict > 255 then 255 else if strict < 1 then 1 else strict
  }

  /** The Otsu threshold of the image's histogram. */
  function OtsuOf(img: seq<Byte>): Byte
    requires IsImage(img)
  {
    ImageHistogram(img);
    OtsuThreshold(Hist(img))
  }

  /** The fallback fires in CAREFUL mode when Otsu marks more than 20 % of the pixels. */
  predicate FallbackFires(img: seq<Byte>, mode: Byte)
    requires IsImage(img)
  {
    mode == ModeCareful && CountAbove(img, OtsuOf(img)) > ImgSize / 5
  }

  /** The threshold otsu_threshold_top applies and reports. */
  function ThresholdFor(img: seq<Byte>, mode: Byte): Byte
    requires IsImage(img)
  {
    if FallbackFires(img, mode) then StrictThreshold(img) else OtsuOf(img)
  }

  /** Step 5: open when mode >= MODE_NORMAL, then close when mode == MODE_CAREFUL. */
  function PostProcess(mask: seq<Byte>, mode: Byte): (out: seq<Byte>)
    requires IsImage(mask)
    ensures IsImage(out)
  {
    var afterOpen := if mode >= ModeNormal then Dilate(Erode(mask)) else mask;
    if mode == ModeCareful then Erode(Dilate(afterOpen)) else afterOpen
  }

  /** The mask otsu_threshold_top writes to img_out. */
  function FinalMask(img: seq<Byte>, mode: Byte): (out: seq<Byte>)
    requires IsImage(img)
    ensures IsImage(out)
  {
    PostProcess(Binarize(img, ThresholdFor(img, mode)), mode)
  }

  /** The record otsu_threshold_top fills in. */
  function TopResult(img: seq<Byte>, mode: Byte): OtsuResult
    requires IsImage(img)
  {
    OtsuResult(ThresholdFor(img, mode), CountNonzero(FinalMask(img, mode)), mode)
  }

  /** otsu_threshold_top. */
  method OtsuThresholdTop(imgIn: array<Byte>, imgOut: array<Byte>, mode: Byte)
    returns (result: OtsuResult)
    requires imgIn.Length == ImgSize && imgOut.Length == ImgSize && imgIn != imgOut
    modifies imgOut
    ensures imgOut[..] == FinalMask(imgIn[..], mode)
    ensures result == TopResult(imgIn[..], mode)
  {
    ghost var img := imgIn[..];
    var localIn := new Byte[ImgSize];
    CopyImage(imgIn, localIn);                     // READ_IN
    var thr := ChooseThreshold(localIn, mode);     // steps 1 to 3
    var localOut := new Byte[ImgSize];
    ApplyThreshold(localIn[..], localOut, thr);    // step 4
    if mode >= ModeNormal {                        // step 5
      MorphOpen(localOut);
    }
    if mode == ModeCareful {
      MorphClose(localOut);
    }
    ghost var mask := localOut[..];
    assert mask == FinalMask(img, mode);
    var fg := CountForeground(localOut);           // COUNT_FINAL
    CopyImage(localOut, imgOut);                   // WRITE_OUT
    result := OtsuResult(thr, fg, mode);
  }

  /** READ_IN and WRITE_OUT: copy every pixel. */
  method CopyImage(src: array<Byte>, dst: array<Byte>)
    requires src.Length == ImgSize && dst.Length == ImgSize && src != dst
    modifies dst
    ensures dst[..] == src[..]
  {
    var i := 0;
    while i < ImgSize
      invariant 0 <= i <= ImgSize
      invariant dst[..i] == src[..i]
    {
      dst[i] := src[i];
      i := i + 1;
    }
  }

  /**
   * Steps 1 to 3: histogram, Otsu threshold, and in CAREFUL mode the
   * foreground count COUNT_FG and the fallback.
   */
  method ChooseThreshold(img: array<Byte>, mode: Byte) returns (thr: Byte)
    requires img.Length == ImgSize
    ensures thr == ThresholdFor(img[..], mode)
  {
    var hist := new nat[NumBins];
    ComputeHistogram(img[..], hist);
    thr := OtsuCompute(hist);
    assert thr == OtsuOf(img[..]);
    if mode == ModeCareful {
      var fgCount := CountAboveLoop(img, thr);
      var fracLimit := ImgSize / 5;
      if fgCount > fracLimit {
        thr := StrictLoop(img);
      }
    }
  }

  /** COUNT_FINAL: the number of non-zero mask pixels. */
  method CountForeground(mask: array<Byte>) returns (fg: nat)
    requires mask.Length == ImgSize
    ensures fg == CountNonzero(mask[..])
    ensures fg <= ImgSize
  {
    fg := 0;
    var i := 0;
    while i < ImgSize
      invariant 0 <= i <= ImgSize
      invariant fg == CountNonzero(mask[..i])
    {
      assert mask[..i + 1][..i] == mask[..i];
      fg := fg + if mask[i] > 0 then 1 else 0;
      i := i + 1;
    }
    assert mask[..ImgSize] == mask[..];
  }

  /** COUNT_FG: the number of pixels above thr. */
  method CountAboveLoop(img: array<Byte>, thr: Byte) returns (count: nat)
    requires img.Length == ImgSize
    ensures count == CountAbove(img[..], thr)
    ensures count <= ImgSize
  {
    count := 0;
    var i := 0;
    while i < ImgSize
      invariant 0 <= i <= ImgSize
      invariant count == CountAbove(img[..i], thr)
    {
      assert img[..i + 1][..i] == img[..i];
      if img[i] > thr {
        count := count + 1;
      }
      i := i + 1;
    }
    assert img[..ImgSize] == img[..];
  }

  /** SUM_MEAN, SUM_VAR, the Newton root and the clamp of the CAREFUL fallback. */
  method StrictLoop(img: array<Byte>) returns (thr: Byte)
    requires img.Length == ImgSize
    ensures thr == StrictThreshold(img[..])
  {
    ghost var s := img[..];
    var sum := 0;
    var i := 0;
    while i < ImgSize
      invariant 0 <= i <= ImgSize
      invariant sum == SumOf(s[..i])
    {
      assert s[..i + 1][..i] == s[..i];
      sum := sum + img[i];
      i := i + 1;
    }
    assert s[..ImgSize] == s;
    MeanBound(sum, ImgSize);
    var imgMean: Byte := sum / ImgSize;
    assert imgMean == MeanOf(s);

    var varSum := 0;
    i := 0;
    while i < ImgSize
      invariant 0 <= i <= ImgSize
      invariant varSum == SqDevSum(s[..i], imgMean)
    {
      assert s[..i + 1][..i] == s[..i];
      var diff := img[i] as int - imgMean as int;
      varSum := varSum + diff * diff;
      i := i + 1;
    }
    assert s[..ImgSize] == s;
    var varAvg := varSum / ImgSize;
    assert varAvg == TwoPassVariance(s);
    var root := NewtonSqrt(varAvg);
    var strictT := imgMean + (3 * root) / 5;
    if strictT > 255 {
      strictT := 255;
    }
    if strictT < 1 {
      strictT := 1;
    }
    thr := strictT;
  }

  /**
   * Outside the fallback the applied threshold is the plain Otsu choice:
   * the lowest threshold of largest between-class variance, or 0 when no
   * threshold splits the image.
   */
  lemma {:induction false} ThresholdIsOtsuUnlessFallback(img: seq<Byte>, mode: Byte)
    requires IsImage(img)
    ensures IsHistogram(Hist(img))
    ensures mode != ModeCareful ==> !FallbackFires(img, mode)
    ensures !FallbackFires(img, mode) ==> IsLowestArgmax(Hist(img), ThresholdFor(img, mode))
    ensures FallbackFires(img, mode) ==> ThresholdFor(img, mode) == StrictThreshold(img)
  {
    ImageHistogram(img);
    OtsuIsLowestArgmax(Hist(img));
  }

  /**
   * The fallback threshold is at least the mean and at least 1, and the
   * uint16_t sum mean + (3 * s) / 5 stays below 409, so it cannot wrap.
   */
  lemma {:induction false} StrictThresholdBounds(img: seq<Byte>)
    requires IsImage(img)
    ensures MeanOf(img) + (3 * ISqrt(TwoPassVariance(img))) / 5 <= 408
    ensures 1 <= StrictThreshold(img) && MeanOf(img) <= StrictThreshold(img)
  {
    SqrtOfByteSquare(TwoPassVariance(img));
  }

  lemma {:induction false} CountNonzeroMono(a: seq<Byte>, b: seq<Byte>)
    requires |a| == |b| && forall i :: 0 <= i < |a| ==> (a[i] > 0 ==> b[i] > 0)
    ensures CountNonzero(a) <= CountNonzero(b)
  {
    if a != [] {
      CountNonzeroMono(a[..|a| - 1], b[..|b| - 1]);
    }
  }

  /**
   * Without the close (every mode but CAREFUL) post-processing only removes
   * foreground: a foreground output pixel was above the threshold, so the
   * reported count is at most the count above it, and equal to it in FAST
   * mode, which does no post-processing.
   */
  lemma {:induction false} OpeningOnlyRemoves(img: seq<Byte>, mode: Byte)
    requires IsImage(img) && mode != ModeCareful
    ensures forall p :: 0 <= p < ImgSize && FinalMask(img, mode)[p] > 0 ==>
              img[p] > ThresholdFor(img, mode)
    ensures TopResult(img, mode).foregroundPixels <= CountAbove(img, ThresholdFor(img, mode))
    ensures mode == ModeFast ==>
              TopResult(img, mode).foregroundPixels == CountAbove(img, ThresholdFor(img, mode))
  {
    var b := Binarize(img, ThresholdFor(img, mode));
    BinarizeFacts(img, ThresholdFor(img, mode));
    if mode >= ModeNormal {
      OpenBelowCloseAbove(b);
    }
    CountNonzeroMono(FinalMask(img, mode), b);
  }

  /**
   * The output is a 0/255 mask in every mode, and in CAREFUL mode the close
   * only adds foreground to the opened mask.
   */
  lemma {:induction false} FinalMaskIsMask(img: seq<Byte>, mode: Byte)
    requires IsImage(img)
    ensures IsMask(FinalMask(img, mode))
    ensures mode == ModeCareful ==>
              var afterOpen := Dilate(Erode(Binarize(img, ThresholdFor(img, mode))));
              forall p :: 0 <= p < ImgSize ==> afterOpen[p] <= FinalMask(img, mode)[p]
  {
    var b := Binarize(img, ThresholdFor(img, mode));
    BinarizeFacts(img, ThresholdFor(img, mode));
    var afterOpen := if mode >= ModeNormal then Dilate(Erode(b)) else b;
    if mode >= ModeNormal {
      MaskStaysMask(b);
      MaskStaysMask(Erode(b));
    }
    if mode == ModeCareful {
      MaskStaysMask(afterOpen);
      MaskStaysMask(Dilate(afterOpen));
      OpenBelowCloseAbove(afterOpen);
    }
  }

  /**
   * A mode byte above 2 takes the `mode >= MODE_NORMAL` branch only: it
   * gets NORMAL's threshold and mask, while mode_used reports the raw byte.
   */
  lemma RawModeActsAsNormal(img: seq<Byte>, mode: Byte)
    requires IsImage(img) && mode > ModeCareful
    ensures ThresholdFor(img, mode) == ThresholdFor(img, ModeNormal)
    ensures FinalMask(img, mode) == FinalMask(img, ModeNormal)
    ensures TopResult(img, mode).modeUsed == mode
  {
  }

  /**
   * An all-zero image: threshold 0 (no threshold splits it, and nothing is
   * above 0, so the fallback cannot fire), an all-zero mask, and no
   * foreground, in every mode.
   */
  lemma {:induction false} AllZeroImageTop(img: seq<Byte>, mode: Byte)
    requires IsImage(img) && forall i :: 0 <= i < |img| ==> img[i] == 0
    ensures TopResult(img, mode) == OtsuResult(0, 0, mode)
    ensures forall p :: 0 <= p < ImgSize ==> FinalMask(img, mode)[p] == 0
  {
    AllZeroThreshold(img, mode);
    var zero := Binarize(img, 0);
    BinarizeFacts(img, 0);
    AllZeroMaskFixed(zero, mode);
    assert FinalMask(img, mode) == zero;
    UniformImage(img, 0);
  }

  lemma {:induction false} AllZeroThreshold(img: seq<Byte>, mode: Byte)
    requires IsImage(img) && forall i :: 0 <= i < |img| ==> img[i] == 0
    ensures ThresholdFor(img, mode) == 0
  {
    UniformImageOtsuZero(img, 0);
    UniformImage(img, 0);
  }

  /** Neither filter changes an all-zero mask. */
  lemma {:induction false} AllZeroMaskFixed(zero: seq<Byte>, mode: Byte)
    requires IsImage(zero) && forall p :: 0 <= p < ImgSize ==> zero[p] == 0
    ensures PostProcess(zero, mode) == zero
  {
    ErodeBelowDilateAbove(zero);
    UniformSurvives(zero, 0);
    assert Erode(zero) == zero;
    assert Dilate(zero) == zero;
  }
}
