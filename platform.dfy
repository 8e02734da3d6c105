/**
 * Image geometry and machine-integer ranges shared by the accelerator kernel
 * and the processor firmware (otsu_threshold.h, platform_config.h).
 */
module Platform {

  const ImgWidth: nat := 256
  const ImgHeight: nat := 256
  const ImgSize: nat := 65536   // ImgWidth * ImgHeight
  const NumBins: nat := 256

  /** The largest value a uint32_t holds. */
  const U32Max: nat := 0xFFFF_FFFF

  /** An 8-bit unsigned sample (uint8_t). */
  type Byte = x: int | 0 <= x < 256

  /** A 32-bit unsigned value (uint32_t). */
  type U32 = x: int | 0 <= x <= 0xFFFF_FFFF

  /** A grayscale image or mask: ImgSize samples, row-major. */
  predicate IsImage(img: seq<Byte>) {
    |img| == ImgSize
  }

  function Min(a: int, b: int): int { if a < b then a else b }
  function Max(a: int, b: int): int { if a > b then a else b }

  /** Sum of the samples. */
  function SumOf(s: seq<Byte>): (r: nat)
    ensures r <= 255 * |s|
  {
    if s == [] then 0 else SumOf(s[..|s| - 1]) + s[|s| - 1]
  }

  /** Number of samples strictly greater than t. */
  function CountAbove(s: seq<Byte>, t: int): (r: nat)
    ensures r <= |s|
  {
    if s == [] then 0
    else CountAbove(s[..|s| - 1], t) + (if s[|s| - 1] > t then 1 else 0)
  }

  /** Number of non-zero samples. */
  function CountNonzero(s: seq<Byte>): (r: nat)
    ensures r <= |s|
  {
    if s == [] then 0
    else CountNonzero(s[..|s| - 1]) + (if s[|s| - 1] > 0 then 1 else 0)
  }

  /** Truncating division by the pixel count, as the C code's `x / IMG_SIZE`. */
  lemma MeanBound(sum: nat, n: nat)
    requires 0 < n && sum <= 255 * n
    ensures sum / n <= 255
  {
    DivBound(sum, n, 255);
  }

  lemma DivBound(sum: nat, n: nat, k: nat)
    requires 0 < n && sum <= k * n
    ensures sum / n <= k
  {
  }

  lemma MulLe(a: int, b: int, c: int)
    requires 0 <= a <= b && c >= 0
    ensures a * c <= b * c
  {
  }

  lemma SquareBound(d: int)
    requires -255 <= d <= 255
    ensures 0 <= d * d <= 65025
  {
    if d >= 0 {
      MulLe(d, 255, d);
      MulLe(d, 255, 255);
    } else {
      MulLe(-d, 255, -d);
      MulLe(-d, 255, 255);
    }
  }

  /** Sum of the squared samples. */
  function SumSq(s: seq<Byte>): (r: nat)
    ensures r <= 65025 * |s|
  {
    if s == [] then 0
    else
      var x: int := s[|s| - 1];
      SquareBound(x);
      SumSq(s[..|s| - 1]) + x * x
  }

  /** Sum of the squared deviations of the samples from m. */
  function SqDevSum(s: seq<Byte>, m: Byte): (r: nat)
    ensures r <= 65025 * |s|
  {
    if s == [] then 0
    else
      var d: int := s[|s| - 1] - m;
      SquareBound(d);
      SqDevSum(s[..|s| - 1], m) + d * d
  }

  /** Expanding the square: sum (x - c)^2 + 2 c sum x == sum x^2 + n c^2. */
  lemma {:induction false} SqDevExpand(s: seq<Byte>, c: Byte)
    ensures SqDevSum(s, c) + 2 * c * SumOf(s) == SumSq(s) + |s| * (c * c)
  {
    if s != [] {
      var t := s[..|s| - 1];
      SqDevExpand(t, c);
      ExpandStep(SqDevSum(t, c), SumOf(t), SumSq(t), |t|, s[|s| - 1], c);
    }
  }

  /** One more sample x in the expansion of SqDevExpand. */
  lemma ExpandStep(d: int, sum: int, sq: int, n: int, x: int, c: int)
    requires d + 2 * c * sum == sq + n * (c * c)
    ensures (d + (x - c) * (x - c)) + 2 * c * (sum + x) == (sq + x * x) + (n + 1) * (c * c)
  {
    assert (x - c) * (x - c) == x * x - 2 * c * x + c * c;
    assert 2 * c * (sum + x) == 2 * c * sum + 2 * c * x;
    assert (n + 1) * (c * c) == n * (c * c) + c * c;
  }

  /** The running minimum of the C loops, seeded at 255. */
  function MinOf(s: seq<Byte>): Byte
  {
    if s == [] then 255
    else
      var m0 := MinOf(s[..|s| - 1]);
      if s[|s| - 1] < m0 then s[|s| - 1] else m0
  }

  /** The running maximum of the C loops, seeded at 0. */
  function MaxOf(s: seq<Byte>): Byte
  {
    if s == [] then 0
    else
      var m0 := MaxOf(s[..|s| - 1]);
      if s[|s| - 1] > m0 then s[|s| - 1] else m0
  }

  /** On a non-empty image the running minimum and maximum are the extremes. */
  lemma {:induction false} MinMaxAreExtremes(s: seq<Byte>)
    ensures forall i :: 0 <= i < |s| ==> MinOf(s) <= s[i] <= MaxOf(s)
    ensures s != [] ==> exists i :: 0 <= i < |s| && s[i] == MinOf(s)
    ensures s != [] ==> exists i :: 0 <= i < |s| && s[i] == MaxOf(s)
  {
    if s != [] {
      var p := s[..|s| - 1];
      MinMaxAreExtremes(p);
      assert forall i :: 0 <= i < |p| ==> p[i] == s[i];
      if p != [] {
        var a :| 0 <= a < |p| && p[a] == MinOf(p);
        var b :| 0 <= b < |p| && p[b] == MaxOf(p);
        assert s[a] == MinOf(p) && s[b] == MaxOf(p);
      }
    }
  }

  /** Every sum and extremum of an image of one value c. */
  lemma {:induction false} UniformImage(s: seq<Byte>, c: Byte)
    requires forall i :: 0 <= i < |s| ==> s[i] == c
    ensures SumOf(s) == c * |s|
    ensures SumSq(s) == c * c * |s|
    ensures SqDevSum(s, c) == 0
    ensures s != [] ==> MinOf(s) == c && MaxOf(s) == c
    ensures CountAbove(s, c) == 0
  {
    if s != [] {
      var p := s[..|s| - 1];
      UniformImage(p, c);
      assert s[|s| - 1] == c;
      UniformStep(|p|, c, SumOf(p), SumSq(p));
    }
  }

  lemma UniformStep(n: nat, c: nat, sum: nat, sumSq: nat)
    requires sum == c * n && sumSq == c * c * n
    ensures sum + c == c * (n + 1)
    ensures sumSq + c * c == c * c * (n + 1)
  {
  }

  /** Pixel-value modes (ProcessingMode in otsu_threshold.h). */
  const ModeFast: Byte := 0
  const ModeNormal: Byte := 1
  const ModeCareful: Byte := 2

  datatype ProcessingMode = Fast | Normal | Careful {
    /** The enum's integer value as it travels in a uint8_t. */
    function Code(): (c: Byte)
      ensures c <= 2
    {
      match this
      case Fast => ModeFast
      case Normal => ModeNormal
      case Careful => ModeCareful
    }
  }

  /** {mean, std_dev, contrast, min_val, max_val}: ImageStats and SwImageStats. */
  datatype Stats = Stats(mean: Byte, stdDev: Byte, contrast: Byte, minVal: Byte, maxVal: Byte)

  /** mean = floor(sum / IMG_SIZE), the truncated mean every path uses. */
  function MeanOf(img: seq<Byte>): (m: Byte)
    requires IsImage(img)
    ensures m * ImgSize <= SumOf(img) < (m + 1) * ImgSize
  {
    MeanBound(SumOf(img), ImgSize);
    SumOf(img) / ImgSize
  }

  /**
   * The two-pass variance of adaptive_compute_stats and of the CAREFUL
   * fallback: floor(sum over i of (img[i] - mean)^2 / IMG_SIZE), with the
   * truncated mean.
   */
  function TwoPassVariance(img: seq<Byte>): (v: nat)
    requires IsImage(img)
    ensures v <= 65025
  {
    DivBound(SqDevSum(img, MeanOf(img)), ImgSize, 65025);
    SqDevSum(img, MeanOf(img)) / ImgSize
  }

  /** A binary mask: every sample is 0 or 255. */
  predicate IsMask(s: seq<Byte>) {
    forall i :: 0 <= i < |s| ==> s[i] == 0 || s[i] == 255
  }
}
