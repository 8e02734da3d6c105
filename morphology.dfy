/**
 * The 3x3 erosion and dilation of the accelerator kernel and the opening
 * and closing built from them (otsu_threshold.cpp). Each output pixel is
 * the minimum (erosion) or maximum (dilation) of the source pixels of its
 * 3x3 neighbourhood that lie inside the frame; the fold starts at 255 for
 * erosion and at 0 for dilation, so the frame edge itself neither erodes
 * nor dilates anything.
 */
module Morphology {
  import opened Platform

  /** Row-major index of pixel (r, c). */
  function Idx(r: int, c: int): int {
    r * ImgWidth + c
  }

  predicate InFrame(r: int, c: int) {
    0 <= r < ImgHeight && 0 <= c < ImgWidth
  }

  /** (rr, cc) is an in-frame pixel of the 3x3 neighbourhood of (r, c). */
  predicate Near(r: int, c: int, rr: int, cc: int) {
    InFrame(rr, cc) && -1 <= rr - r <= 1 && -1 <= cc - c <= 1
  }

  lemma {:induction false} IdxInRange(r: int, c: int)
    requires InFrame(r, c)
    ensures 0 <= Idx(r, c) < ImgSize
  {
    MulLe(r, ImgHeight - 1, ImgWidth);
  }

  /** Index p has row p / ImgWidth and column p % ImgWidth. */
  lemma {:induction false} RowCol(r: int, c: int)
    requires InFrame(r, c)
    ensures Idx(r, c) / ImgWidth == r && Idx(r, c) % ImgWidth == c
  {
    IdxInRange(r, c);
  }

  lemma {:induction false} IdxOfPixel(p: int)
    requires 0 <= p < ImgSize
    ensures InFrame(p / ImgWidth, p % ImgWidth) && Idx(p / ImgWidth, p % ImgWidth) == p
  {
  }

  /** The number of pixels of a 3x3 neighbourhood. */
  const Window: nat := 9

  /** Row offset dr of the k-th of the nine offsets, in the loops' order. */
  function OffsetRow(k: int): int {
    if k < 3 then -1 else if k < 6 then 0 else 1
  }

  /** Column offset dc of the k-th offset: k == 3 * (dr + 1) + (dc + 1). */
  function OffsetCol(k: int): int {
    k - 3 * (OffsetRow(k) + 1) - 1
  }

  /**
   * The running value of erode_3x3's inner loops for pixel (r, c) after
   * the first k of the nine offsets (dr, dc), dr outer and dc inner, both
   * running from -1 to 1.
   */
  function MinFold(img: seq<Byte>, r: int, c: int, k: nat): Byte
    requires IsImage(img) && k <= Window
  {
    if k == 0 then 255
    else
      var v := MinFold(img, r, c, k - 1);
      var rr := r + OffsetRow(k - 1);
      var cc := c + OffsetCol(k - 1);
      if InFrame(rr, cc) then
        IdxInRange(rr, cc);
        if v < img[Idx(rr, cc)] then v else img[Idx(rr, cc)]
      else v
  }

  /** The running value of dilate_3x3's inner loops, seeded at 0. */
  function MaxFold(img: seq<Byte>, r: int, c: int, k: nat): Byte
    requires IsImage(img) && k <= Window
  {
    if k == 0 then 0
    else
      var v := MaxFold(img, r, c, k - 1);
      var rr := r + OffsetRow(k - 1);
      var cc := c + OffsetCol(k - 1);
      if InFrame(rr, cc) then
        IdxInRange(rr, cc);
        if v > img[Idx(rr, cc)] then v else img[Idx(rr, cc)]
      else v
  }

  /** One more offset of either fold: the C loop body. */
  lemma FoldStep(img: seq<Byte>, r: int, c: int, k: nat)
    requires IsImage(img) && k < Window
    ensures var rr, cc := r + OffsetRow(k), c + OffsetCol(k);
      && (InFrame(rr, cc) ==> 0 <= Idx(rr, cc) < ImgSize)
      && MinFold(img, r, c, k + 1) ==
         (if InFrame(rr, cc) && img[Idx(rr, cc)] <= MinFold(img, r, c, k)
          then img[Idx(rr, cc)] else MinFold(img, r, c, k))
      && MaxFold(img, r, c, k + 1) ==
         (if InFrame(rr, cc) && img[Idx(rr, cc)] >= MaxFold(img, r, c, k)
          then img[Idx(rr, cc)] else MaxFold(img, r, c, k))
  {
    var rr, cc := r + OffsetRow(k), c + OffsetCol(k);
    if InFrame(rr, cc) {
      IdxInRange(rr, cc);
    }
  }

  /** The image erode_3x3 writes into dst. */
  function Erode(img: seq<Byte>): (out: seq<Byte>)
    requires IsImage(img)
    ensures IsImage(out)
  {
    seq(ImgSize, p => MinFold(img, p / ImgWidth, p % ImgWidth, Window))
  }

  /** The image dilate_3x3 writes into dst. */
  function Dilate(img: seq<Byte>): (out: seq<Byte>)
    requires IsImage(img)
    ensures IsImage(out)
  {
    seq(ImgSize, p => MaxFold(img, p / ImgWidth, p % ImgWidth, Window))
  }

  /** Offset k of the fold is a neighbour, and every neighbour is some offset. */
  lemma {:induction false} FoldCoversNeighbourhood(img: seq<Byte>, r: int, c: int, k: nat)
    requires IsImage(img) && k <= Window
    ensures forall rr, cc :: Near(r, c, rr, cc) && (rr - r + 1) * 3 + (cc - c + 1) < k ==>
              MinFold(img, r, c, k) <= img[Idx(rr, cc)] <= MaxFold(img, r, c, k)
    ensures MinFold(img, r, c, k) == 255 ||
              exists rr, cc :: Near(r, c, rr, cc) && MinFold(img, r, c, k) == img[Idx(rr, cc)]
    ensures MaxFold(img, r, c, k) == 0 ||
              exists rr, cc :: Near(r, c, rr, cc) && MaxFold(img, r, c, k) == img[Idx(rr, cc)]
  {
    if k > 0 {
      FoldCoversNeighbourhood(img, r, c, k - 1);
      var rr := r + OffsetRow(k - 1);
      var cc := c + OffsetCol(k - 1);
      assert (rr - r + 1) * 3 + (cc - c + 1) == k - 1;
      forall rr', cc' | Near(r, c, rr', cc') && (rr' - r + 1) * 3 + (cc' - c + 1) < k
        ensures MinFold(img, r, c, k) <= img[Idx(rr', cc')] <= MaxFold(img, r, c, k)
      {
        IdxInRange(rr', cc');
        if (rr' - r + 1) * 3 + (cc' - c + 1) == k - 1 {
          assert rr' == rr && cc' == cc;
        }
      }
    }
  }

  /**
   * Each eroded pixel is the minimum of its in-frame 3x3 neighbours, or 255
   * when it has none; each dilated pixel is their maximum, or 0.
   */
  lemma {:induction false} NeighbourhoodExtremes(img: seq<Byte>, r: int, c: int)
    requires IsImage(img) && InFrame(r, c)
    ensures 0 <= Idx(r, c) < ImgSize
    ensures forall rr, cc :: Near(r, c, rr, cc) ==>
              Erode(img)[Idx(r, c)] <= img[Idx(rr, cc)] <= Dilate(img)[Idx(r, c)]
    ensures Erode(img)[Idx(r, c)] == 255 ||
              exists rr, cc :: Near(r, c, rr, cc) && Erode(img)[Idx(r, c)] == img[Idx(rr, cc)]
    ensures Dilate(img)[Idx(r, c)] == 0 ||
              exists rr, cc :: Near(r, c, rr, cc) && Dilate(img)[Idx(r, c)] == img[Idx(rr, cc)]
  {
    RowCol(r, c);
    FoldCoversNeighbourhood(img, r, c, Window);
  }

  /** Erosion never raises a pixel and dilation never lowers one. */
  lemma ErodeBelowDilateAbove(img: seq<Byte>)
    requires IsImage(img)
    ensures forall p :: 0 <= p < ImgSize ==> Erode(img)[p] <= img[p] <= Dilate(img)[p]
  {
    forall p | 0 <= p < ImgSize
      ensures Erode(img)[p] <= img[p] <= Dilate(img)[p]
    {
      IdxOfPixel(p);
      NeighbourhoodExtremes(img, p / ImgWidth, p % ImgWidth);
    }
  }

  /**
   * An all-foreground mask survives erosion whole (the frame edge does not
   * erode it), and an all-background mask survives dilation whole.
   */
  lemma UniformSurvives(img: seq<Byte>, v: Byte)
    requires IsImage(img) && forall p :: 0 <= p < ImgSize ==> img[p] == v
    ensures v == 255 ==> forall p :: 0 <= p < ImgSize ==> Erode(img)[p] == 255
    ensures v == 0 ==> forall p :: 0 <= p < ImgSize ==> Dilate(img)[p] == 0
  {
    forall p | 0 <= p < ImgSize
      ensures v == 255 ==> Erode(img)[p] == 255
      ensures v == 0 ==> Dilate(img)[p] == 0
    {
      IdxOfPixel(p);
      NeighbourhoodExtremes(img, p / ImgWidth, p % ImgWidth);
      if v == 255 && Erode(img)[p] != 255 {
        var rr, cc :| Near(p / ImgWidth, p % ImgWidth, rr, cc) && Erode(img)[p] == img[Idx(rr, cc)];
        IdxInRange(rr, cc);
      }
      if v == 0 && Dilate(img)[p] != 0 {
        var rr, cc :| Near(p / ImgWidth, p % ImgWidth, rr, cc) && Dilate(img)[p] == img[Idx(rr, cc)];
        IdxInRange(rr, cc);
      }
    }
  }

  /** Both filters keep a 0/255 mask a 0/255 mask. */
  lemma MaskStaysMask(img: seq<Byte>)
    requires IsImage(img) && IsMask(img)
    ensures IsMask(Erode(img)) && IsMask(Dilate(img))
  {
    forall p | 0 <= p < ImgSize
      ensures Erode(img)[p] in {0, 255} && Dilate(img)[p] in {0, 255}
    {
      IdxOfPixel(p);
      NeighbourhoodExtremes(img, p / ImgWidth, p % ImgWidth);
      if Erode(img)[p] != 255 {
        var rr, cc :| Near(p / ImgWidth, p % ImgWidth, rr, cc) && Erode(img)[p] == img[Idx(rr, cc)];
        IdxInRange(rr, cc);
      }
      if Dilate(img)[p] != 0 {
        var rr, cc :| Near(p / ImgWidth, p % ImgWidth, rr, cc) && Dilate(img)[p] == img[Idx(rr, cc)];
        IdxInRange(rr, cc);
      }
    }
  }

  /**
   * Opening never adds foreground and closing never removes it:
   * Dilate(Erode(x)) <= x <= Erode(Dilate(x)) pixel by pixel.
   */
  lemma OpenBelowCloseAbove(img: seq<Byte>)
    requires IsImage(img)
    ensures forall p :: 0 <= p < ImgSize ==> Dilate(Erode(img))[p] <= img[p] <= Erode(Dilate(img))[p]
  {
    var e := Erode(img);
    var d := Dilate(img);
    forall p | 0 <= p < ImgSize
      ensures Dilate(e)[p] <= img[p] <= Erode(d)[p]
    {
      IdxOfPixel(p);
      var r, c := p / ImgWidth, p % ImgWidth;
      NeighbourhoodExtremes(e, r, c);
      NeighbourhoodExtremes(d, r, c);
      if Dilate(e)[p] != 0 {
        var rr, cc :| Near(r, c, rr, cc) && Dilate(e)[p] == e[Idx(rr, cc)];
        NeighbourhoodExtremes(img, rr, cc);
        assert Near(rr, cc, r, c);
      }
      if Erode(d)[p] != 255 {
        var rr, cc :| Near(r, c, rr, cc) && Erode(d)[p] == d[Idx(rr, cc)];
        NeighbourhoodExtremes(img, rr, cc);
        assert Near(rr, cc, r, c);
      }
    }
  }

  /**
   * The inner dr/dc loops of erode_3x3: fold u8_min over the
   * in-frame pixels of the 3x3 neighbourhood of (r, c), starting at 255.
   */
  method NeighbourhoodMin(src: array<Byte>, r: int, c: int) returns (val: Byte)
    requires src.Length == ImgSize
    ensures val == MinFold(src[..], r, c, Window)
  {
    ghost var img := src[..];
    val := 255;
    var dr := -1;
    while dr <= 1
      invariant -1 <= dr <= 2
      invariant val == MinFold(img, r, c, 3 * (dr + 1))
    {
      var dc := -1;
      while dc <= 1
        invariant -1 <= dc <= 2
        invariant val == MinFold(img, r, c, 3 * (dr + 1) + dc + 1)
      {
        ghost var k := 3 * (dr + 1) + dc + 1;
        assert OffsetRow(k) == dr && OffsetCol(k) == dc;
        FoldStep(img, r, c, k);
        var rr := r + dr;
        var cc := c + dc;
        if rr >= 0 && rr < ImgHeight && cc >= 0 && cc < ImgWidth {
          IdxInRange(rr, cc);
          val := if val < src[rr * ImgWidth + cc] then val else src[rr * ImgWidth + cc];
        }
        dc := dc + 1;
      }
      dr := dr + 1;
    }
  }

  /** erode_3x3: for every pixel, fold u8_min over the in-frame neighbours. */
  method Erode3x3(src: array<Byte>, dst: array<Byte>)
    requires src.Length == ImgSize && dst.Length == ImgSize && src != dst
    modifies dst
    ensures dst[..] == Erode(src[..])
  {
    ghost var img := src[..];
    var r := 0;
    while r < ImgHeight
      invariant 0 <= r <= ImgHeight
      invariant forall p :: 0 <= p < r * ImgWidth ==> dst[p] == Erode(img)[p]
    {
      var c := 0;
      while c < ImgWidth
        invariant 0 <= c <= ImgWidth
        invariant forall p :: 0 <= p < r * ImgWidth + c ==> dst[p] == Erode(img)[p]
      {
        var val := NeighbourhoodMin(src, r, c);
        RowCol(r, c);
        dst[r * ImgWidth + c] := val;
        c := c + 1;
      }
      r := r + 1;
    }
  }

  /**
   * The inner dr/dc loops of dilate_3x3: fold u8_max over the
   * in-frame pixels of the 3x3 neighbourhood of (r, c), starting at 0.
   */
  method NeighbourhoodMax(src: array<Byte>, r: int, c: int) returns (val: Byte)
    requires src.Length == ImgSize
    ensures val == MaxFold(src[..], r, c, Window)
  {
    ghost var img := src[..];
    val := 0;
    var dr := -1;
    while dr <= 1
      invariant -1 <= dr <= 2
      invariant val == MaxFold(img, r, c, 3 * (dr + 1))
    {
      var dc := -1;
      while dc <= 1
        invariant -1 <= dc <= 2
        invariant val == MaxFold(img, r, c, 3 * (dr + 1) + dc + 1)
      {
        ghost var k := 3 * (dr + 1) + dc + 1;
        assert OffsetRow(k) == dr && OffsetCol(k) == dc;
        FoldStep(img, r, c, k);
        var rr := r + dr;
        var cc := c + dc;
        if rr >= 0 && rr < ImgHeight && cc >= 0 && cc < ImgWidth {
          IdxInRange(rr, cc);
          val := if val > src[rr * ImgWidth + cc] then val else src[rr * ImgWidth + cc];
        }
        dc := dc + 1;
      }
      dr := dr + 1;
    }
  }

  /** dilate_3x3: for every pixel, fold u8_max over the in-frame neighbours. */
  method Dilate3x3(src: array<Byte>, dst: array<Byte>)
    requires src.Length == ImgSize && dst.Length == ImgSize && src != dst
    modifies dst
    ensures dst[..] == Dilate(src[..])
  {
    ghost var img := src[..];
    var r := 0;
    while r < ImgHeight
      invariant 0 <= r <= ImgHeight
      invariant forall p :: 0 <= p < r * ImgWidth ==> dst[p] == Dilate(img)[p]
    {
      var c := 0;
      while c < ImgWidth
        invariant 0 <= c <= ImgWidth
        invariant forall p :: 0 <= p < r * ImgWidth + c ==> dst[p] == Dilate(img)[p]
      {
        var val := NeighbourhoodMax(src, r, c);
        RowCol(r, c);
        dst[r * ImgWidth + c] := val;
        c := c + 1;
      }
      r := r + 1;
    }
  }

  /** morph_open_3x3: erode into a temporary buffer, dilate back in place. */
  method MorphOpen(img: array<Byte>)
    requires img.Length == ImgSize
    modifies img
    ensures img[..] == Dilate(Erode(old(img[..])))
  {
    var tmp := new Byte[ImgSize];
    Erode3x3(img, tmp);
    Dilate3x3(tmp, img);
  }

  /** morph_close_3x3: dilate into a temporary buffer, erode back in place. */
  method MorphClose(img: array<Byte>)
    requires img.Length == ImgSize
    modifies img
    ensures img[..] == Erode(Dilate(old(img[..])))
  {
    var tmp := new Byte[ImgSize];
    Dilate3x3(img, tmp);
    Erode3x3(tmp, img);
  }
}
