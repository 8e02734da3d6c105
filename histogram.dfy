/**
 * The 256-bin intensity histogram and its running sums. The Otsu sweep of
 * the accelerator and of the software baseline both walk the bins keeping
 * a cumulative weight (pixel count) and a cumulative moment (sum of
 * intensities); those two prefix sums are `Weight` and `Moment` here.
 */
module Histogram {
  import opened Platform

  /** Number of samples equal to v. */
  function CountOf(s: seq<Byte>, v: int): (r: nat)
    ensures r <= |s|
  {
    if s == [] then 0
    else CountOf(s[..|s| - 1], v) + (if s[|s| - 1] == v then 1 else 0)
  }

  /** hist[v] = number of pixels of value v, for v in 0..255. */
  function Hist(s: seq<Byte>): seq<nat>
  {
    seq(NumBins, v => CountOf(s, v))
  }

  /** hist[0] + ... + hist[k-1]: the background weight of threshold k-1. */
  function Weight(h: seq<nat>, k: nat): nat
    requires k <= |h|
  {
    if k == 0 then 0 else Weight(h, k - 1) + h[k - 1]
  }

  /** 0*hist[0] + ... + (k-1)*hist[k-1]: the background intensity sum. */
  function Moment(h: seq<nat>, k: nat): nat
    requires k <= |h|
  {
    if k == 0 then 0 else Moment(h, k - 1) + (k - 1) * h[k - 1]
  }

  /** A histogram of a whole image: 256 bins holding IMG_SIZE pixels. */
  predicate IsHistogram(h: seq<nat>) {
    |h| == NumBins && Weight(h, NumBins) == ImgSize
  }

  /** Appending one pixel x increments bin x and no other. */
  lemma {:induction false} HistAppend(s: seq<Byte>, x: Byte)
    ensures Hist(s + [x]) == Hist(s)[x := Hist(s)[x] + 1]
  {
    var s' := s + [x];
    assert s'[..|s'| - 1] == s;
    forall v | 0 <= v < NumBins
      ensures Hist(s')[v] == Hist(s)[x := Hist(s)[x] + 1][v]
    {
      assert CountOf(s', v) == CountOf(s, v) + (if x == v then 1 else 0);
    }
  }

  /** Incrementing bin x adds 1 to every prefix weight that covers x. */
  lemma {:induction false} WeightIncrement(h: seq<nat>, x: nat, k: nat)
    requires x < |h| && k <= |h|
    ensures Weight(h[x := h[x] + 1], k) == Weight(h, k) + (if x < k then 1 else 0)
    ensures Moment(h[x := h[x] + 1], k) == Moment(h, k) + (if x < k then x else 0)
  {
    if k > 0 {
      WeightIncrement(h, x, k - 1);
      var h' := h[x := h[x] + 1];
      if x == k - 1 {
        assert (k - 1) * h'[k - 1] == (k - 1) * h[k - 1] + x;
      }
    }
  }

  /** The counts sum to the number of pixels, and their moment to the pixel sum. */
  lemma {:induction false} HistTotals(s: seq<Byte>)
    ensures Weight(Hist(s), NumBins) == |s|
    ensures Moment(Hist(s), NumBins) == SumOf(s)
  {
    if s == [] {
      EmptyHist(NumBins);
    } else {
      var p := s[..|s| - 1];
      var x := s[|s| - 1];
      assert p + [x] == s;
      HistTotals(p);
      HistAppend(p, x);
      WeightIncrement(Hist(p), x, NumBins);
    }
  }

  lemma {:induction false} EmptyHist(k: nat)
    requires k <= NumBins
    ensures Weight(Hist([]), k) == 0 && Moment(Hist([]), k) == 0
  {
    if k > 0 {
      EmptyHist(k - 1);
      assert Hist([])[k - 1] == 0;
    }
  }

  /** A whole image's histogram is a histogram in the sense of IsHistogram. */
  lemma ImageHistogram(img: seq<Byte>)
    requires IsImage(img)
    ensures IsHistogram(Hist(img))
    ensures Moment(Hist(img), NumBins) == SumOf(img) <= 255 * ImgSize
  {
    HistTotals(img);
  }

  /** One more bin of weight c at value J widens the bounds of SliceMoments. */
  lemma SliceStep(k: nat, J: nat, dw: nat, dm: nat, c: nat)
    requires k <= J && k * dw <= dm && dm + dw <= J * dw
    ensures k * (dw + c) <= dm + J * c
    ensures dm + J * c + (dw + c) <= (J + 1) * (dw + c)
  {
    assert k * c <= J * c;
    assert (J + 1) * (dw + c) == J * dw + J * c + dw + c;
  }

  /**
   * The bins k..j-1 hold Weight(j) - Weight(k) pixels whose values lie in
   * k..j-1, so their moment lies between k and j-1 times that weight.
   */
  lemma {:induction false} SliceMoments(h: seq<nat>, k: nat, j: nat)
    requires k <= j <= |h|
    ensures Weight(h, k) <= Weight(h, j) && Moment(h, k) <= Moment(h, j)
    ensures k * (Weight(h, j) - Weight(h, k)) <= Moment(h, j) - Moment(h, k)
    ensures Moment(h, j) - Moment(h, k) + (Weight(h, j) - Weight(h, k)) <= j * (Weight(h, j) - Weight(h, k))
  {
    if j > k {
      SliceMoments(h, k, j - 1);
      var dw := Weight(h, j - 1) - Weight(h, k);
      var dm := Moment(h, j - 1) - Moment(h, k);
      var c := h[j - 1];
      SliceStep(k, j - 1, dw, dm, c);
      assert Weight(h, j) - Weight(h, k) == dw + c;
      assert Moment(h, j) - Moment(h, k) == dm + (j - 1) * c;
    }
  }
}
