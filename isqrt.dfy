/**
 * The integer square root by Newton's method that compute_image_stats,
 * adaptive_compute_stats and the CAREFUL fallback of otsu_threshold_top
 * each spell out inline: seed at the variance, step
 * `s' = (s + v / s) / 2`, stop at the first step that does not decrease,
 * and give up after 16 steps.
 */
module IntSqrt {

  /** r is the floor of the square root of v. */
  ghost predicate IsFloorSqrt(r: nat, v: nat) {
    r * r <= v < (r + 1) * (r + 1)
  }

  /** The floor of the square root, by counting up from r. */
  function SqrtFrom(v: nat, r: nat): (s: nat)
    requires r * r <= v
    ensures IsFloorSqrt(s, v)
    decreases v - r
  {
    if (r + 1) * (r + 1) <= v then
      assert r < v || r == 0 by {
        if r >= 1 { assert r * r >= r; }
      }
      SqrtFrom(v, r + 1)
    else r
  }

  /** floor(sqrt(v)). */
  function ISqrt(v: nat): (s: nat)
    ensures IsFloorSqrt(s, v)
  {
    SqrtFrom(v, 0)
  }

  lemma LessFromSquares(a: nat, b: nat)
    requires a * a < b * b
    ensures a < b
  {
  }

  lemma LessFromProducts(a: nat, b: nat, c: nat)
    requires c >= 1 && a * c < b * c
    ensures a < b
  {
  }

  lemma DivBounds(v: nat, s: nat)
    requires s >= 1
    ensures (v / s) * s <= v < (v / s + 1) * s
  {
  }

  lemma {:induction false} FloorSqrtUnique(a: nat, b: nat, v: nat)
    requires IsFloorSqrt(a, v) && IsFloorSqrt(b, v)
    ensures a == b
  {
    LessFromSquares(a, b + 1);
    LessFromSquares(b, a + 1);
  }

  /** A root of a value no larger than 255 * 255 is at most 255. */
  lemma {:induction false} SqrtOfByteSquare(v: nat)
    requires v <= 65025
    ensures ISqrt(v) <= 255
  {
    LessFromSquares(ISqrt(v), 256);
  }

  lemma AmGm(s: nat, q: nat)
    ensures 4 * ((q + 1) * s) <= (s + q + 1) * (s + q + 1)
  {
    assert (s + q + 1) * (s + q + 1) - 4 * ((q + 1) * s) == (s - q - 1) * (s - q - 1);
  }

  /** A Newton step never drops below the root (arithmetic/geometric mean). */
  lemma {:induction false} StepStaysAbove(v: nat, s: nat, r: nat)
    requires IsFloorSqrt(r, v) && s >= 1
    ensures (s + v / s) / 2 >= r
  {
    var q := v / s;
    DivBounds(v, s);
    var a := (q + 1) * s;
    var b := s + q + 1;
    AmGm(s, q);
    assert r * r < a;
    assert (2 * r) * (2 * r) < b * b by {
      assert (2 * r) * (2 * r) == 4 * (r * r);
    }
    LessFromSquares(2 * r, b);
  }

  /** Above the root a step at least halves the distance to it. */
  lemma {:induction false} StepHalvesDistance(v: nat, s: nat, r: nat)
    requires IsFloorSqrt(r, v) && s >= r + 1
    ensures 2 * ((s + v / s) / 2 - r) <= s - r
  {
    var q := v / s;
    DivBounds(v, s);
    assert (r + 1) * (r + 1) <= s * (r + 1);
    LessFromProducts(q, r + 1, s);
  }

  /** At the root a step does not decrease, so the loop stops there. */
  lemma {:induction false} StepAtRootStops(v: nat, r: nat)
    requires IsFloorSqrt(r, v) && r >= 1
    ensures (r + v / r) / 2 >= r
  {
    var q := v / r;
    DivBounds(v, r);
    LessFromProducts(r, q + 1, r);
  }

  function Pow2(k: nat): (p: nat)
    ensures p >= 1
  {
    if k == 0 then 1 else 2 * Pow2(k - 1)
  }

  lemma Pow2Of16()
    ensures Pow2(16) == 65536
  {
    assert Pow2(4) == 16;
    assert Pow2(8) == 256;
    assert Pow2(12) == 4096;
  }

  /**
   * The Newton loop. For every variance the C code can produce (at most
   * 255 * 255) it returns exactly floor(sqrt(v)): the distance to the root
   * at least halves per step, and 16 steps take a distance below 2^16 to 0.
   */
  method NewtonSqrt(v: nat) returns (s: nat)
    requires v <= 65025
    ensures s == ISqrt(v)
    ensures s * s <= v
    ensures s <= 255
  {
    ghost var r := ISqrt(v);
    s := v;
    if s > 0 {
      ghost var bound: nat := v;
      Pow2Of16();
      var iter := 0;
      while iter < 16
        invariant 0 <= iter <= 16
        invariant s >= r && s >= 1
        invariant s - r <= bound < Pow2(16 - iter)
      {
        var sNew := (s + v / s) / 2;
        StepStaysAbove(v, s, r);
        if s > r {
          StepHalvesDistance(v, s, r);
        } else {
          StepAtRootStops(v, r);
        }
        if sNew >= s {
          break;
        }
        s := sNew;
        bound := bound / 2;
        iter := iter + 1;
      }
    }
    assert s == r;
    SqrtOfByteSquare(v);
  }
}
