/**
 * `radius_to_zoom` (app.py:139-143; selenium_test.py:172-176 is the same code):
 * `max(min(int(log2(40075017 * cos(0) / (radius * 256))), 21), 0)`.
 *
 * `cos(0)` is the float 1.0, so the division converts the integer `radius * 256` to a
 * float first, which raises `OverflowError` once its magnitude rounds to 2^1024. Past
 * that, the zoom is the truncated base-2 logarithm of `40075017 / (256 * radius)`,
 * clamped to [0, 21]. For a positive integer radius this is computed exactly in
 * integers: at or above 1 the ratio is never a power of two (the circumference is odd),
 * and it is at least 2^-27 away from one relative to its size, far more than the error
 * of the floating-point logarithm; below 1 the logarithm is negative and is clamped to 0.
 */
module Zoom {
  import opened Wrappers

  const EarthCircumference: int := 40075017
  const PixelsPerTile: int := 256
  const MaxZoom: int := 21

  /**
   * The exceptions Python's arithmetic raises: a division by zero, a root or logarithm of
   * a negative number, an integer too large to convert to a float.
   */
  datatype MathError = ZeroDivision | MathDomain | Overflow

  /**
   * 2^1024 - 2^970, written as (2^54 - 1) * 2^970 in hexadecimal: halfway between the
   * largest float, 2^1024 - 2^971, and 2^1024. Rounding to nearest even takes it, and
   * every integer above it, to 2^1024, which Python's int-to-float conversion refuses.
   */
  const FloatOverflow: int := 0xfffffffffffffc00000000000000000000000000000000000000000000000000000000000000000000000000000000000000000000000000000000000000000000000000000000000000000000000000000000000000000000000000000000000000000000000000000000000000000000000000000000000000000000000000

  /** Python converts the integer `n` to a float without an `OverflowError`. */
  predicate ConvertsToFloat(n: int) {
    -FloatOverflow < n < FloatOverflow
  }

  function Pow2(k: nat): (r: nat)
    ensures r >= 1
  {
    if k == 0 then 1 else 2 * Pow2(k - 1)
  }

  lemma {:induction false} Pow2Monotone(a: nat, b: nat)
    requires a <= b
    ensures Pow2(a) <= Pow2(b)
    decreases b
  {
    if a < b {
      Pow2Monotone(a, b - 1);
    }
  }

  /** The largest `k` with `d * 2^k <= n`: `floor(log2(n / d))` for `0 < d <= n`. */
  function FloorLog2(n: nat, d: nat): (k: nat)
    requires 0 < d <= n
    ensures d * Pow2(k) <= n < d * Pow2(k + 1)
    decreases n - d
  {
    if 2 * d > n then 0
    else
      var k := FloorLog2(n, 2 * d);
      DoubleScale(d, k);
      DoubleScale(d, k + 1);
      1 + k
  }

  /** Doubling the divisor is one more power of two. */
  lemma DoubleScale(d: nat, k: nat)
    ensures (2 * d) * Pow2(k) == d * Pow2(k + 1)
  {
    var p := Pow2(k);
    assert Pow2(k + 1) == 2 * p;
    assert (2 * d) * p == d * (2 * p);
  }

  /**
   * The clamped logarithm for a positive divisor `d = 256 * radius`: the largest `k` in
   * 0..21 with `2^k * d <= 40075017`, or 0 when `d` already exceeds it.
   */
  function ClampedLog2(d: nat): (k: nat)
    requires d > 0
    ensures k <= MaxZoom
    ensures d > EarthCircumference ==> k == 0
    ensures d <= EarthCircumference ==>
              Pow2(k) * d <= EarthCircumference
              && (k == MaxZoom || EarthCircumference < Pow2(k + 1) * d)
  {
    if d > EarthCircumference then 0
    else
      var k := FloorLog2(EarthCircumference, d);
      if k <= MaxZoom then k
      else
        assert Pow2(MaxZoom) * d <= Pow2(k) * d by {
          Pow2Monotone(MaxZoom, k);
          MulMonotone(Pow2(MaxZoom), Pow2(k), d, d);
        }
        MaxZoom
  }

  /**
   * The zoom level for a search radius in meters: an error where Python raises one —
   * a zero radius, a divisor `256 * radius` too large to convert to a float, then a
   * negative ratio for the logarithm; otherwise the largest `k` in 0..21 with
   * `2^k * 256 * radius <= 40075017`, or 0 when `256 * radius` already exceeds it
   * (the logarithm is then negative, truncates to a value at most 0, and is clamped).
   */
  function RadiusToZoom(radius: int): (r: Result<int, MathError>)
    ensures radius == 0 <==> r == Failure(ZeroDivision)
    ensures !ConvertsToFloat(PixelsPerTile * radius) <==> r == Failure(Overflow)
    ensures radius < 0 && ConvertsToFloat(PixelsPerTile * radius) <==> r == Failure(MathDomain)
    ensures radius > 0 && ConvertsToFloat(PixelsPerTile * radius) <==> r.Success?
    ensures r.Success? ==> 0 <= r.value <= MaxZoom
    ensures r.Success? && PixelsPerTile * radius > EarthCircumference ==> r == Success(0)
    ensures radius > 0 && PixelsPerTile * radius <= EarthCircumference ==>
              r.Success?
              && Pow2(r.value) * (PixelsPerTile * radius) <= EarthCircumference
              && (r.value == MaxZoom || EarthCircumference < Pow2(r.value + 1) * (PixelsPerTile * radius))
  {
    if radius == 0 then Failure(ZeroDivision)
    else if !ConvertsToFloat(PixelsPerTile * radius) then Failure(Overflow)
    else if radius < 0 then Failure(MathDomain)
    else Success(ClampedLog2(PixelsPerTile * radius))
  }

  /** A larger radius never gives a larger zoom, and fails only where the smaller one may. */
  lemma ZoomNonIncreasing(r1: int, r2: int)
    requires 0 < r1 <= r2
    ensures RadiusToZoom(r2).Success? ==> RadiusToZoom(r1).Success?
    ensures RadiusToZoom(r2).Success? ==> RadiusToZoom(r2).value <= RadiusToZoom(r1).value
  {
    if RadiusToZoom(r2).Failure? {
      return;
    }
    var z1, z2 := RadiusToZoom(r1).value, RadiusToZoom(r2).value;
    var d1, d2 := PixelsPerTile * r1, PixelsPerTile * r2;
    ScaledPow2Monotone(z1 + 1, z2, d2);
    MulMonotone(Pow2(z1 + 1), Pow2(z1 + 1), d1, d2);
  }

  /** Multiplying by a power of two is monotone in the exponent. */
  lemma ScaledPow2Monotone(a: nat, b: nat, d: nat)
    ensures a <= b ==> Pow2(a) * d <= Pow2(b) * d
  {
    if a <= b {
      Pow2Monotone(a, b);
      MulMonotone(Pow2(a), Pow2(b), d, d);
    }
  }

  lemma MulMonotone(a: nat, b: nat, c: nat, d: nat)
    requires a <= b && c <= d
    ensures a * c <= b * d
  {
    assert a * c <= b * c;
    assert b * c <= b * d;
  }

  /** A one-meter radius gives zoom 17 and five meters give 14. */
  lemma ZoomExamples()
    ensures RadiusToZoom(1) == Success(17)
    ensures RadiusToZoom(5) == Success(14)
  {
    assert Pow2(1) == 2;
    assert Pow2(2) == 4;
    assert Pow2(3) == 8;
    assert Pow2(4) == 16;
    assert Pow2(5) == 32;
    assert Pow2(6) == 64;
    assert Pow2(7) == 128;
    assert Pow2(8) == 256;
    assert Pow2(9) == 512;
    assert Pow2(10) == 1024;
    assert Pow2(11) == 2048;
    assert Pow2(12) == 4096;
    assert Pow2(13) == 8192;
    assert Pow2(14) == 16384;
    assert Pow2(15) == 32768;
    assert Pow2(16) == 65536;
    assert Pow2(17) == 131072;
    assert Pow2(18) == 262144;
    ZoomUnique(1, 17);
    ZoomUnique(5, 14);
  }

  /** The zoom of a radius that fits the tile at least once is the one `k` meeting both bounds. */
  lemma ZoomUnique(radius: int, k: nat)
    requires radius > 0 && k < MaxZoom
    requires Pow2(k) * (PixelsPerTile * radius) <= EarthCircumference
    requires EarthCircumference < Pow2(k + 1) * (PixelsPerTile * radius)
    ensures RadiusToZoom(radius) == Success(k)
  {
    var z := RadiusToZoom(radius).value;
    var d := PixelsPerTile * radius;
    assert d <= EarthCircumference by {
      MulMonotone(1, Pow2(k), d, d);
    }
    ScaledPow2Monotone(z + 1, k, d);
    ScaledPow2Monotone(k + 1, z, d);
  }

  /** No positive integer radius reaches the cap of 21: the zoom is at most 17. */
  lemma ZoomAtMost17(radius: int)
    requires radius >= 1
    ensures RadiusToZoom(radius).Success? ==> RadiusToZoom(radius).value <= 17
  {
    ZoomExamples();
    ZoomNonIncreasing(1, radius);
  }
}
