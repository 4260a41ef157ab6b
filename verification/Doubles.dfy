/** IEEE 754 double precision as far as the money code needs it: which reals are representable, and
    rounding to nearest (section 4.3.1 of IEEE 754-2019). Ties may go either way. */
module Doubles {

  const TWO53: int := 9_007_199_254_740_992

  function Pow2(e: int): (p: real)
    ensures p > 0.0
    decreases if e < 0 then -e else e
  {
    if e == 0 then 1.0 else if e > 0 then 2.0 * Pow2(e - 1) else Pow2(e + 1) / 2.0
  }

  ghost predicate IsDoubleWith(x: real, m: int, e: int) {
    -TWO53 <= m <= TWO53 && -1074 <= e <= 971 && x == m as real * Pow2(e)
  }

  ghost predicate IsDouble(x: real) {
    exists m, e :: IsDoubleWith(x, m, e)
  }

  function Abs(x: real): real {
    if x < 0.0 then -x else x
  }

  /** `y` is a double and no double is closer to `x`. */
  ghost predicate Nearest(x: real, y: real) {
    IsDouble(y) && forall z :: IsDouble(z) ==> Abs(y - x) <= Abs(z - x)
  }

  ghost predicate RoundsToNearest(rn: real -> real) {
    forall x :: Nearest(x, rn(x))
  }

  /** `Math.round`: to the nearest integer, ties upwards. */
  function Round(x: real): int {
    (x + 0.5).Floor
  }

  lemma {:induction false} Pow2Up(e: int, n: nat)
    ensures Pow2(e) * Pow2(n) == Pow2(e + n)
    decreases n
  {
    hide Pow2;
    Pow2Zero();
    if n > 0 {
      Pow2Up(e, n - 1);
      Pow2Next(e + n - 1);
      Pow2Next(n - 1);
      DoubledProduct(Pow2(e), Pow2(n - 1));
    }
  }

  lemma DoubledProduct(a: real, b: real)
    ensures a * (2.0 * b) == 2.0 * (a * b)
  {
  }

  lemma Pow2Zero()
    ensures Pow2(0) == 1.0
  {
  }

  lemma Pow2Next(e: int)
    ensures Pow2(e + 1) == 2.0 * Pow2(e)
  {
  }

  /** A number within range is at most half a grid step away from a double. */
  lemma NearGrid(rn: real -> real, x: real, steps: int)
    requires RoundsToNearest(rn) && 0 <= steps <= 1000
    requires Abs(x) <= TWO53 as real * Pow2(-steps)
    ensures Abs(rn(x) - x) <= Pow2(-steps) / 2.0
  {
    var grid := Pow2(-steps);
    Pow2Up(-steps, steps);
    var scale := Pow2(steps);
    assert grid * scale == 1.0;
    var k := (x * scale + 0.5).Floor;
    GridPoint(x, grid, scale, k);
    var z := k as real * grid;
    assert IsDouble(z) by { assert IsDoubleWith(z, k, -steps); }
    assert Nearest(x, rn(x));
    assert Abs(rn(x) - x) <= Abs(z - x);
  }

  lemma GridPoint(x: real, grid: real, scale: real, k: int)
    requires grid > 0.0 && scale > 0.0 && grid * scale == 1.0 && k == (x * scale + 0.5).Floor
    requires Abs(x) <= TWO53 as real * grid
    ensures -TWO53 <= k <= TWO53
    ensures Abs(k as real * grid - x) <= grid / 2.0
  {
    var y := x * scale;
    assert y * grid == x * (grid * scale) == x;
    assert k as real - 0.5 <= y <= k as real + 0.5;
    Scaled(k as real - 0.5, y, grid);
    Scaled(y, k as real + 0.5, grid);
    if y > TWO53 as real {
      ScaledStrictly(TWO53 as real, y, grid);
    }
    if y < -(TWO53 as real) {
      ScaledStrictly(y, -(TWO53 as real), grid);
    }
  }

  lemma Scaled(a: real, b: real, g: real)
    requires a <= b && g > 0.0
    ensures a * g <= b * g
  {
  }

  lemma ScaledStrictly(a: real, b: real, g: real)
    requires a < b && g > 0.0
    ensures a * g < b * g
  {
  }

  /** A double is not moved. */
  lemma DoubleStays(rn: real -> real, x: real)
    requires RoundsToNearest(rn) && IsDouble(x)
    ensures rn(x) == x
  {
    assert Nearest(x, rn(x));
    assert Abs(rn(x) - x) <= Abs(x - x);
  }

  /** Whole numbers up to 2^53 are doubles. */
  lemma WholeIsDouble(n: int)
    requires -TWO53 <= n <= TWO53
    ensures IsDouble(n as real)
  {
    assert IsDoubleWith(n as real, n, 0);
  }

  // ---------------------------------------------------------------------------
  // The gap just above 2^46
  // ---------------------------------------------------------------------------

  const TWO46: int := 70_368_744_177_664

  lemma Pow2Small()
    ensures Pow2(-6) == 1.0 / 64.0 && Pow2(-7) == 1.0 / 128.0 && Pow2(-16) == 1.0 / 65536.0
  {
    assert Pow2(-1) == 0.5;
    assert Pow2(-2) == 0.25;
    assert Pow2(-3) == 1.0 / 8.0;
    assert Pow2(-4) == 1.0 / 16.0;
    assert Pow2(-5) == 1.0 / 32.0;
    assert Pow2(-6) == 1.0 / 64.0;
    assert Pow2(-7) == 1.0 / 128.0;
    assert Pow2(-8) == 1.0 / 256.0;
    assert Pow2(-9) == 1.0 / 512.0;
    assert Pow2(-10) == 1.0 / 1024.0;
    assert Pow2(-11) == 1.0 / 2048.0;
    assert Pow2(-12) == 1.0 / 4096.0;
    assert Pow2(-13) == 1.0 / 8192.0;
    assert Pow2(-14) == 1.0 / 16384.0;
    assert Pow2(-15) == 1.0 / 32768.0;
  }

  lemma {:induction false} Pow2Whole(n: nat) returns (w: int)
    ensures Pow2(n) == w as real
  {
    if n == 0 {
      w := 1;
    } else {
      var half := Pow2Whole(n - 1);
      w := 2 * half;
    }
  }

  lemma {:induction false} Pow2Below(e: int)
    requires e <= -7
    ensures Pow2(e) <= 1.0 / 128.0
    decreases -e
  {
    Pow2Small();
    if e < -7 {
      Pow2Below(e + 1);
    }
  }

  /** No double lies strictly between 2^46 and 2^46 + 1/64. */
  lemma NoDoubleInGap(x: real)
    requires IsDouble(x) && TWO46 as real < x
    ensures x >= TWO46 as real + 1.0 / 64.0
  {
    var m, e :| IsDoubleWith(x, m, e);
    hide Pow2, IsDouble;
    if e < -6 {
      Pow2Below(e);
      SmallProduct(m, Pow2(e));
    } else {
      var whole := SixtyFourths(m, e);
      NextSixtyFourth(x, whole);
    }
  }

  lemma NextSixtyFourth(x: real, whole: int)
    requires x * 64.0 == whole as real && TWO46 as real < x
    ensures x >= TWO46 as real + 1.0 / 64.0
  {
    assert whole > TWO46 * 64;
  }

  lemma SixtyFourths(m: int, e: int) returns (whole: int)
    requires e >= -6
    ensures m as real * Pow2(e) * 64.0 == whole as real
  {
    Pow2Small();
    Pow2Up(-6, e + 6);
    var w := Pow2Whole(e + 6);
    WholeMultiple(m, w);
    whole := m * w;
  }

  lemma WholeMultiple(m: int, w: int)
    ensures m as real * ((1.0 / 64.0) * w as real) * 64.0 == (m * w) as real
  {
    assert (m * w) as real == m as real * w as real;
  }

  lemma SmallProduct(m: int, p: real)
    requires m <= TWO53 && 0.0 < p <= 1.0 / 128.0
    ensures m as real * p <= TWO46 as real
  {
    Scaled(m as real, TWO53 as real, p);
    Scaled(p, 1.0 / 128.0, TWO53 as real);
  }
}
