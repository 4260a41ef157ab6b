/** Rupee amounts: the accepted formats and the totals of `packages/contracts/src/activity.ts` and
    `packages/contracts/src/visit.ts`. An amount goes through a double twice before it is a whole number
    of paise, and the total goes through one again to be printed. */
module Money {
  import opened Text
  import opened Doubles

  // ---------------------------------------------------------------------------
  // Amounts as text
  // ---------------------------------------------------------------------------

  function DigitValue(c: char): nat
    requires IsDigit(c)
  {
    (c - '0') as nat
  }

  function Digits(s: string): nat
    requires AllDigits(s)
  {
    if s == [] then 0 else 10 * Digits(s[..|s| - 1]) + DigitValue(s[|s| - 1])
  }

  /** One to `most` digits, then perhaps a point and one or two more. */
  ghost predicate Accepted(s: string, most: nat) {
    exists point: nat :: SplitsAt(s, most, point)
  }

  predicate SplitsAt(s: string, most: nat, point: nat) {
    && 1 <= point <= most && point <= |s| && AllDigits(s[..point])
    && (point == |s| || (s[point] == '.' && point + 2 <= |s| <= point + 3 && AllDigits(s[point + 1..])))
  }

  /** The amount a string denotes, in paise. */
  function PaiseAt(s: string, most: nat, point: nat): nat
    requires SplitsAt(s, most, point)
  {
    100 * Digits(s[..point])
    + if point == |s| then 0 else if |s| == point + 2 then 10 * Digits(s[point + 1..]) else Digits(s[point + 1..])
  }

  lemma PointUnique(s: string, most: nat, a: nat, b: nat)
    requires SplitsAt(s, most, a) && SplitsAt(s, most, b)
    ensures a == b
  {
  }

  ghost function Paise(s: string, most: nat): nat
    requires Accepted(s, most)
  {
    var point: nat :| SplitsAt(s, most, point);
    PaiseAt(s, most, point)
  }

  // ---------------------------------------------------------------------------
  // The computation
  // ---------------------------------------------------------------------------

  /** `Number(s)` of a string denoting `paise` hundredths. */
  function NumberOf(rn: real -> real, paise: nat): real {
    rn(paise as real / 100.0)
  }

  /** `Math.round(Number(s) * 100)`. */
  function RoundedPaise(rn: real -> real, paise: nat): int {
    Round(rn(NumberOf(rn, paise) * 100.0))
  }

  /** The `reduce`: a floating-point sum that starts at zero. */
  ghost function FloatSum(rn: real -> real, amounts: seq<string>, most: nat): real
    requires forall a <- amounts :: Accepted(a, most)
  {
    if amounts == [] then 0.0
    else
      var last := amounts[|amounts| - 1];
      rn(FloatSum(rn, amounts[..|amounts| - 1], most) + RoundedPaise(rn, Paise(last, most)) as real)
  }

  function DigitChar(d: nat): char
    requires d < 10
  {
    '0' + d as char
  }

  function Decimal(n: nat): string {
    if n < 10 then [DigitChar(n)] else Decimal(n / 10) + [DigitChar(n % 10)]
  }

  function PrintPaise(n: nat): string {
    Decimal(n / 100) + "." + [DigitChar(n / 10 % 10), DigitChar(n % 10)]
  }

  /** `toFixed(2)` of a non-negative number: the closest number of hundredths, the larger if two tie. */
  function ToFixed2(x: real): string
    requires x >= 0.0
  {
    PrintPaise(Round(x * 100.0))
  }

  /** `(paise / 100).toFixed(2)`; never negative for the sums that occur. */
  ghost function Total(rn: real -> real, amounts: seq<string>, most: nat): string
    requires forall a <- amounts :: Accepted(a, most)
  {
    var x := rn(FloatSum(rn, amounts, most) / 100.0);
    if x >= 0.0 then ToFixed2(x) else "-"
  }

  // ---------------------------------------------------------------------------
  // Every amount becomes its exact paise
  // ---------------------------------------------------------------------------

  /** Nine digits and two decimals: fewer than 10^11 paise. */
  const LIMIT: nat := 100_000_000_000

  lemma HalfSteps(rn: real -> real, x: real)
    requires RoundsToNearest(rn) && Abs(x) <= 137_438_953_472.0
    ensures Abs(rn(x) - x) <= 1.0 / 131072.0
  {
    Pow2Small();
    assert 137_438_953_472.0 == TWO53 as real * (1.0 / 65536.0);
    NearGrid(rn, x, 16);
  }

  /** Two roundings to nearest do not move an amount off its paise, whichever way ties go. */
  lemma RoundedPaiseExact(rn: real -> real, paise: nat)
    requires RoundsToNearest(rn) && paise <= LIMIT
    ensures RoundedPaise(rn, paise) == paise
  {
    var exact := paise as real / 100.0;
    HalfSteps(rn, exact);
    var x := NumberOf(rn, paise);
    assert Abs(x * 100.0 - paise as real) <= 100.0 / 131072.0;
    HalfSteps(rn, x * 100.0);
    var y := rn(x * 100.0);
    assert Abs(y - paise as real) <= 101.0 / 131072.0;
  }

  lemma {:induction false} DigitsBounded(s: string, n: nat)
    requires AllDigits(s) && |s| <= n
    ensures Digits(s) < Power10(n)
    decreases n
  {
    if s != [] {
      DigitsBounded(s[..|s| - 1], n - 1);
    }
  }

  function Power10(n: nat): (p: nat)
    ensures p > 0
  {
    if n == 0 then 1 else 10 * Power10(n - 1)
  }

  lemma AcceptedBounded(s: string, most: nat)
    requires Accepted(s, most) && most <= 9
    ensures Paise(s, most) < LIMIT
  {
    var point: nat :| SplitsAt(s, most, point);
    forall p: nat | SplitsAt(s, most, p) ensures p == point { PointUnique(s, most, p, point); }
    DigitsBounded(s[..point], 9);
    Power10Nine();
    if point < |s| {
      DigitsBounded(s[point + 1..], |s| - point - 1);
    }
  }

  lemma Power10Nine()
    ensures Power10(9) == 1_000_000_000 && Power10(2) == 100 && Power10(1) == 10
  {
    assert Power10(3) == 1000;
    assert Power10(5) == 100_000;
    assert Power10(7) == 10_000_000;
  }

  // ---------------------------------------------------------------------------
  // The total is exact up to a bound, and no further
  // ---------------------------------------------------------------------------

  /** 2^46 rupees, in paise. */
  const BOUND: nat := 7_036_874_417_766_400

  ghost function Sum(amounts: seq<string>, most: nat): nat
    requires forall a <- amounts :: Accepted(a, most)
  {
    if amounts == [] then 0 else Sum(amounts[..|amounts| - 1], most) + Paise(amounts[|amounts| - 1], most)
  }

  lemma {:induction false} FloatSumExact(rn: real -> real, amounts: seq<string>, most: nat)
    requires RoundsToNearest(rn) && most <= 9 && forall a <- amounts :: Accepted(a, most)
    requires Sum(amounts, most) <= TWO53
    ensures FloatSum(rn, amounts, most) == Sum(amounts, most) as real
  {
    if amounts != [] {
      var last := amounts[|amounts| - 1];
      FloatSumExact(rn, amounts[..|amounts| - 1], most);
      AcceptedBounded(last, most);
      RoundedPaiseExact(rn, Paise(last, most));
      WholeIsDouble(Sum(amounts, most));
      DoubleStays(rn, Sum(amounts, most) as real);
    }
  }

  lemma PrintedExactly(rn: real -> real, paise: nat)
    requires RoundsToNearest(rn) && paise <= BOUND
    ensures rn(paise as real / 100.0) >= 0.0 && ToFixed2(rn(paise as real / 100.0)) == PrintPaise(paise)
  {
    var x := paise as real / 100.0;
    Pow2Small();
    assert TWO53 as real * (1.0 / 128.0) == BOUND as real / 100.0;
    NearGrid(rn, x, 7);
    WholeIsDouble(0);
    assert Nearest(x, rn(x));
    assert Abs(rn(x) - x) <= Abs(0.0 - x);
    assert Abs(rn(x) * 100.0 - paise as real) <= 100.0 / 256.0;
    assert Round(rn(x) * 100.0) == paise;
  }

  /** For every list of accepted amounts that adds up to at most 2^46 rupees, the printed total is the
      exact decimal sum. */
  lemma TotalIsExact(rn: real -> real, amounts: seq<string>, most: nat)
    requires RoundsToNearest(rn) && most <= 9 && forall a <- amounts :: Accepted(a, most)
    requires Sum(amounts, most) <= BOUND
    ensures Total(rn, amounts, most) == PrintPaise(Sum(amounts, most))
  {
    hide Accepted, Sum, FloatSum, ToFixed2, PrintPaise, RoundsToNearest;
    FloatSumExact(rn, amounts, most);
    PrintedExactly(rn, Sum(amounts, most));
  }

  /** The bound cannot be raised: one paisa more is still summed exactly but printed as two more. */
  lemma BoundIsSharp(rn: real -> real, amounts: seq<string>, most: nat)
    requires RoundsToNearest(rn) && most <= 9 && forall a <- amounts :: Accepted(a, most)
    requires Sum(amounts, most) == BOUND + 1
    ensures Total(rn, amounts, most) == PrintPaise(BOUND + 2)
  {
    FloatSumExact(rn, amounts, most);
    var x := (BOUND + 1) as real / 100.0;
    var up := TWO46 as real + 1.0 / 64.0;
    Pow2Small();
    assert IsDouble(up) by {
      assert TWO53 >= TWO46 * 64 + 1;
      assert IsDoubleWith(up, TWO46 * 64 + 1, -6);
    }
    assert Nearest(x, rn(x));
    assert Abs(rn(x) - x) <= Abs(up - x);
    assert rn(x) > TWO46 as real;
    NoDoubleInGap(rn(x));
    assert rn(x) == up;
    assert Round(up * 100.0) == BOUND + 2;
  }

  // ---------------------------------------------------------------------------
  // Printing and reading
  // ---------------------------------------------------------------------------

  lemma {:induction false} DecimalDigits(n: nat, k: nat)
    requires k > 0 && n < Power10(k)
    ensures 1 <= |Decimal(n)| <= k && AllDigits(Decimal(n)) && Digits(Decimal(n)) == n
    decreases k
  {
    var s := Decimal(n);
    if n < 10 {
      assert s[..0] == [];
    } else {
      DecimalDigits(n / 10, k - 1);
      assert s[..|s| - 1] == Decimal(n / 10);
    }
  }

  /** A printed total is itself an accepted amount, as long as it has at most `most` digits before the
      point, and denotes the number of paise it was printed from. */
  lemma PrintedIsRead(n: nat, most: nat)
    requires most > 0 && n < 100 * Power10(most)
    ensures Accepted(PrintPaise(n), most) && Paise(PrintPaise(n), most) == n
  {
    var s := PrintPaise(n);
    var whole := Decimal(n / 100);
    DecimalDigits(n / 100, most);
    var point := |whole|;
    var cents := [DigitChar(n / 10 % 10), DigitChar(n % 10)];
    assert s[..point] == whole && s[point] == '.' && s[point + 1..] == cents;
    TwoDigits(n / 10 % 10, n % 10);
    assert n == 100 * (n / 100) + 10 * (n / 10 % 10) + n % 10;
    assert SplitsAt(s, most, point) && PaiseAt(s, most, point) == n by { hide Digits, Decimal; }
    hide Digits, Decimal, PrintPaise, SplitsAt, PaiseAt;
    forall p: nat | SplitsAt(s, most, p) ensures p == point { PointUnique(s, most, p, point); }
  }

  lemma TwoDigits(tens: nat, units: nat)
    requires tens < 10 && units < 10
    ensures AllDigits([DigitChar(tens), DigitChar(units)])
    ensures Digits([DigitChar(tens), DigitChar(units)]) == 10 * tens + units
  {
    var cents := [DigitChar(tens), DigitChar(units)];
    var first := [DigitChar(tens)];
    assert first[..0] == [] && Digits(first) == tens;
    assert cents[..1] == first;
  }

  /** So two totals that print alike are equal. */
  lemma PrintIsInjective(m: nat, n: nat)
    requires PrintPaise(m) == PrintPaise(n)
    ensures m == n
  {
    var k := DigitsNeeded(if m > n then m else n);
    PrintedIsRead(m, k);
    PrintedIsRead(n, k);
  }

  lemma {:induction false} DigitsNeeded(n: nat) returns (k: nat)
    ensures k > 0 && n < Power10(k)
  {
    if n < 10 {
      k := 1;
    } else {
      k := DigitsNeeded(n / 10);
      k := k + 1;
    }
  }

  // ---------------------------------------------------------------------------
  // One amount, several spellings
  // ---------------------------------------------------------------------------

  lemma PaiseIs(s: string, most: nat, point: nat)
    requires SplitsAt(s, most, point)
    ensures Accepted(s, most) && Paise(s, most) == PaiseAt(s, most, point)
  {
    hide PaiseAt, SplitsAt;
    forall p: nat | SplitsAt(s, most, p) ensures p == point { PointUnique(s, most, p, point); }
  }

  lemma SpelledOut(whole: string, cents: string, most: nat)
    requires 1 <= |whole| <= most && AllDigits(whole) && 1 <= |cents| <= 2 && AllDigits(cents)
    ensures Accepted(whole + "." + cents, most)
    ensures Paise(whole + "." + cents, most) == 100 * Digits(whole) + if |cents| == 1 then 10 * Digits(cents) else Digits(cents)
  {
    hide Digits;
    var s := whole + "." + cents;
    assert s[..|whole|] == whole && s[|whole|] == '.' && s[|whole| + 1..] == cents;
    PaiseIs(s, most, |whole|);
  }

  lemma WholeOnly(whole: string, most: nat)
    requires 1 <= |whole| <= most && AllDigits(whole)
    ensures Accepted(whole, most) && Paise(whole, most) == 100 * Digits(whole)
  {
    hide Digits;
    assert whole[..|whole|] == whole;
    PaiseIs(whole, most, |whole|);
  }

  lemma DigitThenZero(tenth: char)
    requires IsDigit(tenth)
    ensures AllDigits([tenth, '0']) && AllDigits([tenth]) && Digits([tenth, '0']) == 10 * Digits([tenth])
    ensures tenth == '0' ==> Digits([tenth]) == 0
  {
    assert [tenth, '0'][..1] == [tenth] && [tenth][..0] == [];
  }

  /** Zeros left out behind the point make no difference: 5 is 5.0 and 5.00, and 5.2 is 5.20. */
  lemma TrailingZeros(whole: string, tenth: char, most: nat)
    requires 1 <= |whole| <= most && AllDigits(whole) && IsDigit(tenth)
    ensures Accepted(whole, most) && Accepted(whole + "." + [tenth], most) && Accepted(whole + "." + [tenth, '0'], most)
    ensures Paise(whole + "." + [tenth], most) == Paise(whole + "." + [tenth, '0'], most)
    ensures tenth == '0' ==> Paise(whole + "." + [tenth], most) == Paise(whole, most)
  {
    hide Digits, Accepted, Paise;
    DigitThenZero(tenth);
    WholeOnly(whole, most);
    SpelledOut(whole, [tenth], most);
    SpelledOut(whole, [tenth, '0'], most);
  }

  lemma {:induction false} LeadingZero(s: string)
    requires AllDigits(s)
    ensures AllDigits("0" + s) && Digits("0" + s) == Digits(s)
  {
    if s == [] {
      assert "0" + s == "0" && "0"[..0] == [];
    } else {
      var last := |s| - 1;
      LeadingZero(s[..last]);
      assert ("0" + s)[..|s|] == "0" + s[..last] && ("0" + s)[|s|] == s[last];
    }
  }

  /** Nor does a zero in front, where there is a place for it. */
  lemma LeadingZeros(s: string, most: nat)
    requires Accepted(s, most)
    ensures Accepted("0" + s, most + 1) && Paise("0" + s, most + 1) == Paise(s, most)
  {
    hide Digits;
    var point: nat :| SplitsAt(s, most, point);
    var longer := "0" + s;
    var wider := point + 1;
    LeadingZero(s[..point]);
    assert longer[..wider] == "0" + s[..point];
    assert longer[wider..] == s[point..];
    if point < |s| { assert longer[wider] == s[point] && longer[wider + 1..] == s[point + 1..]; }
    assert SplitsAt(longer, most + 1, wider) && PaiseAt(longer, most + 1, wider) == PaiseAt(s, most, point);
    hide SplitsAt, PaiseAt;
    PaiseIs(s, most, point);
    PaiseIs(longer, most + 1, wider);
  }
}
