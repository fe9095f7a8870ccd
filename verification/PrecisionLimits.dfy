/**
  Where the precision that is asked for and the one that is delivered part ways: more
  than 767 digits.
 */
module PrecisionLimits {
  import opened Powers
  import opened Decimal
  import opened BinaryValue
  import opened DoubleBits
  import opened FormatFloat

  // ------------------------------------------- beyond 767 significant digits

  /** A value that reaches 10^x reaches every smaller power. */
  lemma {:induction false} ReachesLower(f: nat, e: int, x: int, y: int)
    requires ScaledDen(e, x) <= ScaledNum(f, e, x) && y <= x
    ensures ScaledDen(e, y) <= ScaledNum(f, e, y)
    decreases x - y
  {
    if y < x {
      FinerByTen(f, e, x);
      ReachesLower(f, e, x - 1, y);
    }
  }

  lemma FivesBelowTwos(a: nat, b: nat, c: nat, d: nat)
    requires Pow(5, a) <= Pow(2, c) && Pow(5, b) < Pow(2, d)
    ensures Pow(5, 9 * a + b) < Pow(2, 9 * c + d)
  {
    NinthPowers(a, c);
    PowAdd(5, 9 * a, b);
    PowAdd(2, 9 * c, d);
    StrictProduct(Pow(5, 9 * a), Pow(2, 9 * c), Pow(5, b), Pow(2, d));
  }

  lemma StrictProduct(x: nat, bx: nat, y: nat, cy: nat)
    requires x <= bx && y < cy && bx > 0
    ensures x * y < bx * cy
  {
    MulMonotone(x, bx, y);
    MulStrict(y, cy, bx);
  }

  lemma NinthPowers(five: nat, two: nat)
    requires Pow(5, five) <= Pow(2, two)
    ensures Pow(5, 9 * five) <= Pow(2, 9 * two)
  {
    PowPow(5, five, 9);
    PowPow(2, two, 9);
    PowBaseMonotone(Pow(5, five), Pow(2, two), 9);
  }

  lemma FiveToSeven(n: nat)
    requires n == 7
    ensures Pow(5, n) == 78125 && Pow(5, n - 4) == 125
  {
  }

  /** 5^31 <= 2^72 and 5^28 < 2^66, so that 5^307 < 2^714. */
  lemma FiveTo31(n: nat, m: nat)
    requires n == 7 && m == 64
    ensures Pow(5, 4 * n + (n - 4)) <= Pow(2, m + 8) && Pow(5, 4 * n) < Pow(2, m + 2)
  {
    FiveToSeven(n);
    PowAdd(5, n, n);
    PowAdd(5, 2 * n, 2 * n);
    PowAdd(5, 4 * n, n - 4);
    TwoTo64();
    PowAdd(2, m, 8);
    PowAdd(2, m, 2);
    assert Pow(2, 8) == 256 && Pow(2, 2) == 4;
  }

  /** A small double's leading place is less than 767 above its binary exponent. */
  lemma FewDigits(f: nat, e: int, lead: int)
    requires 0 < f < 2 * IMPLICIT_BIT && -1074 <= e < 0 && Leads(f, e, lead)
    ensures lead - 766 <= e
  {
    var x := 767 + e;
    if lead >= x {
      ReachesLower(f, e, lead, x);
      TwoTo53();
      if x >= 0 {
        TooWide(f, -e, x);
      } else {
        TooLong(f, -e, -x);
      }
      assert false;
    }
  }

  lemma TwoTo53()
    ensures Pow(2, 53) == 2 * IMPLICIT_BIT
  {
    TwoTo52();
    assert Pow(2, 53) == 2 * Pow(2, 52);
  }

  lemma TooWide(f: nat, n: nat, x: nat)
    requires f < Pow(2, 53) && n + x >= 53
    ensures f < Pow(2, n) * Pow(10, x)
  {
    PowMonotone(2, 53, x + n);
    PowAdd(2, x, n);
    PowBaseMonotone(2, 10, x);
    WiderProduct(Pow(2, x), Pow(10, x), Pow(2, n));
  }

  lemma WiderProduct(x: nat, y: nat, k: nat)
    requires x <= y
    ensures x * k <= k * y
  {
    MulMonotone(x, y, k);
  }

  lemma FewFives(f: nat, j: nat, a: nat, b: nat, c: nat, d: nat)
    requires f < Pow(2, 53) && j <= 9 * a + b && Pow(5, a) <= Pow(2, c) && Pow(5, b) < Pow(2, d)
    ensures Pow(5, j) * f < Pow(2, 9 * c + d + 53)
  {
    FivesBelowTwos(a, b, c, d);
    PowMonotone(5, j, 9 * a + b);
    PowAdd(2, 9 * c + d, 53);
    StrictProduct(Pow(5, j), Pow(2, 9 * c + d), f, Pow(2, 53));
  }

  lemma FivesToTens(f: nat, j: nat, m: nat)
    requires Pow(5, j) * f < Pow(2, m)
    ensures f * Pow(10, j) < Pow(2, m + j)
  {
    PowMulBase(2, 5, j);
    PowAdd(2, m, j);
    MulStrict(Pow(5, j) * f, Pow(2, m), Pow(2, j));
    Shuffle(f, Pow(2, j), Pow(5, j));
  }

  lemma TooLong(f: nat, n: nat, j: nat)
    requires f < Pow(2, 53) && n == 767 + j && j <= 307
    ensures f * Pow(10, j) < Pow(2, n)
  {
    FiveTo31(7, 64);
    FewFives(f, j, 31, 28, 72, 66);
    FivesToTens(f, j, 767);
  }

  lemma Shuffle(f: int, two: int, five: int)
    ensures f * (two * five) == (five * f) * two
  {
    MulAssociate(f, two, five);
  }

  /** Large doubles are integers of at most 309 digits. */
  lemma FewIntegerDigits(f: nat, e: int, lead: int)
    requires 0 < f < 2 * IMPLICIT_BIT && 0 <= e <= 971 && Leads(f, e, lead)
    ensures lead <= 766
  {
    assert Pow(2, 0) == 1 && Pow(10, 0) == 1;
    if lead > 766 {
      assert ScaledNum(f, e, lead) == f * Pow(2, e) && ScaledDen(e, lead) == Pow(10, lead);
      TwoTo53();
      IntegerBound(f, e, lead);
      assert false;
    }
  }

  lemma IntegerBound(f: nat, e: nat, lead: nat)
    requires f < Pow(2, 53) && 53 + e <= 3 * lead
    ensures f * Pow(2, e) < Pow(10, lead)
  {
    MulStrict(f, Pow(2, 53), Pow(2, e));
    PowAdd(2, 53, e);
    PowMonotone(2, 53 + e, 3 * lead);
    PowPow(2, 3, lead);
    assert Pow(2, 3) == 8;
    PowBaseMonotone(8, 10, lead);
  }

  /** At the 767th place the value is whole. */
  lemma WholeAt(f: nat, e: int, unit: int)
    requires unit <= 0 && unit <= e
    ensures ScaledNum(f, e, unit) % ScaledDen(e, unit) == 0
  {
    assert Pow(10, 0) == 1;
    if e >= 0 {
      assert ScaledDen(e, unit) == 1;
    } else {
      var n := -e;
      PowAdd(10, -unit - n, n);
      PowMulBase(2, 5, n);
      var c := (f * Pow(10, -unit - n)) * Pow(5, n);
      Collect(f, Pow(10, -unit - n), Pow(2, n), Pow(5, n));
      DivModUnique(ScaledNum(f, e, unit), Pow(2, n), c, 0);
    }
  }

  lemma Collect(f: int, a: int, b: int, c: int)
    ensures f * (a * (b * c)) == ((f * a) * c) * b
  {
    assert a * (b * c) == (a * c) * b;
    MulAssociate(f, a * c, b);
    MulAssociate(f, a, c);
  }

  /** Rounding what is whole already changes nothing at finer places. */
  lemma WholeStays(f: nat, e: int, unit: int, k: nat)
    requires ScaledNum(f, e, unit) % ScaledDen(e, unit) == 0
    ensures Rounded(f, e, unit - k) == Rounded(f, e, unit) * Pow(10, k)
  {
    RoundedFiner(f, e, unit, k);
    WholeMultiple(ScaledNum(f, e, unit), ScaledDen(e, unit), Pow(10, k));
  }

  lemma WholeMultiple(n: nat, d: nat, t: nat)
    requires d > 0 && n % d == 0
    ensures 0 <= n * t && RoundHalfEven(n * t, d) == RoundHalfEven(n, d) * t
  {
    var q := n / d;
    MulNonNegative(n, t);
    MulNonNegative(q, t);
    assert n == q * d;
    Shuffle(t, d, q);
    RoundFromDivision(n * t, d, q * t, 0);
  }

  /** Digits past the 767th significant one are zeros: limiting the precision loses nothing. */
  lemma ClampHarmless(f: nat, e: int, lead: int, precision: nat)
    requires 0 < f < 2 * IMPLICIT_BIT && -1074 <= e <= 971 && Leads(f, e, lead) && precision > MAX_DOUBLE_DIGITS
    ensures
      var clamped := Rounded(f, e, lead + 1 - MAX_DOUBLE_DIGITS);
      Rounded(f, e, lead + 1 - precision) == clamped * Pow(10, precision - MAX_DOUBLE_DIGITS)
  {
    var unit := lead - 766;
    if e < 0 {
      FewDigits(f, e, lead);
    } else {
      FewIntegerDigits(f, e, lead);
    }
    WholeAt(f, e, unit);
    WholeStays(f, e, unit, precision - 767);
  }

  // ---------------------------------------- beyond 767 places after the point

  /** The distance from num / den to the nearest integer, in units of 1 / den. */
  function Distance(num: nat, den: nat): nat
    requires den > 0
  {
    var r := num % den;
    if 2 * r <= den then r else den - r
  }

  /** Rounding coarsely and then scaling is rounding finely, exactly when the coarse error is small enough. */
  lemma CoarseAgrees(num: nat, den: nat, t: nat)
    requires den > 0 && t > 0 && t % 2 == 0
    ensures 0 <= num * t
    ensures RoundHalfEven(num * t, den) == RoundHalfEven(num, den) * t <==> 2 * (Distance(num, den) * t) <= den
  {
    var q, r := num / den, num % den;
    SplitRound(num, den, q, r, t);
    MulDistribute(q, 1, t);
    RemainderAgrees(r, den, t);
  }

  /** Which of the two neighbours a remainder, scaled, rounds to. */
  lemma RemainderAgrees(r: nat, den: nat, t: nat)
    requires r < den && t > 0 && t % 2 == 0
    ensures 0 <= r * t && 0 <= (den - r) * t
    ensures 2 * r <= den ==> (RoundHalfEven(r * t, den) == 0 <==> 2 * (r * t) <= den)
    ensures 2 * r > den ==> (RoundHalfEven(r * t, den) == t <==> 2 * ((den - r) * t) <= den)
    ensures 2 * r == den ==> RoundHalfEven(r * t, den) != t && 2 * (r * t) > den
  {
    RoundsToTop(r, den, t);
    RoundsToZero(r * t, den);
    HalfOfEven(r, den, t);
  }

  lemma SplitRound(num: nat, den: nat, q: nat, r: nat, t: nat)
    requires den > 0 && num == q * den + r && t % 2 == 0
    ensures 0 <= num * t && 0 <= r * t
    ensures RoundHalfEven(num * t, den) == q * t + RoundHalfEven(r * t, den)
  {
    MulNonNegative(num, t);
    MulNonNegative(r, t);
    MulNonNegative(q, t);
    MulDistribute(q * den, r, t);
    Shuffle(t, den, q);
    EvenProduct(q, t);
    RoundShift(num * t, den, q * t, r * t);
  }

  /** An even whole part passes through rounding. */
  lemma RoundShift(n: nat, den: nat, whole: nat, rest: nat)
    requires den > 0 && whole % 2 == 0 && n == whole * den + rest
    ensures RoundHalfEven(n, den) == whole + RoundHalfEven(rest, den)
  {
    RoundShiftBy(n, den, whole, rest, rest / den, rest % den);
  }

  lemma RoundShiftBy(n: nat, den: nat, whole: nat, rest: nat, x: nat, y: nat)
    requires den > 0 && whole % 2 == 0 && n == whole * den + rest && rest == x * den + y && y < den
    ensures RoundHalfEven(n, den) == whole + RoundHalfEven(rest, den)
  {
    MulDistribute(whole, x, den);
    SameParity(whole, x);
    RoundFromDivision(rest, den, x, y);
    RoundFromDivision(n, den, whole + x, y);
  }

  lemma SameParity(whole: nat, x: nat)
    requires whole % 2 == 0
    ensures (whole + x) % 2 == x % 2
  {
  }

  lemma RoundsToZero(n: nat, den: nat)
    requires den > 0
    ensures RoundHalfEven(n, den) == 0 <==> 2 * n <= den
  {
    var q, r := n / den, n % den;
    assert n == q * den + r;
    if q > 0 {
      MulMonotone(1, q, den);
    }
  }

  lemma RoundsToTop(r: nat, den: nat, t: nat)
    requires r < den && t > 0 && t % 2 == 0
    ensures 0 <= r * t && 0 <= (den - r) * t
    ensures RoundHalfEven(r * t, den) == t <==> 2 * ((den - r) * t) <= den
  {
    MulNonNegative(r, t);
    MulNonNegative(den - r, t);
    MulSubtract(den, r, t);
    MulStrict(r, den, t);
    NearTop(r * t, den, t, (den - r) * t);
  }

  lemma NearTop(n: nat, den: nat, t: nat, gap: nat)
    requires den > 0 && t > 0 && t % 2 == 0 && n + gap == den * t && gap > 0
    ensures RoundHalfEven(n, den) == t <==> 2 * gap <= den
  {
    if gap <= den {
      MulSubtract(t, 1, den);
      RoundFromDivision(n, den, t - 1, den - gap);
    } else {
      NearestBound(n, den);
      if RoundHalfEven(n, den) == t {
        assert false;
      }
    }
  }

  /** Rounding moves by at most half. */
  lemma NearestBound(n: nat, den: nat)
    requires den > 0
    ensures
      var r := RoundHalfEven(n, den);
      2 * (r * den) <= 2 * n + den && 2 * n <= 2 * (r * den) + den
  {
    var q := n / den;
    assert n == q * den + n % den;
    MulDistribute(q, 1, den);
  }

  /** Exactly half-way, an even scale gives an integer strictly between. */
  lemma HalfOfEven(r: nat, den: nat, t: nat)
    requires r < den && t > 0 && t % 2 == 0
    ensures 0 <= r * t
    ensures 2 * r == den ==> RoundHalfEven(r * t, den) == t / 2 && 2 * (r * t) > den
  {
    MulNonNegative(r, t);
    if 2 * r == den {
      var h := t / 2;
      assert t == 2 * h;
      MulAssociate(r, 2, h);
      MulMonotone(1, h, den);
      RoundFromDivision(r * t, den, h, 0);
    }
  }

  /**
    In fixed notation the limit is on the places after the point, and then it can
    lose digits: the result is the value rounded at the place asked for exactly when
    the value is within half a unit of that place of a multiple of 10^-767.
   */
  lemma ClampedFixed(f: nat, e: int, precision: nat)
    requires precision > MAX_DOUBLE_DIGITS
    ensures
      var p, scale := 0 - MAX_DOUBLE_DIGITS, Pow(10, precision - MAX_DOUBLE_DIGITS);
      Rounded(f, e, 0 - precision) == Rounded(f, e, p) * scale <==>
      2 * (Distance(ScaledNum(f, e, p), ScaledDen(e, p)) * scale) <= ScaledDen(e, p)
  {
    var p: int, k := -767, precision - 767;
    RoundedFiner(f, e, p, k);
    EvenTens(k);
    CoarseAgrees(ScaledNum(f, e, p), ScaledDen(e, p), Pow(10, k));
  }

  lemma EvenTens(k: nat)
    requires k > 0
    ensures Pow(10, k) % 2 == 0
  {
    var h := Pow(10, k - 1);
    assert Pow(10, k) == 2 * (5 * h);
  }

  /**
    It does lose digits: 2^-n has n places, the last of them a 5, and no rounding at
    an earlier place p keeps it.  The smallest double is 2^-1074.
   */
  lemma SmallPowersLose(n: nat, p: nat)
    requires p < n
    ensures Rounded(1, 0 - n, 0 - n) == Pow(5, n)
    ensures Rounded(1, 0 - n, 0 - n) != Rounded(1, 0 - n, 0 - p) * Pow(10, n - p)
  {
    assert Pow(2, 0) == 1 && Pow(10, 0) == 1;
    assert ScaledNum(1, 0 - n, 0 - n) == Pow(10, n) && ScaledDen(0 - n, 0 - n) == Pow(2, n);
    PowMulBase(2, 5, n);
    RoundFromDivision(Pow(10, n), Pow(2, n), Pow(5, n), 0);
    FiveIsOdd(n);
    EvenTens(n - p);
    EvenProduct(Rounded(1, 0 - n, 0 - p), Pow(10, n - p));
  }
}
