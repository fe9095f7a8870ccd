/**
  The exact value f * 2^e of a binary floating-point number, measured in units of
  10^x.  The ratio is kept as two naturals so that nothing is approximated.
 */
module BinaryValue {
  import opened Powers
  import opened Decimal

  function Pos(x: int): nat { if x > 0 then x else 0 }

  /** f * 2^e / 10^x == ScaledNum(f, e, x) / ScaledDen(e, x). */
  function ScaledNum(f: nat, e: int, x: int): nat
  {
    MulNonNegative(f, Pow(2, Pos(e)));
    MulNonNegative(f * Pow(2, Pos(e)), Pow(10, Pos(-x)));
    (f * Pow(2, Pos(e))) * Pow(10, Pos(-x))
  }

  function ScaledDen(e: int, x: int): (d: nat)
    ensures d > 0
  {
    MulStrict(0, Pow(2, Pos(-e)), Pow(10, Pos(x)));
    Pow(2, Pos(-e)) * Pow(10, Pos(x))
  }

  /** f * 2^e is below 10^x. */
  predicate Below(f: nat, e: int, x: int) { ScaledNum(f, e, x) < ScaledDen(e, x) }

  /** The exact value, rounded to a whole number of units of 10^x. */
  function Rounded(f: nat, e: int, x: int): nat
  {
    RoundHalfEven(ScaledNum(f, e, x), ScaledDen(e, x))
  }

  /** A unit ten times smaller: ten times the numerator, or a tenth of the denominator. */
  lemma FinerByTen(f: nat, e: int, x: int)
    ensures x <= 0 ==> ScaledNum(f, e, x - 1) == 10 * ScaledNum(f, e, x) && ScaledDen(e, x - 1) == ScaledDen(e, x)
    ensures x > 0 ==> ScaledNum(f, e, x - 1) == ScaledNum(f, e, x) && ScaledDen(e, x) == 10 * ScaledDen(e, x - 1)
  {
    if x <= 0 {
      assert Pos(1 - x) == Pos(-x) + 1;
      MulSwap(f * Pow(2, Pos(e)), 10, Pow(10, Pos(-x)));
    } else {
      assert Pos(x) == Pos(x - 1) + 1;
      MulSwap(Pow(2, Pos(-e)), 10, Pow(10, Pos(x - 1)));
    }
  }

  /** Rounding in a unit ten times larger. */
  lemma CoarserByTen(f: nat, e: int, x: int)
    ensures RoundHalfEven(ScaledNum(f, e, x), 10 * ScaledDen(e, x)) == Rounded(f, e, x + 1)
  {
    FinerByTen(f, e, x + 1);
    if x + 1 <= 0 {
      RoundScale(ScaledNum(f, e, x + 1), ScaledDen(e, x + 1), 10);
    }
  }

  /** Scaling the numerator by 10^k is rounding in a unit 10^k times smaller. */
  lemma {:induction false} RoundedFiner(f: nat, e: int, x: int, k: nat)
    ensures ScaledNum(f, e, x) * Pow(10, k) >= 0
    ensures RoundHalfEven(ScaledNum(f, e, x) * Pow(10, k), ScaledDen(e, x)) == Rounded(f, e, x - k)
    decreases k
  {
    MulNonNegative(ScaledNum(f, e, x), Pow(10, k));
    if k > 0 {
      FinerByTen(f, e, x);
      RoundedFiner(f, e, x - 1, k - 1);
      RoundTenfold(ScaledNum(f, e, x), ScaledDen(e, x), Pow(10, k - 1), x > 0, ScaledNum(f, e, x - 1), ScaledDen(e, x - 1));
    }
  }

  lemma TenSwap(num: nat, p: nat)
    ensures num * (10 * p) == (num * p) * 10 == (10 * num) * p >= 0
  {
    MulNonNegative(num, p);
  }

  lemma RoundTenfold(num: nat, den: nat, p: nat, cut: bool, num1: nat, den1: nat)
    requires den > 0 && den1 > 0
    requires if cut then num1 == num && den == 10 * den1 else num1 == 10 * num && den1 == den
    ensures num * (10 * p) >= 0 && num1 * p >= 0
    ensures RoundHalfEven(num * (10 * p), den) == RoundHalfEven(num1 * p, den1)
  {
    TenSwap(num, p);
    if cut {
      RoundScale(num * p, den1, 10);
    }
  }

  /** A large binary exponent with a 62-bit significand is never a power of ten. */
  lemma NotAPowerOfTen(f: nat, e: nat, j: nat, m: nat)
    requires 0 < f < 0x4000_0000_0000_0000 && e >= 32
    ensures (f * Pow(2, e)) * Pow(10, j) != Pow(10, m)
  {
    MulStrict(0, f, Pow(2, e));
    if j > m {
      PowStrict(10, m, j);
      Exceeds(f * Pow(2, e), Pow(10, j), Pow(10, m));
    } else {
      var k := m - j;
      assert k + j == m;
      PowAdd(10, k, j);
      NotAPower(f, e, k);
      StillDiffers(f * Pow(2, e), Pow(10, k), Pow(10, j), Pow(10, m));
    }
  }

  lemma StillDiffers(v: nat, p: nat, k: nat, q: nat)
    requires v != p && k > 0 && q == p * k
    ensures v * k != q
  {
    SignOfScaled(v, p, k);
  }

  lemma Exceeds(v: nat, p: nat, q: nat)
    requires v > 0 && p > q
    ensures v * p > q
  {
    MulMonotone(1, v, p);
  }

  lemma NotAPower(f: nat, e: nat, k: nat)
    requires 0 < f < 0x4000_0000_0000_0000 && e >= 32
    ensures f * Pow(2, e) != Pow(10, k)
  {
    PowMulBase(2, 5, k);
    if e > k {
      TooManyTwos(f, e, k);
    } else {
      TooManyFives(f, e, k);
    }
  }

  lemma TooManyTwos(f: nat, e: nat, k: nat)
    requires e > k
    ensures f * Pow(2, e) != Pow(2, k) * Pow(5, k)
  {
    PowAdd(2, e - k, k);
    EvenPower(e - k);
    FiveIsOdd(k);
    EvenNotOdd(f, Pow(2, e - k), Pow(2, k), Pow(5, k));
  }

  lemma EvenNotOdd(f: nat, a: nat, q: nat, b: nat)
    requires a % 2 == 0 && b % 2 == 1 && q > 0
    ensures f * (a * q) != q * b
  {
    MulAssociate(f, a, q);
    EvenProduct(f, a);
    SignOfScaled(f * a, b, q);
  }

  lemma TooManyFives(f: nat, e: nat, k: nat)
    requires f < 0x4000_0000_0000_0000 && 32 <= e <= k
    ensures f * Pow(2, e) != Pow(2, k) * Pow(5, k)
  {
    if f * Pow(2, e) == Pow(2, k) * Pow(5, k) {
      PowAdd(2, k - e, e);
      AtLeastFactor(f, Pow(2, e), Pow(2, k - e), Pow(5, k));
      FiveTo32(k);
      assert false;
    }
  }

  lemma AtLeastFactor(f: nat, q: nat, p: nat, b: nat)
    requires q > 0 && p > 0 && f * q == (p * q) * b
    ensures f >= b
  {
    assert (p * q) * b == (p * b) * q;
    SignOfScaled(f, p * b, q);
    MulMonotone(1, p, b);
  }

  lemma EvenPower(k: nat)
    requires k > 0
    ensures Pow(2, k) % 2 == 0
  {
    var h := Pow(2, k - 1);
    assert Pow(2, k) == 2 * h;
  }

  lemma {:induction false} FiveIsOdd(k: nat)
    ensures Pow(5, k) % 2 == 1
  {
    if k > 0 {
      FiveIsOdd(k - 1);
    }
  }

  lemma FiveTo32(k: nat)
    requires k >= 32
    ensures Pow(5, k) >= 0x4000_0000_0000_0000
  {
    PowMonotone(5, 32, k);
    assert Pow(5, 8) == 390625;
    PowAdd(5, 8, 8);
    PowAdd(5, 16, 16);
  }
}
