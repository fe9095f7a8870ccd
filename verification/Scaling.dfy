/**
  From the scaled value that the fast generator works on back to the exact value:
  the product with a cached power is within one unit of the true scaled value, so
  digits that are safe for the whole interval are the correctly rounded ones.
 */
module Scaling {
  import opened Words
  import opened Powers
  import opened Decimal
  import opened BinaryValue
  import opened CachedPowerTable
  import opened CachedPowers
  import opened WideMul
  import opened Grisu

  // ------------------------------------------------- products of 2s and 10s

  ghost function Mixed(a: nat, b: nat): (m: nat)
    ensures m > 0
  {
    MulStrict(0, Pow(2, a), Pow(10, b));
    Pow(2, a) * Pow(10, b)
  }

  lemma MixedMul(a: nat, b: nat, c: nat, d: nat)
    ensures Mixed(a, b) * Mixed(c, d) == Mixed(a + c, b + d)
  {
    PowAdd(2, a, c);
    PowAdd(10, b, d);
    MulExchange(Pow(2, a), Pow(10, b), Pow(2, c), Pow(10, d));
  }

  /** Equal totals of 2s and 10s on both sides make equal ratios. */
  lemma MixedRatio(f: nat, a: nat, b: nat, c: nat, d: nat, a': nat, b': nat, c': nat, d': nat)
    requires a + c == a' + c' && b + d == b' + d'
    ensures (f * Mixed(a, b)) * Mixed(c, d) == (f * Mixed(a', b')) * Mixed(c', d')
  {
    MixedMul(a, b, c, d);
    MixedMul(a', b', c', d');
    MulAssociate(f, Mixed(a, b), Mixed(c, d));
    MulAssociate(f, Mixed(a', b'), Mixed(c', d'));
  }

  // --------------------------------------------------------- scaling error

  /** The rounded product is less than one unit from the true scaled value. */
  lemma ScalingError(f: u64, c: u64, v: nat, num: nat, den: nat)
    requires v == Multiply(f, c) && den > 0 && Approximates(c, num, den)
    ensures Abs(f * num - v * (den * TWO64)) < den * TWO64
  {
    var p := f * c;
    MulNonNegative(f, c);
    RoundingError(p, v);
    SplitError(f, c, v, num, den);
    MulMonotone(2 * Abs(num - c * den), den, f);
    MulMonotone(f, 0xFFFF_FFFF_FFFF_FFFF, den);
    MulMonotone(2 * Abs(p - v * TWO64), TWO64, den);
  }

  lemma RoundingError(p: nat, v: nat)
    requires v == (p + 0x8000_0000_0000_0000) / TWO64
    ensures 2 * Abs(p - v * TWO64) <= TWO64
  {
  }

  lemma SplitError(f: nat, c: nat, v: nat, num: nat, den: nat)
    ensures 2 * Abs(f * num - v * (den * TWO64))
         <= (2 * Abs(num - c * den)) * f + (2 * Abs(f * c - v * TWO64)) * den
  {
    Swapped(c, den, f);
    Telescope(num, c * den, f * c, v * TWO64, f, den);
    Swapped(v, den, TWO64);
    TriangleBound(f * num, v * (den * TWO64), num - c * den, f, f * c - v * TWO64, den);
  }

  lemma Swapped(a: int, b: int, c: int)
    ensures (a * b) * c == (c * a) * b == (a * c) * b == a * (b * c)
  {
  }

  lemma TriangleBound(x: int, y: int, d1: int, k1: nat, d2: int, k2: nat)
    requires x - y == d1 * k1 + d2 * k2
    ensures 2 * Abs(x - y) <= (2 * Abs(d1)) * k1 + (2 * Abs(d2)) * k2
  {
    AbsProduct(d1, k1);
    AbsProduct(d2, k2);
  }

  // ------------------------------------------------------------- exact ratio

  /** The true scaled value, times 10^j when the last place is 10^-j, ... */
  ghost function TrueNum(f: nat, k: int, e: int, exp: int): nat
  {
    MulNonNegative(f, PowerNum(k, e));
    MulNonNegative(f * PowerNum(k, e), Pow(10, Pos(-exp)));
    (f * PowerNum(k, e)) * Pow(10, Pos(-exp))
  }

  /** ...over the unit of that place. */
  ghost function TrueDen(k: int, e: int, s: nat, exp: int): (d: nat)
    ensures d > 0
  {
    MulStrict(0, Pow(10, Pos(exp)), Pow(2, s));
    MulStrict(0, Pow(10, Pos(exp)) * Pow(2, s), PowerDen(k, e) * TWO64);
    (Pow(10, Pos(exp)) * Pow(2, s)) * (PowerDen(k, e) * TWO64)
  }

  /** The cached power as a ratio of products of 2s and 10s. */
  lemma PowerMixed(k: int, e: int) returns (n2: nat, n10: nat, d2: nat, d10: nat)
    requires (k >= 0 ==> e >= -50) && (k < 0 ==> e <= -77)
    ensures PowerNum(k, e) == Mixed(n2, n10) && PowerDen(k, e) == Mixed(d2, d10)
    ensures n2 - d2 == -e && n10 - d10 == k
  {
    if k < 0 {
      n2, n10, d2, d10 := -e, 0, 0, -k;
    } else {
      n2, n10, d2, d10 := 64, k, e + 64, 0;
      TwoTo64();
    }
  }

  lemma NumMixed(f: nat, e: int, x: int)
    ensures ScaledNum(f, e, x) == f * Mixed(Pos(e), Pos(-x)) && ScaledDen(e, x) == Mixed(Pos(-e), Pos(x))
  {
    MulAssociate(f, Pow(2, Pos(e)), Pow(10, Pos(-x)));
  }

  lemma TrueNumMixed(f: nat, k: int, e: int, exp: int, n2: nat, n10: nat)
    requires PowerNum(k, e) == Mixed(n2, n10)
    ensures TrueNum(f, k, e, exp) == f * Mixed(n2, n10 + Pos(-exp))
  {
    MixedMul(n2, n10, 0, Pos(-exp));
    MulAssociate(f, Mixed(n2, n10), Pow(10, Pos(-exp)));
  }

  lemma TrueDenMixed(k: int, e: int, s: nat, exp: int, d2: nat, d10: nat)
    requires PowerDen(k, e) == Mixed(d2, d10)
    ensures TrueDen(k, e, s, exp) == Mixed(s + d2 + 64, Pos(exp) + d10)
  {
    TwoTo64();
    MixedMul(d2, d10, 64, 0);
    MixedMul(s, Pos(exp), d2 + 64, d10);
  }

  /** It is the exact value measured in units of 10^(exp - k). */
  lemma TrueRatio(f: nat, e: int, power: Fp, k: int, s: nat, exp: int)
    requires IsCachedPower(power, k) && s == -(e + power.e + 64)
    ensures TrueNum(f, k, power.e, exp) * ScaledDen(e, exp - k)
         == ScaledNum(f, e, exp - k) * TrueDen(k, power.e, s, exp)
  {
    var n2, n10, d2, d10 := PowerMixed(k, power.e);
    TrueNumMixed(f, k, power.e, exp, n2, n10);
    TrueDenMixed(k, power.e, s, exp, d2, d10);
    var x := exp - k;
    NumMixed(f, e, x);
    MixedRatio(f, n2, n10 + Pos(-exp), Pos(-e), Pos(x), Pos(e), Pos(-x), s + d2 + 64, Pos(exp) + d10);
  }

  // --------------------------------------------------------------- rounding

  lemma RoundNearest(num: nat, den: nat, m: int)
    requires den > 0 && 2 * Abs(num - m * den) < den
    ensures m >= 0 && RoundHalfEven(num, den) == m
  {
    if m < 0 {
      MulMonotone(m, -1, den);
      assert false;
    }
    if num >= m * den {
      RoundFromDivision(num, den, m, num - m * den);
    } else {
      if m == 0 {
        assert false;
      }
      MulSubtract(m, 1, den);
      RoundFromDivision(num, den, m - 1, num - (m - 1) * den);
    }
  }

  /** Near for the whole interval is near for the true value. */
  lemma NearTrue(x: nat, v: nat, unit: nat, t: nat, divisor: nat, m: int)
    requires Abs(x - v * unit) < unit && t > 0 && SafelyNear(v * t, divisor, t, m)
    ensures 2 * Abs(x * t - m * (divisor * unit)) < divisor * unit
  {
    Swapped(v, unit, t);
    Telescope(x, v * unit, v * t, m * divisor, t, unit);
    MulAssociate(m, divisor, unit);
    TriangleBound(x * t, m * (divisor * unit), x - v * unit, t, v * t - m * divisor, unit);
    NearBudget(Abs(x - v * unit), Abs(v * t - m * divisor), t, divisor, unit);
  }

  lemma NearBudget(d1: nat, d2: nat, t: nat, divisor: nat, unit: nat)
    requires d1 < unit && t > 0 && 2 * d2 + 2 * t <= divisor
    ensures (2 * d1) * t + (2 * d2) * unit < divisor * unit
  {
    MulStrict(2 * d1, 2 * unit, t);
    MulMonotone(2 * d2 + 2 * t, divisor, unit);
    MulDistribute(2 * d2, 2 * t, unit);
    assert (2 * unit) * t == (2 * t) * unit;
  }

  /** Digits delivered by the fast generator are the exact value, correctly rounded. */
  lemma DeliveredIsRounded(f: u64, e: int, power: Fp, k: int, v: nat, s: nat, exp: int, m: int)
    requires IsCachedPower(power, k) && v == Multiply(f, power.f) && s == -(e + power.e + 64)
    requires SafelyNear(v * Pow(10, Pos(-exp)), Pow(10, Pos(exp)) * Pow(2, s), Pow(10, Pos(-exp)), m)
    ensures m >= 0 && Rounded(f, e, exp - k) == m
  {
    var num, den := PowerNum(k, power.e), PowerDen(k, power.e);
    ScalingError(f, power.f, v, num, den);
    MulNonNegative(f, num);
    NearTrue(f * num, v, den * TWO64, Pow(10, Pos(-exp)), Pow(10, Pos(exp)) * Pow(2, s), m);
    RoundNearest(TrueNum(f, k, power.e, exp), TrueDen(k, power.e, s, exp), m);
    TrueRatio(f, e, power, k, s, exp);
    RoundSameRatio(TrueNum(f, k, power.e, exp), TrueDen(k, power.e, s, exp),
                   ScaledNum(f, e, exp - k), ScaledDen(e, exp - k));
  }

  /** A scaled value with an integral part below 10^count is below 10^(count - k). */
  lemma BelowPower(f: u64, e: int, power: Fp, k: int, v: nat, s: nat, count: nat)
    requires IsCachedPower(power, k) && v == Multiply(f, power.f) && s == -(e + power.e + 64)
    requires v < Pow(10, count) * Pow(2, s)
    ensures Below(f, e, count - k)
  {
    var num, den := PowerNum(k, power.e), PowerDen(k, power.e);
    ScalingError(f, power.f, v, num, den);
    assert Pow(10, 0) == 1;
    LessThanUnits(f * num, v, den * TWO64, Pow(10, count) * Pow(2, s));
    TrueRatio(f, e, power, k, s, count);
    SmallerRatio(TrueNum(f, k, power.e, count), TrueDen(k, power.e, s, count),
                 ScaledNum(f, e, count - k), ScaledDen(e, count - k));
  }

  lemma LessThanUnits(t: int, v: nat, unit: nat, w: nat)
    requires Abs(t - v * unit) < unit && v < w
    ensures t < w * unit
  {
    MulMonotone(v + 1, w, unit);
    MulDistribute(v, 1, unit);
  }

  lemma SmallerRatio(a: nat, b: nat, c: nat, d: nat)
    requires a < b && d > 0 && a * d == c * b
    ensures c < d
  {
    MulStrict(a, b, d);
    SignOfScaled(c, d, b);
  }

  /** Moving factors of two between significand and exponent changes no ratio. */
  lemma Rebased(f: nat, e: int, q: nat, g: nat, x: int)
    requires g == f * Pow(2, q)
    ensures ScaledNum(g, e - q, x) * ScaledDen(e, x) == ScaledNum(f, e, x) * ScaledDen(e - q, x)
  {
    NumMixed(f, e, x);
    NumMixed(g, e - q, x);
    ShiftedMixed(f, q, g, Pos(e - q), Pos(-x));
    MixedRatio(f, q + Pos(e - q), Pos(-x), Pos(-e), Pos(x), Pos(e), Pos(-x), Pos(q - e), Pos(x));
  }

  lemma ShiftedMixed(f: nat, q: nat, g: nat, a: nat, b: nat)
    requires g == f * Pow(2, q)
    ensures g * Mixed(a, b) == f * Mixed(q + a, b)
  {
    MixedMul(q, 0, a, b);
    MulAssociate(f, Pow(2, q), Mixed(a, b));
  }
}
