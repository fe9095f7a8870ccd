/**
  Where the fast generator gets stuck at the first digit: values half-way between two
  digits, or closer to that than any error bound could tell.
 */
module Halfway {
  import opened Words
  import opened Powers
  import opened Decimal
  import opened BinaryValue
  import opened CachedPowerTable
  import opened CachedPowers
  import opened WideMul
  import opened Grisu
  import opened Scaling

  /** The value is exactly between two whole multiples of 10^x. */
  ghost predicate HalfwayAt(f: nat, e: int, x: int)
  {
    2 * (ScaledNum(f, e, x) % ScaledDen(e, x)) == ScaledDen(e, x)
  }

  /** It is that to within 2^-56 units. */
  ghost predicate NearlyHalfway(f: nat, e: int, x: int)
  {
    exists d: nat :: CloseToHalf(ScaledNum(f, e, x), ScaledDen(e, x), d)
  }

  ghost predicate CloseToHalf(num: nat, den: nat, d: nat)
  {
    Abs(2 * num - (2 * d + 1) * den) * 0x100_0000_0000_0000 <= den
  }

  /** The first digit's remainder, against the exact value. */
  lemma StuckIsHalfway(f: nat, e: int, shift: nat, g: u64, power: Fp, k: int, v: u64, s: nat, m: nat)
    requires g == f * Pow(2, shift) && IsCachedPower(power, k)
    requires v == Multiply(g, power.f) && s == -(e - shift + power.e + 64)
    requires v >= 0x4000_0000_0000_0000 && 0 < Pow(10, m) * Pow(2, s) <= v < 10 * (Pow(10, m) * Pow(2, s))
    ensures
      var first := Pow(10, m) * Pow(2, s);
      && (HalfwayAt(f, e, m - k) ==> NearHalf(first, v % first, 1))
      && (NearHalf(first, v % first, 1) ==> NearlyHalfway(f, e, m - k))
  {
    var first, unit := Pow(10, m) * Pow(2, s), PowerDen(k, power.e) * TWO64;
    var t := TrueNum(g, k, power.e, m);
    WithinUnit(g, power, k, v, m);
    ExactRatio(f, e, shift, g, power, k, s, m);
    HalfwayRatio(t, first, unit, ScaledNum(f, e, m - k), ScaledDen(e, m - k), v);
  }

  lemma WithinUnit(g: u64, power: Fp, k: int, v: u64, m: nat)
    requires IsCachedPower(power, k) && v == Multiply(g, power.f)
    ensures
      var unit := PowerDen(k, power.e) * TWO64;
      Abs(TrueNum(g, k, power.e, m) - v * unit) < unit
  {
    assert Pow(10, 0) == 1;
    ScalingError(g, power.f, v, PowerNum(k, power.e), PowerDen(k, power.e));
  }

  lemma ExactRatio(f: nat, e: int, shift: nat, g: u64, power: Fp, k: int, s: nat, m: nat)
    requires g == f * Pow(2, shift) && IsCachedPower(power, k) && s == -(e - shift + power.e + 64)
    ensures TrueNum(g, k, power.e, m) * ScaledDen(e, m - k) == ScaledNum(f, e, m - k) * TrueDen(k, power.e, s, m)
  {
    TrueRatio(g, e - shift, power, k, s, m);
    Rebased(f, e, shift, g, m - k);
    ChainRatio(TrueNum(g, k, power.e, m), TrueDen(k, power.e, s, m),
               ScaledNum(g, e - shift, m - k), ScaledDen(e - shift, m - k),
               ScaledNum(f, e, m - k), ScaledDen(e, m - k));
  }

  lemma ChainRatio(a: nat, b: nat, c: nat, d: nat, g: nat, h: nat)
    requires d > 0 && a * d == c * b && c * h == g * d
    ensures a * h == g * b
  {
    assert (a * h) * d == (c * h) * b;
    assert (g * b) * d == (g * d) * b;
    SignOfScaled(a * h, g * b, d);
  }

  lemma HalfwayRatio(t: nat, first: nat, unit: nat, n: nat, d: nat, v: nat)
    requires d > 0 && unit > 0 && t * d == n * (first * unit) && Abs(t - v * unit) < unit
    requires first >= 0x400_0000_0000_0000
    ensures 2 * (n % d) == d ==> NearHalf(first, v % first, 1)
    ensures NearHalf(first, v % first, 1) ==> exists q: nat :: CloseToHalf(n, d, q)
  {
    if 2 * (n % d) == d {
      ExactTie(t, first, unit, n, d, v);
    }
    if NearHalf(first, v % first, 1) {
      OpenIsClose(t, first, unit, n, d, v);
    }
  }

  lemma ExactTie(t: nat, first: nat, unit: nat, n: nat, d: nat, v: nat)
    requires d > 0 && unit > 0 && t * d == n * (first * unit) && Abs(t - v * unit) < unit
    requires 2 < first && 2 * (n % d) == d
    ensures NearHalf(first, v % first, 1)
  {
    ExactTieAt(t, first, unit, n, d, v, n / d);
  }

  lemma ExactTieAt(t: nat, first: nat, unit: nat, n: nat, d: nat, v: nat, q: nat)
    requires d > 0 && unit > 0 && t * d == n * (first * unit) && Abs(t - v * unit) < unit
    requires 2 < first && 2 * n == (2 * q + 1) * d
    ensures NearHalf(first, v % first, 1)
  {
    HalfTotal(t, d, n, first * unit, 2 * q + 1);
    MulAssociate(2 * q + 1, first, unit);
    NearInUnits(2 * t, (2 * q + 1) * first, 2 * v, unit);
    RemainderOfOdd(v, first, q);
  }

  lemma RemainderOfOdd(v: nat, first: nat, q: nat)
    requires 2 < first && -2 < (2 * q + 1) * first - 2 * v < 2
    ensures NearHalf(first, v % first, 1)
  {
    MulDistribute(2 * q, 1, first);
    MulAssociate(2, q, first);
    DivModUnique(v, first, q, v - q * first);
  }

  lemma HalfTotal(t: nat, d: nat, n: nat, p: nat, odd: nat)
    requires d > 0 && t * d == n * p && 2 * n == odd * d
    ensures 2 * t == odd * p
  {
    assert (2 * t) * d == (2 * n) * p;
    assert (odd * d) * p == (odd * p) * d;
    SignOfScaled(2 * t, odd * p, d);
  }

  lemma NearInUnits(x: int, y: int, w: int, unit: nat)
    requires x == y * unit && Abs(x - w * unit) < 2 * unit
    ensures -2 < y - w < 2
  {
    MulSubtract(y, w, unit);
    if y - w >= 2 {
      MulMonotone(2, y - w, unit);
      assert false;
    }
    if y - w <= -2 {
      MulMonotone(y - w, -2, unit);
      assert false;
    }
  }

  lemma OpenIsClose(t: nat, first: nat, unit: nat, n: nat, d: nat, v: nat)
    requires d > 0 && unit > 0 && t * d == n * (first * unit) && Abs(t - v * unit) < unit
    requires 0x400_0000_0000_0000 <= first && NearHalf(first, v % first, 1)
    ensures exists q: nat :: CloseToHalf(n, d, q)
  {
    var q := v / first;
    var odd := 2 * q + 1;
    assert v == q * first + v % first;
    assert Abs(2 * v - odd * first) < 2 by {
      MulDistribute(2 * q, 1, first);
      MulAssociate(2, q, first);
    }
    TieGap(t, v, odd * first, unit);
    MulAssociate(odd, first, unit);
    GapRatio(t, d, n, first, unit, odd);
    assert CloseToHalf(n, d, q);
  }

  lemma TieGap(t: int, v: int, h: int, unit: nat)
    requires Abs(t - v * unit) < unit && Abs(2 * v - h) < 2
    ensures Abs(2 * t - h * unit) < 4 * unit
  {
    MulSubtract(2 * v, h, unit);
    MulAssociate(2, v, unit);
    AbsProduct(2 * v - h, unit);
    MulMonotone(Abs(2 * v - h), 1, unit);
  }

  lemma GapRatio(t: nat, d: nat, n: nat, first: nat, unit: nat, odd: nat)
    requires d > 0 && unit > 0 && t * d == n * (first * unit)
    requires Abs(2 * t - odd * (first * unit)) < 4 * unit && 0x400_0000_0000_0000 <= first
    ensures Abs(2 * n - odd * d) * 0x100_0000_0000_0000 <= d
  {
    MulNonNegative(first, unit);
    CrossGap(t, d, n, first * unit, odd);
    GapBudget(Abs(2 * n - odd * d), Abs(2 * t - odd * (first * unit)), d, first, unit);
  }

  lemma CrossGap(t: nat, d: nat, n: nat, p: nat, odd: nat)
    requires t * d == n * p
    ensures Abs(2 * t - odd * p) * d == Abs(2 * n - odd * d) * p
  {
    CrossDifference(t, d, n, p, odd);
    AbsProduct(2 * t - odd * p, d);
    AbsProduct(2 * n - odd * d, p);
  }

  lemma CrossDifference(t: nat, d: nat, n: nat, p: nat, odd: nat)
    requires t * d == n * p
    ensures (2 * t - odd * p) * d == (2 * n - odd * d) * p
  {
    MulSubtract(2 * t, odd * p, d);
    MulSubtract(2 * n, odd * d, p);
    assert (odd * p) * d == (odd * d) * p;
    MulAssociate(2, t, d);
    MulAssociate(2, n, p);
  }

  lemma GapBudget(gap: nat, g: nat, d: nat, first: nat, unit: nat)
    requires unit > 0 && g * d == gap * (first * unit) && g < 4 * unit && 0x400_0000_0000_0000 <= first
    ensures gap * 0x100_0000_0000_0000 <= d
  {
    MulMonotone(g, 4 * unit, d);
    assert (4 * unit) * d == (4 * d) * unit;
    MulAssociate(gap, first, unit);
    SignOfScaled(4 * d, gap * first, unit);
    MulMonotone(0x400_0000_0000_0000, first, gap);
  }
}
