/**
  The place of the first digit is exact: when the scaled value reaches 10^m, so does
  the true value, although the scaled one may have been rounded up.  A value that
  close below a power of ten would be a near miss between a double and that power,
  and there are none.
 */
module LeadingDigit {
  import opened Words
  import opened Powers
  import opened Decimal
  import opened BinaryValue
  import opened CachedPowerTable
  import opened CachedPowers
  import opened PowerGaps
  import opened WideMul
  import opened Scaling

  // ------------------------------------------------------ ties in the table

  /** A power of two between two others. */
  lemma Between(s: nat, t: nat)
    requires Pow(2, t) < 2 * Pow(2, s) < 8 * Pow(2, t)
    ensures Pow(2, s) == Pow(2, t) || Pow(2, s) == 2 * Pow(2, t)
  {
    if s < t {
      PowMonotone(2, s + 1, t);
    } else if s > t + 1 {
      PowMonotone(2, t + 2, s);
    }
  }

  lemma TwosNear60()
    ensures Pow(2, 53) == 0x20_0000_0000_0000 && Pow(2, 56) == 0x100_0000_0000_0000
    ensures Pow(2, 59) == 0x800_0000_0000_0000
  {
    TwoTo60();
    PowAdd(2, 53, 7);
    PowAdd(2, 56, 4);
    PowAdd(2, 59, 1);
    assert Pow(2, 7) == 128 && Pow(2, 4) == 16 && Pow(2, 1) == 2;
  }

  lemma TwosNear48()
    ensures Pow(2, 43) == 0x800_0000_0000 && Pow(2, 46) == 0x4000_0000_0000 && Pow(2, 49) == 0x2_0000_0000_0000
  {
    TwosNear60();
    PowAdd(2, 49, 4);
    PowAdd(2, 46, 7);
    PowAdd(2, 43, 3);
    assert Pow(2, 7) == 128 && Pow(2, 4) == 16 && Pow(2, 3) == 8;
  }

  lemma TwosNear32()
    ensures Pow(2, 33) == 0x2_0000_0000 && Pow(2, 36) == 0x10_0000_0000 && Pow(2, 39) == 0x80_0000_0000
  {
    TwoTo32();
    PowAdd(2, 32, 1);
    PowAdd(2, 32, 4);
    PowAdd(2, 32, 7);
    assert Pow(2, 7) == 128 && Pow(2, 4) == 16 && Pow(2, 1) == 2;
  }

  lemma TiesLow(m: nat, s: nat, v: nat)
    requires 1 <= m <= 3 && v == Pow(10, m) * Pow(2, s)
    requires 0x4000_0000_0000_0000 <= v < TWO64
    ensures IsTie(m, v)
  {
    assert Pow(10, 1) == 10 && Pow(10, 2) == 100 && Pow(10, 3) == 1000;
    TwosNear60();
    Between(s, if m == 1 then 59 else if m == 2 then 56 else 53);
  }

  lemma TiesMiddle(m: nat, s: nat, v: nat)
    requires 4 <= m <= 6 && v == Pow(10, m) * Pow(2, s)
    requires 0x4000_0000_0000_0000 <= v < TWO64
    ensures IsTie(m, v)
  {
    assert Pow(10, 4) == 10_000 && Pow(10, 5) == 100_000 && Pow(10, 6) == 1_000_000;
    TwosNear48();
    Between(s, if m == 4 then 49 else if m == 5 then 46 else 43);
  }

  lemma TiesHigh(m: nat, s: nat, v: nat)
    requires 7 <= m <= 9 && v == Pow(10, m) * Pow(2, s)
    requires 0x4000_0000_0000_0000 <= v < TWO64
    ensures IsTie(m, v)
  {
    assert Pow(10, 7) == 10_000_000 && Pow(10, 8) == 100_000_000 && Pow(10, 9) == 1_000_000_000;
    TwosNear32();
    Between(s, if m == 7 then 39 else if m == 8 then 36 else 33);
  }

  lemma OutOfRange(m: nat, s: nat, v: nat)
    requires 32 <= s <= 60 && v == Pow(10, m) * Pow(2, s)
    requires 0x4000_0000_0000_0000 <= v < TWO64
    ensures 1 <= m <= 9
  {
    TwoTo60();
    PowMonotone(2, s, 60);
    TwoTo32();
    PowMonotone(2, 32, s);
    assert Pow(10, 0) == 1;
    if m > 9 {
      TenTo10();
      PowMonotone(10, 10, m);
      MulBound(10_000_000_000, Pow(10, m), 0x1_0000_0000, Pow(2, s));
    }
  }

  lemma Ties(m: nat, s: nat, v: nat)
    requires 32 <= s <= 60 && v == Pow(10, m) * Pow(2, s)
    requires 0x4000_0000_0000_0000 <= v < TWO64
    ensures IsTie(m, v)
  {
    OutOfRange(m, s, v);
    if m <= 3 {
      TiesLow(m, s, v);
    } else if m <= 6 {
      TiesMiddle(m, s, v);
    } else {
      TiesHigh(m, s, v);
    }
  }

  // ---------------------------------------------- powers of ten that are doubles

  lemma SmallFives(x: nat)
    requires x <= 22
    ensures Pow(5, x) < 0x10_0000_0000_0000
  {
    PowMonotone(5, x, 22);
    assert Pow(5, 8) == 390625 && Pow(5, 6) == 15625;
    PowAdd(5, 8, 8);
    PowAdd(5, 16, 6);
  }

  /** Two multiples of a large unit cannot be as close as the error bound says. */
  lemma NoNearMiss(g: nat, h: nat, q: nat, v: nat)
    requires q > 0 && v >= 0x4000_0000_0000_0000 && g < 0x20_0000_0000_0000
    requires (g * q) * v > (h * q) * (v - 1)
    ensures g >= h
  {
    assert (g * q) * v == (g * v) * q && (h * q) * (v - 1) == (h * (v - 1)) * q;
    SignOfScaled(h * (v - 1), g * v, q);
    if g < h {
      assert g * (v - 1) == g * v - g;
      MulDistribute(g, 1, v - 1);
      MulMonotone(g + 1, h, v - 1);
      assert false;
    }
  }

  lemma DenTwosAndFives(e: int, x: nat)
    ensures ScaledDen(e, x) == Pow(5, x) * Pow(2, x + Pos(-e))
  {
    PowMulBase(2, 5, x);
    PowAdd(2, x, Pos(-e));
    Regroup(Pow(2, Pos(-e)), Pow(2, x), Pow(5, x));
  }

  lemma Regroup(p: int, q: int, r: int)
    ensures p * (q * r) == r * (q * p)
  {
    MulAssociate(p, q, r);
  }

  lemma EnoughTwos(five: nat, a: nat, b: nat)
    requires five < 0x10_0000_0000_0000 && 0x8000_0000_0000_0000 * Pow(2, b) < five * Pow(2, a)
    ensures a >= 11 + b
  {
    if a < 11 + b {
      PowMonotone(2, a, 11 + b);
      PowAdd(2, 11, b);
      assert Pow(2, 11) == 2048;
      MulBound(five, 0x10_0000_0000_0000, Pow(2, a), 2048 * Pow(2, b));
      assert false;
    }
  }

  lemma SplitUnit(five: nat, a: nat, b: nat)
    requires a >= 11 + b
    ensures five * Pow(2, a) == (five * Pow(2, a - 11 - b)) * (2048 * Pow(2, b))
  {
    PowAdd(2, a - 11 - b, 11 + b);
    PowAdd(2, 11, b);
    assert Pow(2, 11) == 2048;
    MulAssociate(five, Pow(2, a - 11 - b), 2048 * Pow(2, b));
  }

  /** A power of ten near a 64-bit significand times 2^e is a multiple of 2^(11 + e). */
  lemma TenSplit(x: nat, e: int) returns (h: nat)
    requires x <= 22 && 0x8000_0000_0000_0000 * Pow(2, Pos(e)) < ScaledDen(e, x)
    ensures ScaledDen(e, x) == h * (2048 * Pow(2, Pos(e)))
  {
    DenTwosAndFives(e, x);
    SmallFives(x);
    EnoughTwos(Pow(5, x), x + Pos(-e), Pos(e));
    SplitUnit(Pow(5, x), x + Pos(-e), Pos(e));
    MulNonNegative(Pow(5, x), Pow(2, x + Pos(-e) - 11 - Pos(e)));
    h := Pow(5, x) * Pow(2, x + Pos(-e) - 11 - Pos(e));
  }

  lemma NumSplit(g: nat, e: int, x: nat)
    requires g >= 0x10_0000_0000_0000
    ensures ScaledNum(2048 * g, e, x) == g * (2048 * Pow(2, Pos(e))) >= 0x8000_0000_0000_0000 * Pow(2, Pos(e))
  {
    assert Pos(0 - x) == 0 && Pow(10, 0) == 1;
    MulAssociate(g, 2048, Pow(2, Pos(e)));
    MulMonotone(0x8000_0000_0000_0000, 2048 * g, Pow(2, Pos(e)));
  }

  lemma DoubleReaches(g: nat, e: int, x: nat, v: nat)
    requires x <= 22 && 0x10_0000_0000_0000 <= g < 0x20_0000_0000_0000 && v >= 0x4000_0000_0000_0000
    requires ScaledNum(2048 * g, e, x) * v > ScaledDen(e, x) * (v - 1)
    ensures ScaledNum(2048 * g, e, x) >= ScaledDen(e, x)
  {
    NumSplit(g, e, x);
    if ScaledNum(2048 * g, e, x) < ScaledDen(e, x) {
      var h := TenSplit(x, e);
      NoNearMiss(g, h, 2048 * Pow(2, Pos(e)), v);
      MulMonotone(h, g, 2048 * Pow(2, Pos(e)));
      assert false;
    }
  }

  // ------------------------------------------------------------- the theorem

  /** The error bound, carried over to the exact ratio. */
  lemma RatioAbove(f: u64, e: int, power: Fp, k: int, v: nat, s: nat, m: nat)
    requires IsCachedPower(power, k) && v == Multiply(f, power.f) && s == -(e + power.e + 64)
    requires 0 < Pow(10, m) * Pow(2, s) <= v
    ensures
      var w := Pow(10, m) * Pow(2, s);
      ScaledNum(f, e, m - k) * w > ScaledDen(e, m - k) * (v - 1)
  {
    var num, den := PowerNum(k, power.e), PowerDen(k, power.e);
    var w, unit := Pow(10, m) * Pow(2, s), den * TWO64;
    ScalingError(f, power.f, v, num, den);
    TrueRatio(f, e, power, k, s, m);
    assert Pow(10, 0) == 1;
    assert TrueNum(f, k, power.e, m) == f * num && TrueDen(k, power.e, s, m) == w * unit;
    CancelUnit(f * num, ScaledDen(e, m - k), ScaledNum(f, e, m - k), w, unit, v);
  }

  lemma CancelUnit(t: int, d: nat, n: nat, w: nat, unit: nat, v: nat)
    requires unit > 0 && d > 0 && t * d == n * (w * unit) && t > v * unit - unit
    ensures n * w > d * (v - 1)
  {
    MulSubtract(v, 1, unit);
    MulStrict((v - 1) * unit, t, d);
    assert ((v - 1) * unit) * d == (d * (v - 1)) * unit;
    MulAssociate(n, w, unit);
    SignOfScaled(d * (v - 1), n * w, unit);
  }

  /** A scaled value that reaches 10^m comes from a true value that reaches it. */
  lemma Reaches(g: nat, e: int, power: Fp, k: int, v: u64, s: nat, m: nat)
    requires 0x10_0000_0000_0000 <= g < 0x20_0000_0000_0000
    requires IsCachedPower(power, k) && Untied(power.f, k)
    requires v == Multiply(2048 * g, power.f) && s == -(e + power.e + 64) && 32 <= s <= 60
    requires 0x4000_0000_0000_0000 <= v && 0 < Pow(10, m) * Pow(2, s) <= v
    ensures ScaledNum(2048 * g, e, m - k) >= ScaledDen(e, m - k)
  {
    if v == Pow(10, m) * Pow(2, s) {
      TieIsDouble(g, power.f, k, v, s, m);
    }
    ReachesUnlessTied(g, e, power, k, v, s, m);
  }

  lemma ReachesUnlessTied(g: nat, e: int, power: Fp, k: int, v: u64, s: nat, m: nat)
    requires 0x10_0000_0000_0000 <= g < 0x20_0000_0000_0000
    requires IsCachedPower(power, k) && v == Multiply(2048 * g, power.f) && s == -(e + power.e + 64)
    requires 0x4000_0000_0000_0000 <= v && 0 < Pow(10, m) * Pow(2, s) <= v
    requires v == Pow(10, m) * Pow(2, s) ==> 0 <= m - k <= 22
    ensures ScaledNum(2048 * g, e, m - k) >= ScaledDen(e, m - k)
  {
    RatioAbove(2048 * g, e, power, k, v, s, m);
    if v > Pow(10, m) * Pow(2, s) {
      StrictlyAbove(ScaledNum(2048 * g, e, m - k), ScaledDen(e, m - k), Pow(10, m) * Pow(2, s), v);
    } else {
      DoubleReaches(g, e, m - k, v);
    }
  }

  lemma StrictlyAbove(n: nat, d: nat, w: nat, v: nat)
    requires 0 < w < v && n * w > d * (v - 1)
    ensures n >= d
  {
    MulMonotone(w, v - 1, d);
    SignOfScaled(d, n, w);
  }

  lemma TieIsDouble(g: nat, c: u64, k: int, v: u64, s: nat, m: nat)
    requires g < 0x20_0000_0000_0000 && 32 <= s <= 60 && Untied(c, k)
    requires v == Multiply(2048 * g, c) == Pow(10, m) * Pow(2, s) && v >= 0x4000_0000_0000_0000
    ensures 0 <= m - k <= 22
  {
    Ties(m, s, v);
    MulNonNegative(2048 * g, c);
    RoundingError((2048 * g) * c, v);
    assert !Misses(g, c, v);
  }
}
