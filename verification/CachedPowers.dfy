/**
  Selecting a cached power of ten, and how good an approximation it is.
 */
module CachedPowers {
  import opened Words
  import opened Powers
  import opened BinaryValue
  import opened CachedPowerTable
  import opened PowerGaps

  // ------------------------------------------------------------- enclosures

  const SLACK: nat := 0x1_0000_0000_0000_0000_0000_0000_0000

  /** num / den is wide to within a relative error of steps / 2^112. */
  ghost predicate Encloses(wide: nat, num: nat, den: nat, steps: nat)
  {
    Abs(wide * den - num) * SLACK <= steps * (wide * den)
  }

  /** Scaling both sides, with the wide value cut off again, costs one step. */
  lemma EncloseStep(wide: nat, num: nat, den: nat, steps: nat, next: nat, scale: nat, unit: nat)
    requires Encloses(wide, num, den, steps) && Follows(wide, next, scale, unit)
    requires next >= 0x8000_0000_0000_0000_0000_0000_0000_0000 && steps <= 100
    ensures Encloses(next, num * scale, den * unit, steps + 1)
  {
    var gap, err := Abs(next * unit - wide * scale), Abs(wide * den - num);
    StepError(next, unit, wide, scale, num, den);
    CutBound(next, unit, wide * scale, den, gap);
    ErrorScale(err, scale, steps, wide, den);
    StepBudget(Abs(next * (den * unit) - num * scale), gap * den, err * scale, next * (den * unit), unit * den,
               (wide * scale) * den, steps);
  }

  lemma CutBound(next: nat, unit: nat, b: nat, den: nat, gap: nat)
    requires gap == Abs(next * unit - b) && gap <= unit
    requires next >= 0x8000_0000_0000_0000_0000_0000_0000_0000
    ensures 0 <= gap * den <= unit * den
    ensures 0x8000_0000_0000_0000_0000_0000_0000_0000 * (unit * den) <= next * (den * unit)
    ensures b * den <= next * (den * unit) + gap * den
  {
    MulNonNegative(gap, den);
    MulMonotone(gap, unit, den);
    MulMonotone(0x8000_0000_0000_0000_0000_0000_0000_0000, next, unit * den);
    MulAssociate(next, unit, den);
    MulMonotone(b, next * unit + gap, den);
    MulDistribute(next * unit, gap, den);
  }

  lemma StepError(next: nat, unit: nat, wide: nat, scale: nat, num: nat, den: nat)
    ensures Abs(next * (den * unit) - num * scale)
         <= Abs(next * unit - wide * scale) * den + Abs(wide * den - num) * scale
    ensures next * (den * unit) == (next * unit) * den
  {
    var a, b, c := next * unit, wide * scale, wide * den;
    assert next * (den * unit) == a * den;
    assert b * den == c * scale;
    Telescope(a, b, c, num, den, scale);
    AbsProduct(a - b, den);
    AbsProduct(c - num, scale);
  }

  lemma Telescope(a: int, b: int, c: int, num: int, den: int, scale: int)
    requires b * den == c * scale
    ensures a * den - num * scale == (a - b) * den + (c - num) * scale
  {
    MulSubtract(a, b, den);
    MulSubtract(c, num, scale);
  }

  lemma AbsProduct(x: int, k: nat)
    ensures Abs(x * k) == Abs(x) * k
  {
  }

  lemma ErrorScale(err: nat, scale: nat, steps: nat, wide: nat, den: nat)
    requires err * SLACK <= steps * (wide * den)
    ensures (err * scale) * SLACK <= steps * ((wide * scale) * den)
  {
    MulMonotone(err * SLACK, steps * (wide * den), scale);
    assert (err * SLACK) * scale == (err * scale) * SLACK;
    assert (steps * (wide * den)) * scale == steps * ((wide * scale) * den);
  }

  lemma StepBudget(total: nat, cut: nat, carried: nat, base: nat, small: nat, b: nat, steps: nat)
    requires total <= cut + carried && cut <= small && steps <= 100
    requires 0x8000_0000_0000_0000_0000_0000_0000_0000 * small <= base
    requires b <= base + cut && carried * SLACK <= steps * b
    ensures total * SLACK <= (steps + 1) * base
  {
    MulMonotone(b, base + small, steps);
    MulMonotone(steps, 100, small);
    MulDistribute(steps, 1, base);
  }

  lemma GapIsPower(d: int)
    requires Gap(d) > 0
    ensures d >= 26 && Pow(2, d) == Gap(d)
  {
    TwoTo16();
    PowAdd(2, 16, 10);
    assert Pow(2, 10) == 1024;
    assert Pow(2, 27) == 2 * Pow(2, 26);
  }

  lemma TenTo8()
    ensures Pow(10, 8) == 100_000_000
  {
  }

  lemma StepUp(wide: nat, next: nat, k: nat, h: nat, d: int, steps: nat)
    requires Encloses(wide, Pow(10, k) * TWO128, Pow(2, h), steps) && steps <= 100
    requires Follows(wide, next, 100_000_000, Gap(d)) && next >= 0x8000_0000_0000_0000_0000_0000_0000_0000
    ensures d >= 26 && Encloses(next, Pow(10, k + 8) * TWO128, Pow(2, h + d), steps + 1)
  {
    GapIsPower(d);
    EncloseStep(wide, Pow(10, k) * TWO128, Pow(2, h), steps, next, 100_000_000, Gap(d));
    PowAdd(2, h, d);
    TenTo8();
    PowAdd(10, k, 8);
  }

  lemma StepDown(wide: nat, next: nat, n: nat, g: nat, d: int, steps: nat)
    requires Encloses(wide, Pow(2, g), Pow(10, n), steps) && steps <= 100
    requires Gap(d) > 0 && Follows(wide, next, Gap(d), 100_000_000)
    requires next >= 0x8000_0000_0000_0000_0000_0000_0000_0000
    ensures d >= 26 && Encloses(next, Pow(2, g + d), Pow(10, n + 8), steps + 1)
  {
    GapIsPower(d);
    EncloseStep(wide, Pow(2, g), Pow(10, n), steps, next, Gap(d), 100_000_000);
    PowAdd(2, g, d);
    TenTo8();
    PowAdd(10, n, 8);
  }

  /** Any sequence of 128-bit values and exponents that follow each other upwards... */
  lemma {:induction false} ChainUp(e: nat -> int, w: nat -> nat, n: nat)
    requires n <= 42 && e(0) == -50 && w(0) == 0x9c400000_00000000_00000000_00000000
    requires forall j: nat :: j < n ==> FollowsUp(e(j), w(j), e(j + 1), w(j + 1))
    ensures e(n) >= -50
    ensures Encloses(w(n), Pow(10, 8 * n + 4) * TWO128, Pow(2, e(n) + 64), n + 1)
  {
    if n == 0 {
      UpBase();
    } else {
      ChainUp(e, w, n - 1);
      assert FollowsUp(e(n - 1), w(n - 1), e(n), w(n));
      StepUp(w(n - 1), w(n), 8 * n - 4, e(n - 1) + 64, e(n) - e(n - 1), n);
    }
  }

  predicate FollowsUp(e0: int, w0: nat, e1: int, w1: nat)
  {
    && w1 >= 0x8000_0000_0000_0000_0000_0000_0000_0000
    && Follows(w0, w1, 100_000_000, Gap(e1 - e0))
  }

  lemma UpBase()
    ensures Encloses(0x9c400000_00000000_00000000_00000000, Pow(10, 4) * TWO128, Pow(2, 14), 1)
  {
    assert Pow(10, 4) == 10_000;
    TwoTo16();
    assert Pow(2, 16) == 2 * Pow(2, 15);
  }

  /** ...or downwards encloses the powers of ten. */
  lemma {:induction false} ChainDown(e: nat -> int, w: nat -> nat, n: nat)
    requires n <= 43 && e(0) == -77 && w(0) == 0xd1b71758_e219652b_d3c36113_404ea4a8
    requires forall j: nat :: j < n ==> FollowsDown(e(j), w(j), e(j + 1), w(j + 1))
    ensures e(n) <= -77
    ensures Encloses(w(n), Pow(2, 64 - e(n)), Pow(10, 8 * n + 4), n + 1)
  {
    if n == 0 {
      DownBase();
    } else {
      ChainDown(e, w, n - 1);
      assert FollowsDown(e(n - 1), w(n - 1), e(n), w(n));
      StepDown(w(n - 1), w(n), 8 * n - 4, 64 - e(n - 1), e(n - 1) - e(n), n);
    }
  }

  predicate FollowsDown(e0: int, w0: nat, e1: int, w1: nat)
  {
    && w1 >= 0x8000_0000_0000_0000_0000_0000_0000_0000
    && Gap(e0 - e1) > 0 && Follows(w0, w1, Gap(e0 - e1), 100_000_000)
  }

  lemma DownBase()
    ensures Encloses(0xd1b71758_e219652b_d3c36113_404ea4a8, Pow(2, 141), Pow(10, 4), 1)
  {
    assert Pow(10, 4) == 10_000;
    TwoTo64();
    PowAdd(2, 64, 64);
    PowAdd(2, 128, 13);
    assert Pow(2, 13) == 8192;
  }

  function UpExponent(j: nat): int { if j < 43 then Entry(44 + j).e else 0 }
  function UpWide(j: nat): nat { if j < 43 then Wide(44 + j) else 0 }
  function DownExponent(j: nat): int { if j < 44 then Entry(43 - j).e else 0 }
  function DownWide(j: nat): nat { if j < 44 then Wide(43 - j) else 0 }

  lemma UpFollows(j: nat)
    requires j < 42
    ensures FollowsUp(UpExponent(j), UpWide(j), UpExponent(j + 1), UpWide(j + 1))
  {
    TableAccurate(45 + j);
  }

  lemma DownFollows(j: nat)
    requires j < 43
    ensures FollowsDown(DownExponent(j), DownWide(j), DownExponent(j + 1), DownWide(j + 1))
  {
    var i := 42 - j;
    TableAccurate(i);
    assert i + 1 == 43 - j;
  }

  // --------------------------------------------------------------- accuracy

  /** c is within half a unit of num / den. */
  ghost predicate Approximates(c: nat, num: nat, den: nat)
  {
    2 * Abs(c * den - num) <= den
  }

  /** 10^k / 2^e == PowerNum(k, e) / PowerDen(k, e), for the exponents in the table. */
  ghost function PowerNum(k: int, e: int): nat
  {
    if k < 0 then Pow(2, Pos(-e)) else Pow(10, k) * TWO64
  }

  ghost function PowerDen(k: int, e: int): (d: nat)
    ensures d > 0
  {
    if k < 0 then Pow(10, -k) else Pow(2, Pos(e + 64))
  }

  lemma RoundedFromWide(c: nat, wide: nat, num: nat, den: nat, steps: nat)
    requires Encloses(wide, TWO64 * num, den, steps) && steps <= 44 && CutFrom(c, wide)
    ensures Approximates(c, num, den)
  {
    WideErrorBound(Abs(wide * den - TWO64 * num), wide, den, steps);
    CutError(c, wide, den);
    HalfUnit(c * den, num, wide * den, den);
  }

  lemma CutError(c: nat, wide: nat, den: nat)
    requires CutFrom(c, wide)
    ensures Abs(TWO64 * (c * den) - wide * den) <= (0x8000_0000_0000_0000 - 0x1_0000_0000) * den
  {
    MulAssociate(TWO64, c, den);
    MulSubtract(c * TWO64, wide, den);
    AbsProduct(c * TWO64 - wide, den);
    MulMonotone(Abs(c * TWO64 - wide), 0x8000_0000_0000_0000 - 0x1_0000_0000, den);
  }

  lemma HalfUnit(x: int, y: int, between: int, den: nat)
    requires Abs(TWO64 * x - between) <= (0x8000_0000_0000_0000 - 0x1_0000_0000) * den
    requires Abs(between - TWO64 * y) <= 0x1_0000_0000 * den
    ensures 2 * Abs(x - y) <= den
  {
  }

  lemma WideErrorBound(err: nat, wide: nat, den: nat, steps: nat)
    requires err * SLACK <= steps * (wide * den) && steps <= 44 && wide < TWO128
    ensures err <= 0x1_0000_0000 * den
  {
    MulNonNegative(wide, den);
    MulMonotone(steps, 44, wide * den);
    MulMonotone(wide, TWO128, den);
  }

  /** The 64-bit significand is the 128-bit value rounded, with room for its error. */
  predicate CutFrom(c: nat, wide: nat)
  {
    wide < TWO128 && Abs(c * TWO64 - wide) + 0x1_0000_0000 <= 0x8000_0000_0000_0000
  }

  lemma ApproximatesUp(e: nat -> int, w: nat -> nat, f: nat -> nat, n: nat)
    requires n <= 42 && e(0) == -50 && w(0) == 0x9c400000_00000000_00000000_00000000
    requires forall j: nat :: j < n ==> FollowsUp(e(j), w(j), e(j + 1), w(j + 1))
    requires CutFrom(f(n), w(n))
    ensures Approximates(f(n), PowerNum(8 * n + 4, e(n)), PowerDen(8 * n + 4, e(n)))
  {
    ChainUp(e, w, n);
    var ten := Pow(10, 8 * n + 4);
    assert ten * TWO128 == TWO64 * (ten * TWO64);
    RoundedFromWide(f(n), w(n), ten * TWO64, Pow(2, e(n) + 64), n + 1);
  }

  lemma ApproximatesDown(e: nat -> int, w: nat -> nat, f: nat -> nat, n: nat)
    requires n <= 43 && e(0) == -77 && w(0) == 0xd1b71758_e219652b_d3c36113_404ea4a8
    requires forall j: nat :: j < n ==> FollowsDown(e(j), w(j), e(j + 1), w(j + 1))
    requires CutFrom(f(n), w(n))
    ensures Approximates(f(n), PowerNum(-8 * n - 4, e(n)), PowerDen(-8 * n - 4, e(n)))
  {
    ChainDown(e, w, n);
    PowAdd(2, 64, -e(n));
    TwoTo64();
    RoundedFromWide(f(n), w(n), Pow(2, -e(n)), Pow(10, 8 * n + 4), n + 1);
  }

  function UpF(j: nat): nat { if j < 43 then Entry(44 + j).f else 0 }
  function DownF(j: nat): nat { if j < 44 then Entry(43 - j).f else 0 }

  lemma UpCut(j: nat)
    requires j < 43
    ensures CutFrom(UpF(j), UpWide(j))
  {
    TableAccurate(44 + j);
  }

  lemma DownCut(j: nat)
    requires j < 44
    ensures CutFrom(DownF(j), DownWide(j))
  {
    TableAccurate(43 - j);
  }

  /** Every entry with a non-negative decimal exponent is the power rounded to 64 bits... */
  lemma UpEntries(n: nat)
    requires n < 43
    ensures Approximates(UpF(n), PowerNum(8 * n + 4, UpExponent(n)), PowerDen(8 * n + 4, UpExponent(n)))
  {
    forall j: nat | j < n ensures FollowsUp(UpExponent(j), UpWide(j), UpExponent(j + 1), UpWide(j + 1)) {
      UpFollows(j);
    }
    UpCut(n);
    ApproximatesUp(UpExponent, UpWide, UpF, n);
  }

  /** ...and so is every entry with a negative one. */
  lemma DownEntries(n: nat)
    requires n < 44
    ensures Approximates(DownF(n), PowerNum(-8 * n - 4, DownExponent(n)), PowerDen(-8 * n - 4, DownExponent(n)))
  {
    forall j: nat | j < n ensures FollowsDown(DownExponent(j), DownWide(j), DownExponent(j + 1), DownWide(j + 1)) {
      DownFollows(j);
    }
    DownCut(n);
    ApproximatesDown(DownExponent, DownWide, DownF, n);
  }

  // -------------------------------------------------------------- selection

  /** The index arithmetic: a scaled logarithm, rounded up, then to a multiple of eight. */
  function CachedIndex(minExponent: int): int
  {
    var digits := ((minExponent + 63) * LOG10_2 + 0xFFFF_FFFF) / TWO32;
    (digits + 347) / 8 + 1
  }

  /** An exponent that fits the index fits the request. */
  lemma IndexFits(minExponent: int, i: nat, e: int)
    requires i == CachedIndex(minExponent)
    requires (e + 64) * LOG10_2 > DecimalExponent(i) * TWO32
    requires (e + 34) * LOG10_2 <= (DecimalExponent(i) - 8) * TWO32
    ensures minExponent <= e <= minExponent + 28
  {
  }

  /** power is 10^k rounded to a 64-bit significand. */
  ghost predicate IsCachedPower(power: Fp, k: int)
  {
    && power.f >= 0x8000_0000_0000_0000
    && (k >= 0 ==> power.e >= -50) && (k < 0 ==> power.e <= -77)
    && Approximates(power.f, PowerNum(k, power.e), PowerDen(k, power.e))
  }

  lemma EntryIsCachedPower(i: nat)
    requires i < 87
    ensures IsCachedPower(Entry(i), DecimalExponent(i))
  {
    var n: int := if i >= 44 then i - 44 else 43 - i;
    if i >= 44 {
      UpEntries(n);
      assert UpF(n) == Entry(i).f && UpExponent(n) == Entry(i).e && 8 * n + 4 == DecimalExponent(i);
    } else {
      DownEntries(n);
      assert DownF(n) == Entry(i).f && DownExponent(n) == Entry(i).e && -8 * n - 4 == DecimalExponent(i);
    }
    TableAccurate(i);
  }

  lemma EntryFits(minExponent: int, i: nat)
    requires i < 87 && i == CachedIndex(minExponent)
    ensures minExponent <= Entry(i).e <= minExponent + 28
  {
    TableAccurate(i);
    IndexFits(minExponent, i, Entry(i).e);
  }

  /** A function that has the entries of the table. */
  ghost predicate IsTable(table: int -> Fp)
  {
    forall i: nat {:trigger Entry(i)} :: i < 87 ==> table(i) == Entry(i)
  }

  ghost function TheTable(): int -> Fp
  {
    (i: int) => if 0 <= i < 87 then Entry(i) else Fp(0, 0)
  }

  lemma TheTableIsTable()
    ensures IsTable(TheTable())
  {
  }

  /** A cached power of ten whose binary exponent is within 28 of the one asked for. */
  method GetCachedPower(minExponent: int, ghost table: int -> Fp) returns (power: Fp, pow10: int)
    requires -1084 <= minExponent <= 1013 && IsTable(table)
    ensures power == table(CachedIndex(minExponent)) && pow10 == 8 * CachedIndex(minExponent) - 348
    ensures minExponent <= power.e <= minExponent + 28
    ensures -348 <= pow10 <= 340 && IsCachedPower(power, pow10) && Untied(power.f, pow10)
  {
    var index := CachedIndex(minExponent);
    power, pow10 := Entry(index), FIRST_DECIMAL_EXPONENT + index * 8;
    EntryFits(minExponent, index);
    EntryIsCachedPower(index);
    EntryUntied(index);
  }
}
