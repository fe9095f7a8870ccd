/**
  Asked for no significant digits, one is delivered; but where the fast generator
  cannot decide it, the exact one rounds at the place above.  When that happens, and
  when it matters, is settled here for every double.
 */
module ZeroPrecision {
  import opened Words
  import opened Powers
  import opened Decimal
  import opened DigitCount
  import opened BinaryValue
  import opened CachedPowerTable
  import opened CachedPowers
  import opened WideMul
  import opened DoubleBits
  import opened Halfway
  import opened FormatFloat
  import opened PrecisionLimits
  import opened FloatOutput

  // ------------------------------------------------------ the exact condition

  /** Rounding one place too early gives the same number only when the digit rounds up to ten. */
  lemma NoDigitsAgrees(f: nat, e: int, lead: int)
    requires Leads(f, e, lead)
    ensures Rounded(f, e, lead) == 10 * Rounded(f, e, lead + 1) <==> Rounded(f, e, lead) == 10
  {
    CoarserByTen(f, e, lead);
    OneDigitOrTen(ScaledNum(f, e, lead), ScaledDen(e, lead));
  }

  lemma OneDigitOrTen(n: nat, d: nat)
    requires 0 < d <= n < 10 * d
    ensures RoundHalfEven(n, d) == 10 * RoundHalfEven(n, 10 * d) <==> RoundHalfEven(n, d) == 10
  {
    RoundFromDivision(n, 10 * d, 0, n);
    NearestBound(n, d);
    if RoundHalfEven(n, d) == 10 {
      assert 20 * d <= 2 * n + d;
    }
  }

  /** Units of a place, counted in the place below. */
  lemma SpellsFiner(buf: seq<char>, exp: int, unit: int, units: nat)
    requires Spells(buf, exp, unit + 1, units)
    ensures Spells(buf, exp, unit, 10 * units)
  {
    MulSwap(DigitsVal(buf), 10, Pow(10, exp - unit - 1));
  }

  /**
    With no significant digits asked for, the output is the value rounded to one digit
    if and only if the fast generator decides, or that digit rounds up to ten.
   */
  lemma NoDigitsExact(table: int -> Fp, bits: u64, showpoint: bool, buf: seq<char>, exp: int, lead: int)
    requires 0 < bits < 0x7FF0_0000_0000_0000 && Formatted(table, bits, 0, false, showpoint, buf, exp, lead)
    ensures
      var value := Decode(bits);
      var digit := Rounded(value.f, value.e, lead);
      Spells(buf, exp, lead, digit) <==> !Undecided(table, value, 1) || digit == 10
  {
    var value := Decode(bits);
    if Undecided(table, value, 1) {
      SpellsFiner(buf, exp, lead, Rounded(value.f, value.e, lead + 1));
      NoDigitsAgrees(value.f, value.e, lead);
    }
  }

  // ------------------------------------------------------------------ half-way

  lemma TwoAndAHalfRounded(f: nat, e: int)
    requires f == 0x14_0000_0000_0000 && e == -51
    ensures Leads(f, e, 0) && HalfwayAt(f, e, 0) && Rounded(f, e, 0) == 2 && Rounded(f, e, 1) == 0
  {
    assert Pow(2, 0) == 1 && Pow(10, 0) == 1 && Pow(10, 1) == 10;
    TwoTo52();
    assert Pow(2, 52) == 2 * Pow(2, 51);
    assert ScaledNum(f, e, 0) == 0x14_0000_0000_0000 && ScaledDen(e, 0) == 0x8_0000_0000_0000;
    CoarserByTen(f, e, 0);
  }

  /** 2.5 rounds to 2 in one digit; asked for none, the formatter delivers no digits at all. */
  method FormatTwoAndAHalf() returns (buf: seq<char>, exp: int)
    ensures buf == [] && exp == 2
    ensures Rounded(Decode(0x4004_0000_0000_0000).f, Decode(0x4004_0000_0000_0000).e, 0) == 2
  {
    ghost var lead;
    buf, exp, lead := Format(0x4004_0000_0000_0000, 0, false, false);
    TwoAndAHalfOutput(TheTable(), Decode(0x4004_0000_0000_0000), buf, exp, lead);
  }

  lemma TwoAndAHalfOutput(table: int -> Fp, value: Fp, buf: seq<char>, exp: int, lead: int)
    requires value == Decode(0x4004_0000_0000_0000)
    requires Formatted(table, 0x4004_0000_0000_0000, 0, false, false, buf, exp, lead)
    ensures buf == [] && exp == 2 && Rounded(value.f, value.e, 0) == 2
  {
    TwoAndAHalfRounded(value.f, value.e);
    LeadUnique(value.f, value.e, lead, 0);
    SpellsZero(buf, exp, 1);
    NoDigitsLeft(buf);
  }

  // ------------------------------------------------- a carry in fixed notation

  lemma NineAndAHalfRounded(f: nat, e: int)
    requires f == 0x13_0000_0000_0000 && e == -49
    ensures Leads(f, e, 0) && HalfwayAt(f, e, 0) && Rounded(f, e, 0) == 10
  {
    assert Pow(2, 0) == 1 && Pow(10, 0) == 1;
    TwoTo52();
    assert Pow(2, 52) == 8 * Pow(2, 49);
    assert ScaledNum(f, e, 0) == 0x13_0000_0000_0000 && ScaledDen(e, 0) == 0x2_0000_0000_0000;
  }

  /**
    9.5 rounds up to 10 at the units.  The fast generator would store that as two
    digits in fixed notation; the half-way case is the exact one's, and it stores one.
   */
  method FormatNineAndAHalf() returns (buf: seq<char>, exp: int)
    ensures buf == ['1'] && exp == 1
  {
    ghost var lead;
    buf, exp, lead := Format(0x4023_0000_0000_0000, 0, true, false);
    NineAndAHalfOutput(TheTable(), Decode(0x4023_0000_0000_0000), buf, exp, lead);
  }

  lemma NineAndAHalfOutput(table: int -> Fp, value: Fp, buf: seq<char>, exp: int, lead: int)
    requires value == Decode(0x4023_0000_0000_0000)
    requires Formatted(table, 0x4023_0000_0000_0000, 0, true, false, buf, exp, lead)
    ensures buf == ['1'] && exp == 1
  {
    NineAndAHalfRounded(value.f, value.e);
    LeadUnique(value.f, value.e, lead, 0);
    OneCarried(value.f, value.e, 0, buf, exp);
  }

  /** One digit that rounds up to ten, delivered with the exponent raised. */
  lemma OneCarried(f: nat, e: int, unit: int, buf: seq<char>, exp: int)
    requires Delivers(f, e, unit, 1, true, false, buf, exp) && Rounded(f, e, unit) == 10
    ensures buf == ['1'] && exp == unit + 1
  {
    assert Pow(10, 0) == 1 && Pow(10, 1) == 10;
    assert buf[..0] == [];
    assert DigitsVal(buf) == DigitOf(buf[0]);
  }

  // -------------------------------------------------------- close to half-way

  // The double 0x689d1c26db7d0dae is just below 8.5e195.  Its numbers are handed
  // around as variables, so that no power is expanded step by step.

  lemma BinaryPower(a: nat, e: nat)
    requires 63 < a < 65 && 597 < e < 599
    ensures Pow(2, e) == 0x400000_00000000_00000000_00000000_00000000_00000000_00000000_00000000_00000000_00000000_00000000_00000000_00000000_00000000_00000000_00000000_00000000_00000000_00000000
  {
    TwoTo64();
    PowAdd(2, a, a);
    PowAdd(2, 2 * a, 2 * a);
    PowAdd(2, 4 * a, 4 * a);
    PowAdd(2, 8 * a, a);
    TwoToIsPow(e - 9 * a);
    PowAdd(2, 9 * a, e - 9 * a);
    assert Pow(2, 2 * a) == 0x1_00000000_00000000_00000000_00000000;
    assert Pow(2, 4 * a) == 0x1_00000000_00000000_00000000_00000000_00000000_00000000_00000000_00000000;
    assert Pow(2, 8 * a) == 0x1_00000000_00000000_00000000_00000000_00000000_00000000_00000000_00000000_00000000_00000000_00000000_00000000_00000000_00000000_00000000_00000000;
    assert Pow(2, 9 * a) == 0x1_00000000_00000000_00000000_00000000_00000000_00000000_00000000_00000000_00000000_00000000_00000000_00000000_00000000_00000000_00000000_00000000_00000000_00000000;
  }

  lemma DecimalPower(a: nat, lead: nat)
    requires 4 < a < 6 && 194 < lead < 196
    ensures Pow(10, lead) == 0xDB_2E51BFE9_D0696A06_997B05FC_C0319E84_B720EA6C_CCE67BA3_DEF4876C_EBF9C4C2_BD4457B0_3932133F_582465B6_E9BF7B1F_98D4ABB9_D9534BE8_00000000_00000000_00000000_00000000_00000000_00000000
  {
    assert Pow(10, 5) == 100_000;
    PowAdd(10, a, a);
    PowAdd(10, 2 * a, 2 * a);
    PowAdd(10, 4 * a, 4 * a);
    PowAdd(10, 8 * a, 8 * a);
    PowAdd(10, 16 * a, 16 * a);
    PowAdd(10, 32 * a, 4 * a);
    PowAdd(10, 36 * a, 2 * a);
    PowAdd(10, 38 * a, a);
    assert Pow(10, 4 * a) == 0x5_6BC75E2D_63100000;
    assert Pow(10, 8 * a) == 0x1D_6329F1C3_5CA4BFAB_B9F56100_00000000;
    assert Pow(10, 16 * a) == 0x35F_9DEA3E1F_6BDFEF70_CDD17B25_EFA418CA_63A22764_CEC10000_00000000_00000000;
    assert Pow(10, 32 * a) == 0xB616A_12B7FE61_7AA577B9_86B314D6_0092381C_F8591999_D6395D7D_DC421413_5713F2F3_B70F2850_5222D0F4_FBC32D81_00000000_00000000_00000000_00000000_00000000;
    assert Pow(10, 36 * a) == 0x3DB1A6_9CA8E627_D6E2AB55_2795C9CF_514391C2_6DF6E016_77284B4C_650F72DF_E2D9B914_A9DBC675_B0F05D00_8C1B74C0_02F79478_BB100000_00000000_00000000_00000000_00000000_00000000;
  }

  const NEAR_HALF_BITS: u64 := 0x689d_1c26_db7d_0dae

  lemma NearHalfDecodes()
    ensures Decode(NEAR_HALF_BITS) == Fp(8_193_727_541_349_806, 598)
  {
  }

  lemma NearHalfRounded(f: nat, e: int, lead: int)
    requires f == 8_193_727_541_349_806 && 597 < e < 599 && 194 < lead < 196
    ensures Leads(f, e, lead) && !HalfwayAt(f, e, lead) && Rounded(f, e, lead) == 8 && Rounded(f, e, lead + 1) == 1
  {
    BinaryPower(64, e);
    DecimalPower(5, lead);
    assert Pow(2, 0) == 1 && Pow(10, 0) == 1;
    var num, den := ScaledNum(f, e, lead), ScaledDen(e, lead);
    assert num == f * Pow(2, e) && den == Pow(10, lead);
    RoundFromDivision(num, den, 8, num - 8 * den);
    DivModUnique(num, den, 8, num - 8 * den);
    CoarserByTen(f, e, lead);
    RoundFromDivision(num, 10 * den, 0, num);
  }

  lemma NearHalfOpen(scaled: u64, s: nat)
    requires scaled == 11_682_311_045_120_000_000 && 36 < s < 38
    ensures Open(scaled, s, 1)
  {
    TwoToIsPow(s);
    var whole := scaled / Pow(2, s);
    assert whole == 85_000_000;
    assert Pow(10, 7) == 10_000_000 && Pow(10, 8) == 100_000_000;
    NumDigitsUnique(whole, 8);
  }

  lemma NearHalfScaled(table: int -> Fp, value: Fp)
    requires IsTable(table) && value.f == 8_193_727_541_349_806 && 597 < value.e < 599
    ensures IsDouble(value) && Undecided(table, value, 1)
  {
    var n := Fp(value.f * 2048, value.e - 11);
    assert Pow(2, 11) == 2048;
    IsNormalOf(value, n, 11);
    assert CachedIndex(-60 - (n.e + 64)) == 20;
    assert table(20) == Entry(20) == Fp(0xb238_67fb_2a35_b28e, -688);
    assert Multiply(n.f, 0xb238_67fb_2a35_b28e) == 11_682_311_045_120_000_000;
    NearHalfOpen(11_682_311_045_120_000_000, -(n.e - 688 + 64));
  }

  /**
    The double just below 8.5e195 is not half-way, rounds to 8 in one digit, and is
    undecided all the same; asked for no digits, it comes out as one unit of 10^196.
   */
  lemma NearHalfFails(lead: int)
    requires 194 < lead < 196
    ensures
      var value := Decode(NEAR_HALF_BITS);
      && Undecided(TheTable(), value, 1) && Leads(value.f, value.e, lead) && !HalfwayAt(value.f, value.e, lead)
      && Rounded(value.f, value.e, lead) == 8 && Rounded(value.f, value.e, lead + 1) == 1
  {
    NearHalfDecodes();
    var value := Decode(NEAR_HALF_BITS);
    TheTableIsTable();
    NearHalfScaled(TheTable(), value);
    NearHalfRounded(value.f, value.e, lead);
  }

  /** So the formatter delivers 1 * 10^196 for it. */
  method FormatNearHalf(ghost place: int) returns (buf: seq<char>, exp: int)
    requires 194 < place < 196
    ensures buf == ['1'] && exp == place + 1
  {
    ghost var value := Decode(NEAR_HALF_BITS);
    NearHalfFails(place);
    ghost var lead;
    buf, exp, lead := Format(NEAR_HALF_BITS, 0, false, false);
    LeadUnique(value.f, value.e, lead, place);
    SpellsOne(buf, exp, place + 1);
    assert buf[..0] == [];
  }

  lemma SpellsOne(buf: seq<char>, exp: int, unit: int)
    requires Spells(buf, exp, unit, 1)
    ensures DigitsVal(buf) == 1 && exp == unit
  {
    DigitsBound(buf);
    var d, p := DigitsVal(buf), Pow(10, exp - unit);
    if d > 1 {
      MulMonotone(2, d, p);
    }
  }
}
