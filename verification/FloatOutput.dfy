/**
  What the contract of the formatter settles: which place the first digit has, that it
  is not a zero, that any number of significant digits is delivered exactly, and that
  nothing about the output is left open.
 */
module FloatOutput {
  import opened Words
  import opened Powers
  import opened Decimal
  import opened BinaryValue
  import opened CachedPowers
  import opened CachedPowerTable
  import opened DoubleBits
  import opened Halfway
  import opened FormatFloat
  import opened PrecisionLimits

  // ------------------------------------------------------------- uniqueness

  /** The leading place is unique. */
  lemma LeadUnique(f: nat, e: int, a: int, b: int)
    requires Leads(f, e, a) && Leads(f, e, b)
    ensures a == b
  {
    FinerByTen(f, e, a + 1);
    FinerByTen(f, e, b + 1);
    if a < b {
      ReachesLower(f, e, b, a + 1);
    } else if b < a {
      ReachesLower(f, e, a, b + 1);
    }
  }

  /** Digit strings of one length spell different numbers. */
  lemma {:induction false} DigitsUnique(s: seq<char>, t: seq<char>)
    requires AllDigits(s) && AllDigits(t) && |s| == |t| && DigitsVal(s) == DigitsVal(t)
    ensures s == t
  {
    if s != [] {
      var n := |s| - 1;
      assert DigitOf(s[n]) == DigitsVal(s) % 10 == DigitOf(t[n]);
      DigitsUnique(s[..n], t[..n]);
      assert s == s[..n] + [s[n]] && t == t[..n] + [t[n]];
    }
  }

  lemma NoDigitsLeft(buf: seq<char>)
    requires AllDigits(buf) && DigitsVal(buf) == 0 && (buf == [] || buf[|buf| - 1] != '0')
    ensures buf == []
  {
    DigitsBound(if buf == [] then [] else buf[..|buf| - 1]);
  }

  lemma SpellsZero(buf: seq<char>, exp: int, unit: int)
    requires Spells(buf, exp, unit, 0)
    ensures DigitsVal(buf) == 0
  {
    DigitsBound(buf);
    if DigitsVal(buf) > 0 {
      MulStrict(0, DigitsVal(buf), Pow(10, exp - unit));
    }
  }

  /** Digits that end in no zero have the largest exponent the number allows. */
  lemma TrimmedIsLast(s: seq<char>, x: int, t: seq<char>, y: int, unit: int, units: nat)
    requires units > 0 && Spells(s, x, unit, units) && Spells(t, y, unit, units)
    requires s == [] || s[|s| - 1] != '0'
    ensures y <= x
  {
    if y > x {
      PowAdd(10, y - x, x - unit);
      Cancelled(DigitsVal(s), DigitsVal(t), Pow(10, x - unit), Pow(10, y - x), units);
      EndsInZero(DigitsVal(t), Pow(10, y - x - 1));
      LastDigit(s, units, x - unit);
      assert false;
    }
  }

  lemma Cancelled(a: int, b: int, p: nat, q: nat, units: int)
    requires p > 0 && a * p == units && b * (q * p) == units
    ensures a == b * q
  {
    MulAssociate(b, q, p);
    SignOfScaled(a, b * q, p);
  }

  lemma LastDigit(s: seq<char>, units: nat, k: nat)
    requires AllDigits(s) && units > 0 && DigitsVal(s) * Pow(10, k) == units
    ensures s != [] && DigitsVal(s) % 10 == DigitOf(s[|s| - 1])
  {
  }

  lemma EndsInZero(a: int, p: int)
    ensures (a * (10 * p)) % 10 == 0
  {
    MulSwap(a, 10, p);
  }

  lemma TrimmedUnique(s: seq<char>, x: int, t: seq<char>, y: int, unit: int, units: nat)
    requires Spells(s, x, unit, units) && Spells(t, y, unit, units) && |s| + x == |t| + y
    requires (s == [] || s[|s| - 1] != '0') && (t == [] || t[|t| - 1] != '0')
    ensures s == t && x == y
  {
    if units == 0 {
      SpellsZero(s, x, unit);
      SpellsZero(t, y, unit);
      NoDigitsLeft(s);
      NoDigitsLeft(t);
    } else {
      TrimmedIsLast(s, x, t, y, unit, units);
      TrimmedIsLast(t, y, s, x, unit, units);
      SignOfScaled(DigitsVal(s), DigitsVal(t), Pow(10, x - unit));
      DigitsUnique(s, t);
    }
  }

  lemma DeliversOne(f: nat, e: int, unit: int, n: nat, raises: bool, trimmed: bool, s: seq<char>, x: int, t: seq<char>,
                    y: int)
    requires Delivers(f, e, unit, n, raises, trimmed, s, x) && Delivers(f, e, unit, n, raises, trimmed, t, y)
    ensures s == t && x == y
  {
    if trimmed {
      TrimmedUnique(s, x, t, y, unit, Rounded(f, e, unit));
    } else {
      SignOfScaled(DigitsVal(s), DigitsVal(t), Pow(10, x - unit));
      DigitsUnique(s, t);
    }
  }

  lemma OutputOne(f: nat, e: int, undecided: nat -> bool, precision: nat, fixed: bool, trimmed: bool, lead: int,
                  s: seq<char>, x: int, t: seq<char>, y: int)
    requires Output(f, e, undecided, precision, fixed, trimmed, lead, s, x)
    requires Output(f, e, undecided, precision, fixed, trimmed, lead, t, y)
    ensures s == t && x == y
  {
    var n := precision + lead + 1;
    if fixed {
      if n >= 0 {
        DeliversOne(f, e, 0 - precision, n, undecided(n), false, s, x, t, y);
      }
    } else if precision > 0 {
      DeliversOne(f, e, lead + 1 - precision, precision, true, trimmed, s, x, t, y);
    } else if undecided(1) {
      DeliversOne(f, e, lead + 1, 0, true, trimmed, s, x, t, y);
    } else {
      DeliversOne(f, e, lead, 1, true, trimmed, s, x, t, y);
    }
  }

  /** The formatter's contract leaves one output for every double, precision and notation. */
  lemma OutputUnique(table: int -> Fp, bits: u64, precision: int, fixed: bool, showpoint: bool,
                     s: seq<char>, x: int, a: int, t: seq<char>, y: int, b: int)
    requires bits < 0x7FF0_0000_0000_0000 && (bits > 0 ==> precision >= 0)
    requires Formatted(table, bits, precision, fixed, showpoint, s, x, a)
    requires Formatted(table, bits, precision, fixed, showpoint, t, y, b)
    ensures s == t && x == y
  {
    if bits == 0 {
      DigitsUnique(s, t);
    } else {
      var value := Decode(bits);
      LeadUnique(value.f, value.e, a, b);
      var undecided := (n: nat) => Undecided(table, Decode(bits), n);
      OutputOne(value.f, value.e, undecided, if precision > 767 then 767 else precision, fixed, !showpoint, a,
                s, x, t, y);
    }
  }

  // -------------------------------------------------------- the first digit

  /** A value that reaches 10^lead reaches 10^(n - 1) units of the n-th place. */
  lemma LeadingKept(f: nat, e: int, lead: int, n: nat)
    requires Leads(f, e, lead) && n > 0
    ensures Rounded(f, e, lead + 1 - n) >= Pow(10, n - 1)
  {
    var num, den, p := ScaledNum(f, e, lead), ScaledDen(e, lead), Pow(10, n - 1);
    RoundedFiner(f, e, lead, n - 1);
    MulMonotone(den, num, p);
    NearestAtLeast(num * p, den, p);
  }

  lemma NearestAtLeast(n: nat, d: nat, q: nat)
    requires d > 0 && d * q <= n
    ensures RoundHalfEven(n, d) >= q
  {
    if n / d < q {
      MulMonotone(n / d + 1, q, d);
      assert false;
    }
  }

  lemma LeadingZero(s: seq<char>)
    requires AllDigits(s) && s != [] && s[0] == '0'
    ensures DigitsVal(s) < Pow(10, |s| - 1)
  {
    assert s == s[..1] + s[1..] && s[..1][..0] == [];
    DigitsConcat(s[..1], s[1..]);
    DigitsBound(s[1..]);
  }

  lemma StartsHigh(buf: seq<char>, exp: int, unit: int, units: nat, n: nat)
    requires Spells(buf, exp, unit, units) && |buf| + exp == unit + n && n > 0 && units >= Pow(10, n - 1)
    ensures buf != [] && buf[0] != '0'
  {
    if buf == [] || buf[0] == '0' {
      if buf != [] {
        LeadingZero(buf);
        PowAdd(10, |buf| - 1, exp - unit);
        MulStrict(DigitsVal(buf), Pow(10, |buf| - 1), Pow(10, exp - unit));
      }
      assert false;
    }
  }

  lemma DeliversNoZero(f: nat, e: int, lead: int, n: nat, raises: bool, trimmed: bool, buf: seq<char>, exp: int)
    requires Leads(f, e, lead) && n > 0 && Delivers(f, e, lead + 1 - n, n, raises, trimmed, buf, exp)
    ensures buf != [] && buf[0] != '0'
  {
    var unit := lead + 1 - n;
    var units := Rounded(f, e, unit);
    LeadingKept(f, e, lead, n);
    StartsHigh(buf, exp, unit, units, if units == Pow(10, n) then n + 1 else n);
  }

  /** No leading zero, wherever at least one digit is asked for. */
  lemma NoLeadingZero(table: int -> Fp, bits: u64, precision: nat, fixed: bool, showpoint: bool, buf: seq<char>,
                      exp: int, lead: int)
    requires 0 < bits < 0x7FF0_0000_0000_0000 && Formatted(table, bits, precision, fixed, showpoint, buf, exp, lead)
    requires if fixed then lead + 1 > 0 - precision && lead + 1 > -767 else precision > 0
    ensures buf != [] && buf[0] != '0'
  {
    var value := Decode(bits);
    var p := if precision > 767 then 767 else precision;
    var n := if fixed then p + lead + 1 else p;
    var raises := !fixed || Undecided(table, value, n);
    assert Delivers(value.f, value.e, lead + 1 - n, n, raises, !fixed && !showpoint, buf, exp);
    DeliversNoZero(value.f, value.e, lead, n, raises, !fixed && !showpoint, buf, exp);
  }

  // ------------------------------------------------------ significant digits

  lemma SpellsFinerBy(buf: seq<char>, exp: int, unit: int, units: nat, k: nat)
    requires Spells(buf, exp, unit, units)
    ensures 0 <= units * Pow(10, k) && Spells(buf, exp, unit - k, units * Pow(10, k))
  {
    MulNonNegative(units, Pow(10, k));
    PowAdd(10, exp - unit, k);
    MulAssociate(DigitsVal(buf), Pow(10, exp - unit), Pow(10, k));
  }

  /**
    In general and exponent notation the digits are the value rounded half to even to
    exactly as many significant digits as were asked for, however many those are.
   */
  lemma SignificantExact(table: int -> Fp, bits: u64, precision: nat, showpoint: bool, buf: seq<char>, exp: int,
                         lead: int)
    requires 0 < bits < 0x7FF0_0000_0000_0000 && precision > 0
    requires Formatted(table, bits, precision, false, showpoint, buf, exp, lead)
    ensures
      var value := Decode(bits);
      Spells(buf, exp, lead + 1 - precision, Rounded(value.f, value.e, lead + 1 - precision))
  {
    var value := Decode(bits);
    if precision > 767 {
      ClampHarmless(value.f, value.e, lead, precision);
      SpellsFinerBy(buf, exp, lead + 1 - 767, Rounded(value.f, value.e, lead + 1 - 767), precision - 767);
    }
  }
}
