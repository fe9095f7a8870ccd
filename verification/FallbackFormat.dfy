/**
  The exact digit generator used when the fast one gives up: the fixed-precision
  part of the (FPP)^2 algorithm of Steele and White on arbitrary-precision
  integers.
 */
module FallbackFormat {
  import opened Words
  import opened Powers
  import opened Bigits
  import opened BigitOrder
  import opened Bigints
  import opened Decimal
  import opened BinaryValue

  // ----------------------------------------------------------------- set-up

  /**
    The three set-up branches: numerator / denominator is the value divided by
    10^exp10, with both sides scaled by 2^shift.
   */
  method SetUp(f: nat, e: int, shift: nat, exp10: int, numerator: Bigint, denominator: Bigint)
    requires numerator != denominator
    requires 0 < f < 0x4000_0000_0000_0000 && 1 <= shift <= 2
    requires -0x4000_0000 < exp10 < 0x4000_0000 && (e >= 0 ==> exp10 >= 0)
    modifies numerator, denominator
    ensures numerator.Trimmed() && denominator.Trimmed()
    ensures numerator.Value() == Pow(2, shift) * ScaledNum(f, e, exp10)
    ensures denominator.Value() == Pow(2, shift) * ScaledDen(e, exp10)
    ensures e >= 32 || numerator.exp <= denominator.exp || |denominator.bigits| == 1
  {
    SignificandFits(f, shift);
    var significand: u64 := f * Pow(2, shift);
    if e >= 0 {
      SetUpWhole(f, significand, e, shift, exp10, numerator, denominator);
    } else if exp10 < 0 {
      SetUpSmall(f, significand, e, shift, exp10, numerator, denominator);
    } else {
      SetUpMixed(f, significand, e, shift, exp10, numerator, denominator);
    }
  }

  lemma SignificandFits(f: nat, shift: nat)
    requires 0 < f < 0x4000_0000_0000_0000 && 1 <= shift <= 2
    ensures 0 < f * Pow(2, shift) < TWO64
  {
    assert Pow(2, 1) == 2 && Pow(2, 2) == 4;
  }

  /** An integer: the value itself over a power of ten. */
  method SetUpWhole(ghost f: nat, significand: u64, e: nat, shift: nat, exp10: nat,
                    numerator: Bigint, denominator: Bigint)
    requires numerator != denominator && 0 < significand == f * Pow(2, shift) && exp10 < 0x4000_0000
    modifies numerator, denominator
    ensures numerator.Trimmed() && denominator.Trimmed()
    ensures numerator.Value() == Pow(2, shift) * ScaledNum(f, e, exp10)
    ensures denominator.Value() == Pow(2, shift) * ScaledDen(e, exp10)
    ensures e >= 32 || numerator.exp <= denominator.exp
  {
    numerator.Assign(significand);
    numerator.ShiftLeft(e);
    denominator.AssignPow10(exp10);
    denominator.ShiftLeft(shift);
    WholeSetUp(f, e, exp10, Pow(2, shift));
  }

  /** Less than one: scaled up by a power of ten. */
  method SetUpSmall(ghost f: nat, significand: u64, e: int, shift: nat, exp10: int,
                    numerator: Bigint, denominator: Bigint)
    requires numerator != denominator && 0 < significand == f * Pow(2, shift)
    requires e < 0 && -0x4000_0000 < exp10 < 0
    modifies numerator, denominator
    ensures numerator.Trimmed() && denominator.Trimmed() && |denominator.bigits| == 1
    ensures numerator.Value() == Pow(2, shift) * ScaledNum(f, e, exp10)
    ensures denominator.Value() == Pow(2, shift) * ScaledDen(e, exp10)
  {
    numerator.AssignPow10(-exp10);
    numerator.Multiply64(significand);
    denominator.Assign(1);
    ghost var one := denominator.bigits;
    denominator.ShiftLeft(shift - e);
    PowerIsOneBigit(one, denominator.bigits, (shift - e) % 32);
    SmallSetUp(f, e, exp10, shift);
  }

  /** A fraction not less than one: both powers below. */
  method SetUpMixed(ghost f: nat, significand: u64, e: int, shift: nat, exp10: nat,
                    numerator: Bigint, denominator: Bigint)
    requires numerator != denominator && 0 < significand == f * Pow(2, shift) && e < 0 && exp10 < 0x4000_0000
    modifies numerator, denominator
    ensures numerator.Trimmed() && denominator.Trimmed() && numerator.exp <= denominator.exp
    ensures numerator.Value() == Pow(2, shift) * ScaledNum(f, e, exp10)
    ensures denominator.Value() == Pow(2, shift) * ScaledDen(e, exp10)
  {
    numerator.Assign(significand);
    denominator.AssignPow10(exp10);
    denominator.ShiftLeft(shift - e);
    MixedSetUp(f, e, exp10, shift);
  }

  lemma WholeSetUp(f: nat, e: int, exp10: int, p: nat)
    requires e >= 0 && exp10 >= 0
    ensures (f * p) * Pow(2, e) == p * ScaledNum(f, e, exp10)
    ensures Pow(10, exp10) * p == p * ScaledDen(e, exp10)
  {
    MulSwap(p, f, Pow(2, e));
    MulAssociate(f, p, Pow(2, e));
  }

  lemma SmallSetUp(f: nat, e: int, exp10: int, shift: nat)
    requires e < 0 && exp10 < 0
    ensures Pow(10, -exp10) * (f * Pow(2, shift)) == Pow(2, shift) * ScaledNum(f, e, exp10)
    ensures 1 * Pow(2, shift - e) == Pow(2, shift) * ScaledDen(e, exp10)
  {
    PowAdd(2, shift, -e);
    Rotate(Pow(10, -exp10), f, Pow(2, shift));
  }

  lemma Rotate(a: nat, b: nat, c: nat)
    ensures a * (b * c) == c * (b * a)
  {
  }

  lemma MixedSetUp(f: nat, e: int, exp10: int, shift: nat)
    requires e < 0 && exp10 >= 0
    ensures f * Pow(2, shift) == Pow(2, shift) * ScaledNum(f, e, exp10)
    ensures Pow(10, exp10) * Pow(2, shift - e) == Pow(2, shift) * ScaledDen(e, exp10)
  {
    PowAdd(2, shift, -e);
    MulSwap(Pow(10, exp10), Pow(2, shift), Pow(2, -e));
  }

  /** A shifted one occupies a single bigit. */
  lemma PowerIsOneBigit(one: seq<bigit>, b: seq<bigit>, s: nat)
    requires ValueOf(one, 0) == 1 && s < 32 && TopNonZero(b) && Val(b) == Val(one) * Pow(2, s)
    ensures |b| == 1
  {
    assert Val(one) == 1;
    PowStrict(2, s, 32);
    TwoTo32();
    ValTop(b);
    if |b| > 1 {
      PowMonotone(BASE, 1, |b| - 1);
      assert false;
    }
  }

  // ------------------------------------------------------------------ digits

  /**
    Nothing in the digit loop can mislead `compare`: the dividend is aligned, or
    the divisor is a single bigit, or no tenfold of the dividend meets the divisor.
   */
  ghost predicate NeverMisled(numerator: Bigint, denominator: Bigint)
    reads numerator, denominator
  {
    || numerator.exp <= denominator.exp
    || |denominator.bigits| == 1
    || MissesTenfolds(numerator.Value(), denominator.Value())
  }

  ghost predicate MissesTenfolds(n: nat, d: nat)
  {
    forall j: nat :: n * Pow(10, j) != d
  }

  lemma MissesAfterTen(n: nat, d: nat)
    requires MissesTenfolds(n, d)
    ensures MissesTenfolds(n * 10, d)
  {
    forall j: nat
      ensures (n * 10) * Pow(10, j) != d
    {
      assert n * Pow(10, j + 1) != d;
      TenSwap(n, Pow(10, j));
    }
  }

  /** An aligned or single-bigit comparison is not misled. */
  lemma NotMisled(b: seq<bigit>, e: nat, c: seq<bigit>, f: nat)
    requires Operand(b, e, f) && TopNonZero(c)
    requires e <= f || |c| == 1 || MissesTenfolds(ValueOf(b, e), ValueOf(c, f))
    ensures !(ValueOf(b, e) == ValueOf(c, f) && |b| < |c|)
  {
    if e <= f && |b| < |c| {
      MoreBigitsIsLarger(c, f, b, e);
    }
    if MissesTenfolds(ValueOf(b, e), ValueOf(c, f)) {
      assert ValueOf(b, e) * Pow(10, 0) != ValueOf(c, f);
    }
  }

  /** One decimal digit: the quotient, leaving the remainder. */
  method NextDigit(numerator: Bigint, denominator: Bigint) returns (digit: nat)
    requires numerator != denominator && denominator.Trimmed() && numerator.OperandFor(denominator)
    requires NeverMisled(numerator, denominator)
    requires numerator.Value() < 10 * denominator.Value()
    modifies numerator
    ensures numerator.OperandFor(denominator) && NeverMisled(numerator, denominator)
    ensures numerator.Value() < denominator.Value() && digit <= 9
    ensures old(numerator.Value()) == digit * denominator.Value() + numerator.Value()
  {
    NotMisled(numerator.bigits, numerator.exp, denominator.bigits, denominator.exp);
    digit := numerator.DivmodAssign(denominator);
    DigitRange(old(numerator.Value()), denominator.Value(), digit, numerator.Value());
  }

  lemma DigitRange(n: nat, d: nat, q: nat, r: nat)
    requires d > 0 && n < 10 * d && q == n / d && r == n % d
    ensures n == q * d + r && r < d && q <= 9
  {
    if q >= 10 {
      MulMonotone(10, q, d);
      assert false;
    }
  }

  /** Makes the remainder ready for the next digit. */
  method TimesTen(numerator: Bigint, denominator: Bigint)
    requires numerator != denominator && numerator.OperandFor(denominator)
    requires NeverMisled(numerator, denominator)
    modifies numerator
    ensures numerator.OperandFor(denominator) && NeverMisled(numerator, denominator)
    ensures numerator.Value() == old(numerator.Value()) * 10
  {
    ghost var n, d := numerator.Value(), denominator.Value();
    numerator.Multiply32(10);
    if MissesTenfolds(n, d) {
      MissesAfterTen(n, d);
    }
  }

  /** The leading digits: what they spell, and what is left over. */
  method LeadingDigits(numerator: Bigint, denominator: Bigint, count: nat) returns (buf: seq<char>)
    requires numerator != denominator && denominator.Trimmed() && numerator.OperandFor(denominator)
    requires NeverMisled(numerator, denominator)
    requires numerator.Value() < 10 * denominator.Value()
    modifies numerator
    ensures numerator.OperandFor(denominator) && NeverMisled(numerator, denominator)
    ensures numerator.Value() < 10 * denominator.Value()
    ensures |buf| == count && AllDigits(buf)
    ensures old(numerator.Value()) * Pow(10, count)
         == DigitsVal(buf) * (10 * denominator.Value()) + numerator.Value()
  {
    ghost var start, unit := numerator.Value(), denominator.Value();
    buf := [];
    for i := 0 to count
      invariant numerator.OperandFor(denominator) && NeverMisled(numerator, denominator)
      invariant numerator.Value() < 10 * unit && |buf| == i && AllDigits(buf)
      invariant start * Pow(10, i) == DigitsVal(buf) * (10 * unit) + numerator.Value()
    {
      ghost var before := numerator.Value();
      var digit := NextDigit(numerator, denominator);
      ghost var rest := numerator.Value();
      TimesTen(numerator, denominator);
      DigitsSnoc(buf, DigitChar(digit));
      DigitStep(start, Pow(10, i), DigitsVal(buf), unit, before, digit, rest);
      buf := buf + [DigitChar(digit)];
    }
  }

  lemma DigitStep(start: nat, p: nat, spelled: int, unit: nat, before: nat, digit: nat, rest: nat)
    requires start * p == spelled * (10 * unit) + before
    requires before == digit * unit + rest
    ensures start * (10 * p) == (spelled * 10 + digit) * (10 * unit) + rest * 10
    ensures start * p == (spelled * 10 + digit) * unit + rest
  {
    assert start * (10 * p) == 10 * (start * p);
    assert (spelled * 10 + digit) * unit == spelled * (10 * unit) + digit * unit;
    assert (spelled * 10 + digit) * (10 * unit) == 10 * ((spelled * 10 + digit) * unit);
  }

  // ---------------------------------------------------------------- rounding

  /** Whether the remainder, doubled, passes the denominator; ties go to the even digit. */
  method RoundsUp(numerator: Bigint, denominator: Bigint, digit: nat) returns (up: bool)
    requires denominator.Trimmed() && numerator.OperandFor(denominator)
    ensures up <==> 2 * numerator.Value() > denominator.Value()
                    || (2 * numerator.Value() == denominator.Value() && digit % 2 == 1)
  {
    AddCompareIsExact(numerator.bigits, numerator.exp, numerator.bigits, numerator.exp,
                      denominator.bigits, denominator.exp);
    var result := Bigint.AddCompare(numerator, numerator, denominator);
    up := result > 0 || (result == 0 && digit % 2 != 0);
  }

  /** Stores the last digit, rounded; an overflow ripples up and may add a place. */
  method LastDigit(lead: seq<char>, digit: nat, up: bool) returns (buf: seq<char>, carried: bool)
    requires AllDigits(lead) && digit <= 9
    ensures |buf| == |lead| + 1 && AllDigits(buf)
    ensures DigitsVal(buf) * (if carried then 10 else 1) == DigitsVal(lead) * 10 + digit + (if up then 1 else 0)
    ensures carried ==> DigitsVal(buf) == Pow(10, |lead|)
  {
    carried := false;
    if up && digit == 9 {
      DigitsSnoc(lead, ':');
      buf := PropagateCarry(lead + [':']);
      if buf[0] == ':' {
        OverflowVal(|lead|);
        assert buf[0 := '1'] == ['1'] + seq(|lead|, k => '0');
        buf := buf[0 := '1'];
        carried := true;
      }
    } else {
      var last := if up then digit + 1 else digit;
      DigitsSnoc(lead, DigitChar(last));
      buf := lead + [DigitChar(last)];
    }
  }

  /** No digits requested: only whether the value rounds to one unit of 10^(exp10 + 1). */
  method NoDigits(f: nat, e: int, exp10: int, numerator: Bigint, denominator: Bigint, ghost p: nat)
    returns (buf: seq<char>)
    requires numerator != denominator && numerator.Trimmed() && denominator.Trimmed() && p > 0
    requires ScaledNum(f, e, exp10) < 10 * ScaledDen(e, exp10)
    requires numerator.Value() == p * ScaledNum(f, e, exp10)
    requires denominator.Value() == p * ScaledDen(e, exp10)
    modifies denominator
    ensures buf == ['0'] || buf == ['1']
    ensures DigitsVal(buf) == Rounded(f, e, exp10 + 1)
  {
    denominator.Multiply32(10);
    var up := RoundsUp(numerator, denominator, 0);
    buf := [if up then '1' else '0'];
    assert buf[..0] == [];
    NoDigitsRounding(f, e, exp10, p, numerator.Value(), denominator.Value());
  }

  lemma NoDigitsRounding(f: nat, e: int, x: int, p: nat, num: nat, den: nat)
    requires p > 0 && num == p * ScaledNum(f, e, x) && den == (p * ScaledDen(e, x)) * 10
    requires ScaledNum(f, e, x) < 10 * ScaledDen(e, x)
    ensures Rounded(f, e, x + 1) == if 2 * num > den then 1 else 0
  {
    var a, b := ScaledNum(f, e, x), 10 * ScaledDen(e, x);
    assert num == a * p;
    assert den == b * p;
    MulStrict(a, b, p);
    RoundScale(a, b, p);
    RoundFromDivision(num, den, 0, num);
    CoarserByTen(f, e, x);
  }

  lemma SomeDigitsRounding(f: nat, e: int, x: int, count: nat, p: nat,
                           start: nat, unit: nat, spelled: nat, before: nat, digit: nat, rest: nat)
    requires p > 0 && start == p * ScaledNum(f, e, x) && unit == p * ScaledDen(e, x)
    requires start * Pow(10, count) == spelled * (10 * unit) + before
    requires before == digit * unit + rest && rest < unit
    ensures Rounded(f, e, x - count)
         == spelled * 10 + digit + if 2 * rest > unit || (2 * rest == unit && digit % 2 == 1) then 1 else 0
  {
    DigitStep(start, Pow(10, count), spelled, unit, before, digit, rest);
    ScaledRounding(f, e, x, count, p);
    RoundFromDivision(start * Pow(10, count), unit, spelled * 10 + digit, rest);
  }

  /** The digits proper, on a numerator and denominator already set up. */
  method SomeDigits(f: nat, e: int, exp10: int, count: nat, numerator: Bigint, denominator: Bigint, ghost p: nat)
    returns (buf: seq<char>, carried: bool)
    requires numerator != denominator && numerator.Trimmed() && denominator.Trimmed() && p > 0
    requires NeverMisled(numerator, denominator) && numerator.Value() < 10 * denominator.Value()
    requires numerator.Value() == p * ScaledNum(f, e, exp10)
    requires denominator.Value() == p * ScaledDen(e, exp10)
    modifies numerator
    ensures AllDigits(buf) && |buf| == count + 1
    ensures DigitsVal(buf) * (if carried then 10 else 1) == Rounded(f, e, exp10 - count)
    ensures carried ==> DigitsVal(buf) == Pow(10, count)
  {
    ghost var start, unit := numerator.Value(), denominator.Value();
    var lead := LeadingDigits(numerator, denominator, count);
    ghost var before := numerator.Value();
    var digit := NextDigit(numerator, denominator);
    DigitsBound(lead);
    SomeDigitsRounding(f, e, exp10, count, p, start, unit, DigitsVal(lead), before, digit, numerator.Value());
    var up := RoundsUp(numerator, denominator, digit);
    buf, carried := LastDigit(lead, digit, up);
  }

  /**
    The requested number of digits of f * 2^e, starting at the digit of weight
    10^exp10In.  They spell the value rounded half to even to that many places.
   */
  method Format(f: nat, e: int, predecessorCloser: bool, numDigits: nat, exp10In: int)
    returns (buf: seq<char>, exp10: int)
    requires 0 < f < 0x4000_0000_0000_0000 && -0x4000_0000 < exp10In < 0x4000_0000
    requires ScaledNum(f, e, exp10In) < 10 * ScaledDen(e, exp10In)
    ensures AllDigits(buf) && |buf| == if numDigits == 0 then 1 else numDigits
    ensures
      var unit := exp10In - (numDigits - 1);
      && unit <= exp10 <= unit + 1
      && DigitsVal(buf) * (if exp10 == unit then 1 else 10) == Rounded(f, e, unit)
      && (exp10 != unit ==> numDigits > 0 && DigitsVal(buf) == Pow(10, numDigits - 1))
  {
    var shift := if predecessorCloser then 2 else 1;
    NonNegativeExponent(f, e, exp10In);
    var numerator := new Bigint();
    var denominator := new Bigint();
    SetUp(f, e, shift, exp10In, numerator, denominator);
    exp10 := exp10In - (numDigits - 1);
    if numDigits == 0 {
      buf := NoDigits(f, e, exp10In, numerator, denominator, Pow(2, shift));
    } else {
      if e >= 32 {
        NeverMeets(f, e, exp10In, Pow(2, shift));
      }
      ScaledLess(ScaledNum(f, e, exp10In), ScaledDen(e, exp10In), Pow(2, shift));
      var carried;
      buf, carried := SomeDigits(f, e, exp10In, numDigits - 1, numerator, denominator, Pow(2, shift));
      if carried {
        exp10 := exp10 + 1;
      }
    }
  }

  lemma ScaledLess(n: nat, d: nat, p: nat)
    requires n < 10 * d && p > 0
    ensures p * n < 10 * (p * d)
  {
    MulStrict(n, 10 * d, p);
    MulSwap(10, p, d);
  }

  /** A value of at least one has a non-negative decimal exponent. */
  lemma NonNegativeExponent(f: nat, e: int, exp10: int)
    requires f > 0 && ScaledNum(f, e, exp10) < 10 * ScaledDen(e, exp10)
    ensures e >= 0 ==> exp10 >= 0
  {
    if e >= 0 && exp10 < 0 {
      PowMonotone(10, 1, -exp10);
      MulStrict(0, f, Pow(2, e));
      MulMonotone(1, f * Pow(2, e), Pow(10, -exp10));
      assert false;
    }
  }

  lemma NeverMeets(f: nat, e: int, exp10: int, p: nat)
    requires 0 < f < 0x4000_0000_0000_0000 && e >= 32 && exp10 >= 0 && p > 0
    ensures MissesTenfolds(p * ScaledNum(f, e, exp10), p * ScaledDen(e, exp10))
  {
    var v := f * Pow(2, e);
    assert ScaledNum(f, e, exp10) == v && ScaledDen(e, exp10) == Pow(10, exp10);
    forall j: nat
      ensures (p * v) * Pow(10, j) != p * Pow(10, exp10)
    {
      NotAPowerOfTen(f, e, j, exp10);
      MulAssociate(p, v, Pow(10, j));
      SignOfScaled(v * Pow(10, j), Pow(10, exp10), p);
    }
  }

  lemma ScaledRounding(f: nat, e: int, x: int, k: nat, p: nat)
    requires p > 0
    ensures p * ScaledDen(e, x) > 0 && (p * ScaledNum(f, e, x)) * Pow(10, k) >= 0
    ensures RoundHalfEven((p * ScaledNum(f, e, x)) * Pow(10, k), p * ScaledDen(e, x)) == Rounded(f, e, x - k)
  {
    RoundedFiner(f, e, x, k);
    ScaleBoth(ScaledNum(f, e, x), ScaledDen(e, x), Pow(10, k), p);
  }

  lemma ScaleBoth(n: nat, d: nat, t: nat, p: nat)
    requires d > 0 && p > 0
    ensures p * d > 0 && (p * n) * t >= 0 && n * t >= 0
    ensures RoundHalfEven((p * n) * t, p * d) == RoundHalfEven(n * t, d)
  {
    MulNonNegative(n, t);
    var a, top, bottom := n * t, (p * n) * t, p * d;
    MulAssociate(p, n, t);
    ScaledPair(a, d, p, top, bottom);
  }

  lemma ScaledPair(a: nat, d: nat, p: nat, top: int, bottom: int)
    requires d > 0 && p > 0 && top == p * a && bottom == p * d
    ensures top >= 0 && bottom > 0 && RoundHalfEven(top, bottom) == RoundHalfEven(a, d)
  {
    MulNonNegative(a, p);
    RoundScale(a, d, p);
  }
}
