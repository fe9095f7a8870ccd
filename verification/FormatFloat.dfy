/**
  Formatting a double with a given precision: the fast generator first, the exact
  one when the fast one cannot decide.  Whichever of them runs, the result is the
  exact value of the double, correctly rounded.
 */
module FormatFloat {
  import opened Words
  import opened Powers
  import opened Decimal
  import opened DigitCount
  import opened BinaryValue
  import opened CachedPowerTable
  import opened CachedPowers
  import opened PowerGaps
  import opened WideMul
  import opened Grisu
  import opened Scaling
  import opened LeadingDigit
  import opened DoubleBits
  import opened Halfway
  import FallbackFormat

  lemma RebasedRounded(f: nat, e: int, q: nat, g: nat, x: int)
    requires g == f * Pow(2, q)
    ensures Rounded(g, e - q, x) == Rounded(f, e, x)
  {
    Rebased(f, e, q, g, x);
    RoundSameRatio(ScaledNum(g, e - q, x), ScaledDen(e - q, x), ScaledNum(f, e, x), ScaledDen(e, x));
  }

  lemma RebasedReaches(f: nat, e: int, q: nat, g: nat, x: int)
    requires g == f * Pow(2, q) && ScaledNum(g, e - q, x) >= ScaledDen(e - q, x)
    ensures ScaledNum(f, e, x) >= ScaledDen(e, x)
  {
    Rebased(f, e, q, g, x);
    if ScaledNum(f, e, x) < ScaledDen(e, x) {
      SmallerRatio(ScaledNum(f, e, x), ScaledDen(e, x), ScaledNum(g, e - q, x), ScaledDen(e - q, x));
    }
  }

  lemma RebasedLess(f: nat, e: int, q: nat, g: nat, x: int)
    requires g == f * Pow(2, q)
    ensures Below(g, e - q, x) ==> Below(f, e, x)
  {
    Rebased(f, e, q, g, x);
    if Below(g, e - q, x) {
      SmallerRatio(ScaledNum(g, e - q, x), ScaledDen(e - q, x), ScaledNum(f, e, x), ScaledDen(e, x));
    }
  }

  // ------------------------------------------------------------- decimal output

  /** buf * 10^exp is `units` units of 10^unit. */
  ghost predicate Spells(buf: seq<char>, exp: int, unit: int, units: nat)
  {
    AllDigits(buf) && exp >= unit && DigitsVal(buf) * Pow(10, exp - unit) == units
  }

  lemma SpellsDirect(buf: seq<char>, exp: int, unit: int, units: nat)
    requires AllDigits(buf) && unit <= exp <= unit + 1
    requires DigitsVal(buf) * (if exp == unit then 1 else 10) == units
    ensures Spells(buf, exp, unit, units)
  {
    assert Pow(10, 0) == 1 && Pow(10, 1) == 10;
  }

  /** Drops trailing zeros, raising the exponent for each. */
  method RemoveTrailingZeros(digits: seq<char>, exp: int, ghost unit: int, ghost units: nat)
    returns (buf: seq<char>, expOut: int)
    requires Spells(digits, exp, unit, units)
    ensures Spells(buf, expOut, unit, units)
    ensures buf <= digits && (buf == [] || buf[|buf| - 1] != '0')
    ensures |digits| - |buf| == expOut - exp
  {
    var n := |digits|;
    expOut := exp;
    assert digits[..n] == digits;
    while n > 0 && digits[n - 1] == '0'
      invariant 0 <= n <= |digits| && |digits| - n == expOut - exp
      invariant Spells(digits[..n], expOut, unit, units)
    {
      DropZero(digits[..n], expOut, unit, units);
      assert digits[..n][..n - 1] == digits[..n - 1];
      n, expOut := n - 1, expOut + 1;
    }
    buf := digits[..n];
  }

  lemma DropZero(s: seq<char>, exp: int, unit: int, units: nat)
    requires s != [] && s[|s| - 1] == '0' && Spells(s, exp, unit, units)
    ensures Spells(s[..|s| - 1], exp + 1, unit, units)
  {
    MulAssociate(DigitsVal(s[..|s| - 1]), 10, Pow(10, exp - unit));
  }

  /** Below one unit by more than half: every coarser unit rounds to zero. */
  lemma {:induction false} FarBelow(f: nat, e: int, x: int, y: int)
    requires ScaledNum(f, e, x) < ScaledDen(e, x) && y > x
    ensures 10 * ScaledNum(f, e, y) < ScaledDen(e, y) && Rounded(f, e, y) == 0
    decreases y - x
  {
    if y > x + 1 {
      FarBelow(f, e, x, y - 1);
    }
    FinerByTen(f, e, y);
    RoundFromDivision(ScaledNum(f, e, y), ScaledDen(e, y), 0, ScaledNum(f, e, y));
  }

  /** Below 10^(x + 1), in the units the exact generator uses. */
  lemma LeadingPlace(f: nat, e: int, x: int)
    requires ScaledNum(f, e, x + 1) < ScaledDen(e, x + 1)
    ensures ScaledNum(f, e, x) < 10 * ScaledDen(e, x)
  {
    FinerByTen(f, e, x + 1);
  }

  // ----------------------------------------------------------------- the method

  const MAX_DOUBLE_DIGITS: nat := 767

  /** Scales a value by a cached power of ten into the range of the digit generator. */
  method Scale(value: Fp, ghost table: int -> Fp)
    returns (scaled: u64, s: nat, pow10: int, ghost base: Fp, ghost shift: nat, ghost power: Fp)
    requires IsDouble(value) && IsTable(table)
    ensures 32 <= s <= 60 && 0x4000_0000_0000_0000 <= scaled && -348 <= pow10 <= 340
    ensures base.f == value.f * Pow(2, shift) && base.e == value.e - shift && base == NormalOf(value)
    ensures power == table(CachedIndex(-60 - (base.e + 64)))
    ensures IsCachedPower(power, pow10) && scaled == Multiply(base.f, power.f) && s == -(base.e + power.e + 64)
    ensures ReachesTrue(base, pow10, scaled, s)
  {
    var normalized;
    normalized, shift := Normalize(value);
    IsNormalOf(value, normalized, shift);
    var cached;
    cached, pow10 := GetCachedPower(-60 - (normalized.e + 64), table);
    base, power := normalized, cached;
    scaled, s := Product(normalized, cached, pow10);
  }

  method Product(base: Fp, power: Fp, ghost k: int) returns (scaled: u64, s: nat)
    requires base.f >= 0x8000_0000_0000_0000 && base.f % 2048 == 0
    requires IsCachedPower(power, k) && Untied(power.f, k) && 32 <= -(base.e + power.e + 64) <= 60
    ensures scaled >= 0x4000_0000_0000_0000 && 32 <= s <= 60
    ensures scaled == Multiply(base.f, power.f) && s == -(base.e + power.e + 64)
    ensures ReachesTrue(base, k, scaled, s)
  {
    scaled, s := Multiply(base.f, power.f), -(base.e + power.e + 64);
    ProductLarge(base.f, power.f);
    Placed(base, power, k, scaled, s);
  }

  /** Scaled by 10^k, the value is at least 10^m. */
  ghost predicate AtLeastPower(base: Fp, k: int, m: nat)
  {
    ScaledNum(base.f, base.e, m - k) >= ScaledDen(base.e, m - k)
  }

  /** Whatever power of ten the scaled value reaches, the true value reaches. */
  ghost predicate ReachesTrue(base: Fp, k: int, scaled: nat, s: nat)
  {
    forall m: nat :: 0 < Pow(10, m) * Pow(2, s) <= scaled ==> AtLeastPower(base, k, m)
  }

  lemma Placed(base: Fp, power: Fp, k: int, scaled: u64, s: nat)
    requires base.f >= 0x8000_0000_0000_0000 && base.f % 2048 == 0
    requires IsCachedPower(power, k) && Untied(power.f, k)
    requires scaled == Multiply(base.f, power.f) && s == -(base.e + power.e + 64) && 32 <= s <= 60
    requires scaled >= 0x4000_0000_0000_0000
    ensures ReachesTrue(base, k, scaled, s)
  {
    forall m: nat | 0 < Pow(10, m) * Pow(2, s) <= scaled
      ensures AtLeastPower(base, k, m)
    {
      Reaches(base.f / 2048, base.e, power, k, scaled, s, m);
    }
  }

  lemma ProductLarge(x: u64, y: u64)
    requires x >= 0x8000_0000_0000_0000 && y >= 0x8000_0000_0000_0000
    ensures Multiply(x, y) >= 0x4000_0000_0000_0000
  {
    MulBound(0x8000_0000_0000_0000, x, 0x8000_0000_0000_0000, y);
  }

  /** The fast generator cannot deliver n digits of a scaled value. */
  ghost predicate Open(scaled: u64, s: nat, n: nat)
  {
    RunFails(scaled, Pow(2, s), NumDigits(scaled / Pow(2, s)), n)
  }

  /**
    The guard of the fast generator's failure to deliver n digits, from the double and
    the table alone: the scaled product and its number of fractional bits.
   */
  ghost predicate Undecided(table: int -> Fp, value: Fp, n: nat)
    requires IsDouble(value)
  {
    var normal := NormalOf(value);
    OpenProduct(normal, table(CachedIndex(-60 - (normal.e + 64))), n)
  }

  ghost predicate OpenProduct(normal: Fp, power: Fp, n: nat)
  {
    var s := -(normal.e + power.e + 64);
    s >= 0 && Open(Multiply(normal.f, power.f), s, n)
  }

  /** lead is the place of the first digit: 10^lead <= f * 2^e < 10^(lead + 1). */
  ghost predicate Leads(f: nat, e: int, lead: int)
  {
    ScaledDen(e, lead) <= ScaledNum(f, e, lead) < 10 * ScaledDen(e, lead)
  }

  /**
    n digits of f * 2^e, rounded half to even at the unit; no digits still take one
    character.  Where rounding up needs a further place, either the exponent is raised
    or a digit is added.  Trimmed digits spell the same without their trailing zeros.
   */
  ghost predicate Delivers(f: nat, e: int, unit: int, n: nat, raises: bool, trimmed: bool, buf: seq<char>, exp: int)
  {
    var units := Rounded(f, e, unit);
    var carry := if n > 0 && units == Pow(10, n) then 1 else 0;
    && Spells(buf, exp, unit, units)
    && |buf| + exp == unit + (if n == 0 then 1 else n) + carry
    && if trimmed then buf == [] || buf[|buf| - 1] != '0' else exp == unit + (if raises then carry else 0)
  }

  /**
    The whole output, for a value whose first digit is at 10^lead and n |-> undecided(n)
    telling where the fast generator fails.  In fixed notation the place rounded to is
    -precision; nothing is delivered if that is above the place before the first digit.
    Otherwise precision digits are delivered; none at all mean one, unless the exact
    generator has to decide, which then rounds one place too early.
   */
  ghost predicate Output(f: nat, e: int, undecided: nat -> bool, precision: nat, fixed: bool, trimmed: bool, lead: int,
                         buf: seq<char>, exp: int)
  {
    var n := precision + lead + 1;
    if fixed && n < 0 then buf == [] && exp == lead + 1 && Rounded(f, e, 0 - precision) == 0
    else if fixed then Delivers(f, e, 0 - precision, n, undecided(n), false, buf, exp)
    else if precision > 0 then Delivers(f, e, lead + 1 - precision, precision, true, trimmed, buf, exp)
    else if undecided(1) then Delivers(f, e, lead + 1, 0, true, trimmed, buf, exp)
    else Delivers(f, e, lead, 1, true, trimmed, buf, exp)
  }

  /** The digits before trailing zeros are dropped. */
  method Digits(value: Fp, predecessorCloser: bool, precision: nat, fixed: bool, ghost table: int -> Fp,
                ghost undecided: nat -> bool)
    returns (buf: seq<char>, exp: int, ghost lead: int)
    requires IsDouble(value) && IsTable(table)
    requires forall n :: undecided(n) <==> Undecided(table, value, n)
    ensures Leads(value.f, value.e, lead)
    ensures Output(value.f, value.e, undecided, precision, fixed, false, lead, buf, exp)
    ensures HalfwayAt(value.f, value.e, lead) ==> undecided(1)
    ensures undecided(1) ==> NearlyHalfway(value.f, value.e, lead)
  {
    var scaled, s, pow10;
    ghost var base, shift, power;
    scaled, s, pow10, base, shift, power := Scale(value, table);
    UndecidedIsOpen(table, value, base, power, scaled, s, undecided);
    buf, exp, lead := DigitsOfScaled(value, predecessorCloser, precision, fixed, scaled, s, pow10, base, shift, power,
                                     undecided);
  }

  /** undecided tells where the fast generator fails on a scaled value. */
  ghost predicate IsOpen(undecided: nat -> bool, scaled: u64, s: nat)
  {
    TellsFailure(undecided, scaled, Pow(2, s), NumDigits(scaled / Pow(2, s)))
  }

  /** From the scaled value on. */
  method DigitsOfScaled(value: Fp, predecessorCloser: bool, precision: nat, fixed: bool, scaled: u64, s: nat,
                        pow10: int, ghost base: Fp, ghost shift: nat, ghost power: Fp, ghost undecided: nat -> bool)
    returns (buf: seq<char>, exp: int, ghost lead: int)
    requires IsDouble(value)
    requires 32 <= s <= 60 && 0x4000_0000_0000_0000 <= scaled && -348 <= pow10 <= 340
    requires base.f == value.f * Pow(2, shift) && base.e == value.e - shift
    requires IsCachedPower(power, pow10) && scaled == Multiply(base.f, power.f) && s == -(base.e + power.e + 64)
    requires ReachesTrue(base, pow10, scaled, s) && IsOpen(undecided, scaled, s)
    ensures Leads(value.f, value.e, lead)
    ensures Output(value.f, value.e, undecided, precision, fixed, false, lead, buf, exp)
    ensures HalfwayAt(value.f, value.e, lead) ==> undecided(1)
    ensures undecided(1) ==> NearlyHalfway(value.f, value.e, lead)
  {
    lead := Located(value, base, shift, power, pow10, scaled, s, undecided);
    buf, exp := Generated(value, predecessorCloser, precision, fixed, scaled, s, pow10, base, shift, power, lead,
                          undecided);
  }

  lemma UndecidedIsOpen(table: int -> Fp, value: Fp, base: Fp, power: Fp, scaled: u64, s: nat, undecided: nat -> bool)
    requires IsDouble(value) && base == NormalOf(value) && power == table(CachedIndex(-60 - (base.e + 64)))
    requires scaled == Multiply(base.f, power.f) && s == -(base.e + power.e + 64)
    requires forall n :: undecided(n) <==> Undecided(table, value, n)
    ensures IsOpen(undecided, scaled, s)
  {
    forall n: nat
      ensures undecided(n) <==> Open(scaled, s, n)
    {
      assert undecided(n) <==> Undecided(table, value, n);
      OpenAt(base, power, scaled, s, n);
    }
  }

  lemma OpenAt(base: Fp, power: Fp, scaled: u64, s: nat, n: nat)
    requires scaled == Multiply(base.f, power.f) && s == -(base.e + power.e + 64)
    ensures OpenProduct(base, power, n) <==> Open(scaled, s, n)
  {
  }

  lemma Located(value: Fp, base: Fp, shift: nat, power: Fp, k: int, scaled: u64, s: nat, undecided: nat -> bool)
    returns (lead: int)
    requires base.f == value.f * Pow(2, shift) && base.e == value.e - shift
    requires IsCachedPower(power, k) && scaled == Multiply(base.f, power.f) && s == -(base.e + power.e + 64)
    requires 32 <= s <= 60 && scaled >= 0x4000_0000_0000_0000
    requires ReachesTrue(base, k, scaled, s) && IsOpen(undecided, scaled, s)
    ensures Leads(value.f, value.e, lead) && LeadIs(lead, k, scaled, s)
    ensures ScaledNum(value.f, value.e, lead + 1) < ScaledDen(value.e, lead + 1)
    ensures HalfwayAt(value.f, value.e, lead) ==> undecided(1)
    ensures undecided(1) ==> NearlyHalfway(value.f, value.e, lead)
  {
    lead := PlaceOf(k, scaled, s);
    Place(value, base, shift, power, k, scaled, s, lead);
    HalfwayUndecided(value, base, shift, power, k, scaled, s, lead, undecided);
  }

  lemma PlaceOf(k: int, scaled: u64, s: nat) returns (lead: int)
    requires 32 <= s <= 60 && 0x4000_0000_0000_0000 <= scaled
    ensures LeadIs(lead, k, scaled, s)
  {
    CountBounds(scaled, s);
    lead := NumDigits(scaled / Pow(2, s)) - k - 1;
  }

  lemma HalfwayUndecided(value: Fp, base: Fp, shift: nat, power: Fp, k: int, scaled: u64, s: nat, lead: int,
                         undecided: nat -> bool)
    requires base.f == value.f * Pow(2, shift) && base.e == value.e - shift
    requires IsCachedPower(power, k) && scaled == Multiply(base.f, power.f) && s == -(base.e + power.e + 64)
    requires 32 <= s <= 60 && scaled >= 0x4000_0000_0000_0000 && LeadIs(lead, k, scaled, s)
    requires IsOpen(undecided, scaled, s)
    ensures HalfwayAt(value.f, value.e, lead) ==> undecided(1)
    ensures undecided(1) ==> NearlyHalfway(value.f, value.e, lead)
  {
    OpenIsHalfway(value, base, shift, power, k, scaled, s, lead + k);
    FirstDigitOpen(undecided, scaled, s, lead + k);
  }

  /** The place of the first digit, from the size of the scaled value. */
  ghost predicate LeadIs(lead: int, k: int, scaled: u64, s: nat)
  {
    lead + k + 1 == NumDigits(scaled / Pow(2, s)) <= 10
  }

  /** The fast generator, then the exact one if that is stuck. */
  method Generated(value: Fp, predecessorCloser: bool, precision: nat, fixed: bool, scaled: u64, s: nat, pow10: int,
                   ghost base: Fp, ghost shift: nat, ghost power: Fp, ghost lead: int, ghost undecided: nat -> bool)
    returns (buf: seq<char>, exp: int)
    requires 0 < value.f < 2 * IMPLICIT_BIT
    requires 32 <= s <= 60 && 0x4000_0000_0000_0000 <= scaled && -348 <= pow10 <= 340
    requires base.f == value.f * Pow(2, shift) && base.e == value.e - shift
    requires IsCachedPower(power, pow10) && scaled == Multiply(base.f, power.f) && s == -(base.e + power.e + 64)
    requires LeadIs(lead, pow10, scaled, s) && Leads(value.f, value.e, lead)
    requires ScaledNum(value.f, value.e, lead + 1) < ScaledDen(value.e, lead + 1)
    requires IsOpen(undecided, scaled, s)
    ensures Output(value.f, value.e, undecided, precision, fixed, false, lead, buf, exp)
  {
    var handler := new FixedHandler(precision, -pow10, fixed);
    UnitRange(s);
    var r;
    r, exp := GenDigits(scaled, s, handler, undecided);
    if r == Error {
      exp := exp + |handler.buf| - pow10 - 1;
      buf, exp := Exact(value, predecessorCloser, handler.precision, exp, precision, fixed, undecided);
    } else {
      WhenDone(handler, value, precision, base, shift, power, pow10, scaled, s, lead, exp, undecided);
      exp := exp + handler.exp10;
      buf := handler.buf;
    }
  }

  /** The fast generator is stuck at the first digit for values about half-way. */
  lemma OpenIsHalfway(value: Fp, base: Fp, shift: nat, power: Fp, k: int, scaled: u64, s: nat, m: nat)
    requires base.f == value.f * Pow(2, shift) && base.e == value.e - shift
    requires IsCachedPower(power, k) && scaled == Multiply(base.f, power.f) && s == -(base.e + power.e + 64)
    requires 32 <= s <= 60 && scaled >= 0x4000_0000_0000_0000 && m + 1 == NumDigits(scaled / Pow(2, s))
    ensures HalfwayAt(value.f, value.e, m - k) ==> IntegralFails(scaled, Pow(2, s), m)
    ensures IntegralFails(scaled, Pow(2, s), m) ==> NearlyHalfway(value.f, value.e, m - k)
  {
    CountBounds(scaled, s);
    MulAssociate(10, Pow(10, m), Pow(2, s));
    StuckIsHalfway(value.f, value.e, shift, base.f, power, k, scaled, s, m);
  }

  /** One digit is undecided by the first digit's remainder alone. */
  lemma FirstDigitOpen(undecided: nat -> bool, scaled: u64, s: nat, m: nat)
    requires IsOpen(undecided, scaled, s) && m + 1 == NumDigits(scaled / Pow(2, s))
    ensures undecided(1) <==> IntegralFails(scaled, Pow(2, s), m)
  {
    assert undecided(1) <==> RunFails(scaled, Pow(2, s), m + 1, 1);
  }

  /** The exact generator, at the place the fast one found. */
  method Exact(value: Fp, predecessorCloser: bool, numDigits: nat, lead: int, ghost precision: nat, ghost fixed: bool,
               ghost undecided: nat -> bool)
    returns (buf: seq<char>, exp: int)
    requires 0 < value.f < 2 * IMPLICIT_BIT && -1000 <= lead <= 1000
    requires ScaledNum(value.f, value.e, lead) < 10 * ScaledDen(value.e, lead)
    requires numDigits == if fixed then precision + lead + 1 else precision
    requires undecided(Asked(numDigits, fixed))
    ensures Output(value.f, value.e, undecided, precision, fixed, false, lead, buf, exp)
  {
    buf, exp := FallbackFormat.Format(value.f, value.e, predecessorCloser, numDigits, lead);
    ghost var unit := lead - (numDigits - 1);
    ExactDelivers(value.f, value.e, unit, numDigits, buf, exp);
  }

  lemma ExactDelivers(f: nat, e: int, unit: int, n: nat, buf: seq<char>, exp: int)
    requires AllDigits(buf) && |buf| == (if n == 0 then 1 else n) && unit <= exp <= unit + 1
    requires DigitsVal(buf) * (if exp == unit then 1 else 10) == Rounded(f, e, unit)
    requires exp != unit ==> n > 0 && DigitsVal(buf) == Pow(10, n - 1)
    ensures Delivers(f, e, unit, n, true, false, buf, exp)
  {
    SpellsDirect(buf, exp, unit, Rounded(f, e, unit));
    DigitsBound(buf);
  }

  /** The fast generator's digits, when it is done. */
  lemma WhenDone(handler: FixedHandler, value: Fp, precision: nat, base: Fp, shift: nat, power: Fp, k: int,
                 scaled: nat, s: nat, lead: int, exp: int, undecided: nat -> bool)
    requires base.f == value.f * Pow(2, shift) && base.e == value.e - shift
    requires IsCachedPower(power, k) && scaled == Multiply(base.f, power.f) && s == -(base.e + power.e + 64)
    requires lead + k + 1 >= 0 && RunOutcome(handler, precision, -k, scaled, Pow(2, s), lead + k + 1, undecided, Done, exp)
    requires ScaledNum(value.f, value.e, lead + 1) < ScaledDen(value.e, lead + 1)
    ensures Output(value.f, value.e, undecided, precision, handler.fixed, false, lead, handler.buf, exp + handler.exp10)
  {
    var n := Asked(handler.precision, handler.fixed);
    if n < 0 {
      NothingDelivered(value.f, value.e, undecided, precision, lead);
    } else {
      DoneDelivers(handler, value, base, shift, power, k, scaled, s, lead + k + 1, exp, n);
      FastOutput(value.f, value.e, undecided, precision, handler.fixed, lead, n, handler.buf, exp + handler.exp10);
    }
  }

  /** Where even the place before the first digit is below the one asked for. */
  lemma NothingDelivered(f: nat, e: int, undecided: nat -> bool, precision: nat, lead: int)
    requires precision + lead + 1 < 0 && ScaledNum(f, e, lead + 1) < ScaledDen(e, lead + 1)
    ensures Output(f, e, undecided, precision, true, false, lead, [], lead + 1)
  {
    FarBelow(f, e, lead + 1, 0 - precision);
  }

  lemma FastOutput(f: nat, e: int, undecided: nat -> bool, precision: nat, fixed: bool, lead: int, n: nat,
                   buf: seq<char>, exp: int)
    requires n == Asked(if fixed then precision + lead + 1 else precision, fixed) && !undecided(n)
    requires Delivers(f, e, lead + 1 - n, n, !fixed, false, buf, exp)
    ensures Output(f, e, undecided, precision, fixed, false, lead, buf, exp)
  {
  }

  lemma DoneDelivers(handler: FixedHandler, value: Fp, base: Fp, shift: nat, power: Fp, k: int, scaled: nat, s: nat,
                     count: nat, exp: int, n: nat)
    requires base.f == value.f * Pow(2, shift) && base.e == value.e - shift
    requires IsCachedPower(power, k) && scaled == Multiply(base.f, power.f) && s == -(base.e + power.e + 64)
    requires Delivered(handler, -k, scaled, Pow(2, s), count, exp) && n == Asked(handler.precision, handler.fixed)
    ensures exp == count - n
    ensures Delivers(value.f, value.e, exp - k, n, !handler.fixed, false, handler.buf, exp + handler.exp10)
  {
    FromDelivered(handler, -k, base, power, k, scaled, s, count, exp);
    RebasedRounded(value.f, value.e, shift, base.f, exp - k);
    FastDelivers(value.f, value.e, exp - k, n, handler.fixed, handler.buf, handler.exp10 + k);
  }

  lemma FastDelivers(f: nat, e: int, unit: int, n: nat, fixed: bool, buf: seq<char>, raised: int)
    requires if n == 0 then AllDigits(buf) && |buf| == 1 && raised == 0 else Stored(fixed, n, buf, raised)
    requires Stands(buf, raised) == Rounded(f, e, unit)
    ensures Delivers(f, e, unit, n, !fixed, false, buf, unit + raised)
  {
    SpellsDirect(buf, unit + raised, unit, Rounded(f, e, unit));
  }

  /** The digit count of the scaled value places the value itself. */
  lemma Place(value: Fp, base: Fp, shift: nat, power: Fp, k: int, scaled: u64, s: nat, lead: int)
    requires base.f == value.f * Pow(2, shift) && base.e == value.e - shift
    requires IsCachedPower(power, k) && scaled == Multiply(base.f, power.f) && s == -(base.e + power.e + 64)
    requires 32 <= s <= 60 && scaled >= 0x4000_0000_0000_0000 && LeadIs(lead, k, scaled, s)
    requires ReachesTrue(base, k, scaled, s)
    ensures ScaledNum(value.f, value.e, lead + 1) < ScaledDen(value.e, lead + 1)
    ensures Leads(value.f, value.e, lead)
  {
    CountBounds(scaled, s);
    PlaceBelow(value.f, value.e, shift, base.f, power, k, scaled, s, lead + k + 1);
    LeadingPlace(value.f, value.e, lead);
    assert AtLeastPower(base, k, lead + k);
    RebasedReaches(value.f, value.e, shift, base.f, lead);
  }

  lemma PlaceBelow(f: nat, e: int, shift: nat, g: u64, power: Fp, k: int, scaled: u64, s: nat, count: nat)
    requires g == f * Pow(2, shift)
    requires IsCachedPower(power, k) && scaled == Multiply(g, power.f) && s == -(e - shift + power.e + 64)
    requires scaled < Pow(10, count) * Pow(2, s)
    ensures Below(f, e, count - k)
  {
    RebasedLess(f, e, shift, g, count - k);
    BelowPower(g, e - shift, power, k, scaled, s, count);
  }

  lemma CountBounds(scaled: u64, s: nat)
    requires 32 <= s <= 60 && 0x4000_0000_0000_0000 <= scaled
    ensures
      var count := NumDigits(scaled / Pow(2, s));
      && 1 <= count <= 10 && scaled < Pow(10, count) * Pow(2, s)
      && 0 < Pow(10, count - 1) * Pow(2, s) <= scaled
  {
    UnitRange(s);
    IntegralPart(scaled, Pow(2, s));
    var whole := scaled / Pow(2, s);
    TenTo10();
    NumDigitsBounds(whole);
    if NumDigits(whole) > 10 {
      PowMonotone(10, 10, NumDigits(whole) - 1);
      assert false;
    }
  }

  /** The delivered digits, in terms of the exact value. */
  lemma FromDelivered(handler: FixedHandler, exp10In: int, base: Fp, power: Fp, k: int, scaled: nat, s: nat,
                      count: nat, exp: int)
    requires IsCachedPower(power, k) && scaled == Multiply(base.f, power.f) && s == -(base.e + power.e + 64)
    requires Delivered(handler, exp10In, scaled, Pow(2, s), count, exp)
    ensures Rounded(base.f, base.e, exp - k) == Stands(handler.buf, handler.exp10 - exp10In)
  {
    DeliveredIsRounded(base.f, base.e, power, k, scaled, s, exp, Stands(handler.buf, handler.exp10 - exp10In));
  }

  // ---------------------------------------------------------------- entry point

  /** What formatting a non-negative finite double promises. */
  ghost predicate Formatted(table: int -> Fp, bits: u64, precision: int, fixed: bool, showpoint: bool,
                            buf: seq<char>, exp: int, lead: int)
    requires bits < 0x7FF0_0000_0000_0000 && (bits > 0 ==> precision >= 0)
  {
    if bits == 0 then
      && AllDigits(buf) && DigitsVal(buf) == 0
      && (if fixed && precision > 0 then |buf| == precision && exp == -precision else |buf| == 1 && exp == 0)
    else
      FormattedAs(Decode(bits), (n: nat) => Undecided(table, Decode(bits), n), precision, fixed, showpoint, buf, exp, lead)
  }

  /** The same for a value: no precision above 767 is looked at. */
  ghost predicate FormattedAs(value: Fp, undecided: nat -> bool, precision: nat, fixed: bool, showpoint: bool,
                              buf: seq<char>, exp: int, lead: int)
  {
    && Leads(value.f, value.e, lead)
    && (precision <= 767 ==>
          Output(value.f, value.e, undecided, precision, fixed, !showpoint, lead, buf, exp))
    && (precision > 767 ==>
          Output(value.f, value.e, undecided, 767, fixed, !showpoint, lead, buf, exp))
    && (HalfwayAt(value.f, value.e, lead) ==> undecided(1))
    && (undecided(1) ==> NearlyHalfway(value.f, value.e, lead))
  }

  /** The digits and decimal exponent of a non-negative finite double at a given precision. */
  method Format(bits: u64, precision: int, fixed: bool, showpoint: bool)
    returns (buf: seq<char>, exp: int, ghost lead: int)
    requires bits < 0x7FF0_0000_0000_0000 && (bits > 0 ==> precision >= 0)
    ensures Formatted(TheTable(), bits, precision, fixed, showpoint, buf, exp, lead)
  {
    TheTableIsTable();
    buf, exp, lead := FormatWith(bits, precision, fixed, showpoint, TheTable());
  }

  /** The same for any function that has the entries of the table. */
  method FormatWith(bits: u64, precision: int, fixed: bool, showpoint: bool, ghost table: int -> Fp)
    returns (buf: seq<char>, exp: int, ghost lead: int)
    requires bits < 0x7FF0_0000_0000_0000 && (bits > 0 ==> precision >= 0) && IsTable(table)
    ensures Formatted(table, bits, precision, fixed, showpoint, buf, exp, lead)
  {
    lead := 0;
    if bits == 0 {
      buf, exp := Zero(precision, fixed);
      return;
    }
    var value := Decode(bits);
    ghost var undecided := (n: nat) => Undecided(table, Decode(bits), n);
    var clamped := if precision > MAX_DOUBLE_DIGITS then MAX_DOUBLE_DIGITS else precision;
    buf, exp, lead := Digits(value, PredecessorCloser(bits), clamped, fixed, table, undecided);
    if !fixed && !showpoint {
      buf, exp := Trim(value.f, value.e, undecided, clamped, lead, buf, exp);
    }
  }

  /** Trimming the digits of general or exponent notation. */
  method Trim(ghost f: nat, ghost e: int, ghost undecided: nat -> bool, ghost precision: nat, ghost lead: int,
              digits: seq<char>, exp: int)
    returns (buf: seq<char>, expOut: int)
    requires Output(f, e, undecided, precision, false, false, lead, digits, exp)
    ensures Output(f, e, undecided, precision, false, true, lead, buf, expOut)
  {
    ghost var unit := if precision > 0 || undecided(1) then lead + 1 - precision else lead;
    buf, expOut := RemoveTrailingZeros(digits, exp, unit, Rounded(f, e, unit));
  }

  method Zero(precision: int, fixed: bool) returns (buf: seq<char>, exp: int)
    ensures AllDigits(buf) && DigitsVal(buf) == 0
    ensures |buf| == if fixed && precision > 0 then precision else 1
    ensures exp == if fixed && precision > 0 then -precision else 0
  {
    if precision <= 0 || !fixed {
      buf, exp := ['0'], 0;
      assert buf[..0] == [];
    } else {
      buf, exp := seq(precision, i => '0'), -precision;
      ZerosVal(precision);
    }
  }
}
