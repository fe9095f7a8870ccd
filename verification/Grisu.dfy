/**
  Fast digit generation with an error interval.  The scaled value is an integer f
  counting units of 2^-s; the number meant lies within one unit of it.  Digits are
  produced until the requested precision and are delivered only when every number
  in that interval rounds to them.
 */
module Grisu {
  import opened Words
  import opened Powers
  import opened Decimal
  import opened DigitCount
  import opened BinaryValue

  datatype RoundDirection = Unknown | Up | Down

  /** Down (up) when the remainder rounds down (up) whatever the error turns out to be. */
  function GetRoundDirection(divisor: u64, remainder: u64, error: u64): (r: RoundDirection)
    requires remainder < divisor && error < divisor && error < divisor - error
    ensures r == Down <==> 2 * (remainder + error) <= divisor
    ensures r == Up <==> 2 * (remainder - error) >= divisor && 2 * (remainder + error) > divisor
  {
    if remainder <= divisor - remainder && error * 2 <= divisor - remainder * 2 then Down
    else if remainder >= error && remainder - error >= divisor - (remainder - error) then Up
    else Unknown
  }

  datatype DigitsResult = More | Done | Error

  /** Within half a divisor of a multiple of it, with the error to spare on both sides. */
  predicate SafelyNear(scaled: int, divisor: int, error: int, multiple: int)
  {
    && 2 * (scaled - multiple * divisor + error) <= divisor
    && 2 * (multiple * divisor - scaled + error) <= divisor
  }

  /** A remainder too close to half the divisor to be rounded with a given error. */
  predicate NearHalf(divisor: int, remainder: int, error: int)
  {
    divisor - 2 * error < 2 * remainder < divisor + 2 * error
  }

  /** Where a digit cannot be delivered, or no further one produced. */
  predicate Stuck(divisor: int, remainder: int, error: int, integral: bool, last: bool)
  {
    || (!integral && error >= remainder)
    || (last && (NearHalf(divisor, remainder, error) || (!integral && 2 * error >= divisor)))
  }

  /**
    How n rounded digits are stored.  A carry out of the first of them needs a further
    place: in fixed notation one more digit, otherwise an exponent one higher.
   */
  ghost predicate Stored(fixed: bool, n: nat, buf: seq<char>, raised: int)
  {
    var carry := if Stands(buf, raised) == Pow(10, n) then 1 else 0;
    AllDigits(buf) && if fixed then raised == 0 && |buf| == n + carry else raised == carry && |buf| == n
  }

  /** What the digits stand for, in units of the last place, when the exponent was raised. */
  ghost function Stands(buf: seq<char>, raised: int): int
  {
    DigitsVal(buf) * (if raised == 0 then 1 else 10)
  }

  class FixedHandler {
    var buf: seq<char>
    var precision: int
    var exp10: int
    const fixed: bool

    constructor (precision: int, exp10: int, fixed: bool)
      ensures this.buf == [] && this.precision == precision && this.exp10 == exp10 && this.fixed == fixed
    {
      this.buf, this.precision, this.exp10, this.fixed := [], precision, exp10, fixed;
    }

    /** Decides the cases that need no digits at all. */
    method OnStart(divisor: u64, remainder: u64, error: u64, exp: int) returns (r: DigitsResult)
      requires remainder < divisor && error < divisor && error < divisor - error
      modifies this
      ensures exp10 == old(exp10)
      ensures !fixed ==> r == More && precision == old(precision) && buf == old(buf)
      ensures fixed ==> precision == old(precision) + exp + exp10
      ensures fixed && precision != 0 ==> buf == old(buf) && r == (if precision > 0 then More else Done)
      ensures fixed && precision == 0 ==>
        if NearHalf(divisor, remainder, error) then r == Error && buf == old(buf)
        else r == Done && buf == old(buf) + [if 2 * (remainder + error) <= divisor then '0' else '1']
    {
      if !fixed {
        return More;
      }
      precision := precision + exp + exp10;
      if precision > 0 {
        return More;
      }
      if precision < 0 {
        return Done;
      }
      var dir := GetRoundDirection(divisor, remainder, error);
      if dir == Unknown {
        return Error;
      }
      buf := buf + [if dir == Up then '1' else '0'];
      return Done;
    }

    /**
      Stores a digit and, at the last requested one, rounds if that is safe.  The
      rounded digits spell the old number with the new digit, or one more.
     */
    method OnDigit(digit: nat, divisor: u64, remainder: u64, error: u64, integral: bool, ghost scaled: nat)
      returns (r: DigitsResult)
      requires AllDigits(buf) && digit <= 9 && remainder < divisor
      requires scaled == (DigitsVal(buf) * 10 + digit) * divisor + remainder
      requires integral ==> error == 1 && divisor > 2
      modifies this
      ensures precision == old(precision) && AllDigits(buf)
      ensures r == More ==> |buf| < precision && (!integral ==> error < remainder)
      ensures r == Error <==> Stuck(divisor, remainder, error, integral, old(|buf|) + 1 >= precision)
      ensures r == Error || r == More ==>
        |buf| == old(|buf|) + 1 && DigitsVal(buf) == old(DigitsVal(buf)) * 10 + digit && exp10 == old(exp10)
      ensures r == Done ==>
        && old(|buf|) + 1 >= precision
        && Stored(fixed, old(|buf|) + 1, buf, exp10 - old(exp10))
        && SafelyNear(scaled, divisor, error, Stands(buf, exp10 - old(exp10)))
        && (2 * (remainder + error) <= divisor ==> buf == old(buf) + [DigitChar(digit)] && exp10 == old(exp10))
    {
      DigitsSnoc(buf, DigitChar(digit));
      buf := buf + [DigitChar(digit)];
      if !integral && error >= remainder {
        return Error;
      }
      if |buf| < precision {
        return More;
      }
      if !integral {
        if error >= divisor || error >= divisor - error {
          return Error;
        }
      }
      r := Round(divisor, remainder, error, scaled);
    }

    /** Rounds at the last digit, if every value within the error rounds the same way. */
    method Round(divisor: u64, remainder: u64, error: u64, ghost scaled: nat) returns (r: DigitsResult)
      requires buf != [] && AllDigits(buf) && remainder < divisor && error < divisor && error < divisor - error
      requires scaled == DigitsVal(buf) * divisor + remainder
      modifies this
      ensures precision == old(precision) && AllDigits(buf) && r != More
      ensures r == Error <==> NearHalf(divisor, remainder, error)
      ensures r == Error ==> buf == old(buf) && exp10 == old(exp10)
      ensures r == Done ==>
        && Stored(fixed, old(|buf|), buf, exp10 - old(exp10))
        && SafelyNear(scaled, divisor, error, Stands(buf, exp10 - old(exp10)))
        && (2 * (remainder + error) <= divisor ==> buf == old(buf) && exp10 == old(exp10))
    {
      var dir := GetRoundDirection(divisor, remainder, error);
      Nearest(DigitsVal(buf), divisor, remainder, error, scaled);
      DigitsBound(buf);
      if dir != Up {
        return if dir == Down then Done else Error;
      }
      RoundUp();
      return Done;
    }

    /** Adds one in the last place; an all-nines buffer grows a place or a power of ten. */
    method RoundUp()
      requires buf != [] && AllDigits(buf)
      modifies this
      ensures precision == old(precision) && AllDigits(buf)
      ensures Stored(fixed, old(|buf|), buf, exp10 - old(exp10))
      ensures Stands(buf, exp10 - old(exp10)) == old(DigitsVal(buf)) + 1
    {
      var n := |buf| - 1;
      BumpLast(buf);
      buf := PropagateCarry(buf[n := DigitChar(DigitOf(buf[n]) + 1)]);
      CarriesOut(buf);
      if buf[0] > '9' {
        LeadingOne(buf);
        buf := buf[0 := '1'];
        if fixed {
          DigitsSnoc(buf, '0');
          buf := buf + ['0'];
        } else {
          exp10 := exp10 + 1;
        }
      }
    }
  }

  /** Either rounding direction lands safely near. */
  lemma Nearest(spelled: int, divisor: nat, remainder: nat, error: nat, scaled: int)
    requires remainder < divisor && error < divisor - error && scaled == spelled * divisor + remainder
    ensures 2 * (remainder + error) <= divisor ==> SafelyNear(scaled, divisor, error, spelled)
    ensures 2 * (remainder - error) >= divisor ==> SafelyNear(scaled, divisor, error, spelled + 1)
  {
    MulDistribute(spelled, 1, divisor);
  }

  /** Writing 1 over a leading overflow divides the number spelled by ten. */
  lemma LeadingOne(s: seq<char>)
    requires s != [] && s == [':'] + seq(|s| - 1, k => '0')
    ensures AllDigits(s[0 := '1']) && DigitsVal(s[0 := '1']) * 10 == DigitsVal(s)
  {
    OverflowVal(|s| - 1);
    assert s[0 := '1'] == ['1'] + seq(|s| - 1, k => '0');
  }

  /** An overflow is left in front exactly when the number needs one more digit. */
  lemma CarriesOut(s: seq<char>)
    requires s != [] && (AllDigits(s) || (s[0] == ':' && s == [':'] + seq(|s| - 1, k => '0')))
    ensures s[0] == ':' <==> DigitsVal(s) == Pow(10, |s|)
  {
    if s[0] == ':' {
      OverflowVal(|s| - 1);
    } else {
      DigitsBound(s);
    }
  }

  /** Raising the last character by one adds one to the number spelled. */
  lemma BumpLast(s: seq<char>)
    requires s != [] && AllDigits(s)
    ensures
      var t := s[|s| - 1 := DigitChar(DigitOf(s[|s| - 1]) + 1)];
      DigitsOrOverflowAt(t, |t| - 1) && DigitsVal(t) == DigitsVal(s) + 1
  {
    var n := |s| - 1;
    var c := DigitChar(DigitOf(s[n]) + 1);
    assert s[n := c][..n] == s[..n];
  }

  // -------------------------------------------------------- digit generation

  /** How many digits a handler asks for; in fixed notation there may be none, or fewer. */
  ghost function Asked(precision: int, fixed: bool): int
  {
    if !fixed && precision < 1 then 1 else precision
  }

  /**
    The digits delivered: they stand for the multiple of the divisor that is safely
    nearest to the scaled value, and there are as many as were asked for.
   */
  ghost predicate Finished(handler: FixedHandler, exp10In: int, scaled: nat, divisor: nat, error: nat,
                           count: nat, exp: int)
    reads handler
  {
    var n, raised := Asked(handler.precision, handler.fixed), handler.exp10 - exp10In;
    && n >= 0 && exp == count - n
    && (if n == 0 then AllDigits(handler.buf) && |handler.buf| == 1 && raised == 0
        else Stored(handler.fixed, n, handler.buf, raised))
    && SafelyNear(scaled, divisor, error, Stands(handler.buf, raised))
  }

  /** One digit of the integral part, of weight 10^exp. */
  method IntegralDigit(handler: FixedHandler, ghost whole: u32, integral: u32, fractional: u64, one: u64,
                       exp: nat, ghost count: nat, ghost f: nat)
    returns (r: DigitsResult, rest: u32)
    requires AllDigits(handler.buf) && |handler.buf| + exp + 1 == count
    requires handler.buf == [] || |handler.buf| < handler.precision
    requires handler.fixed ==> handler.precision > 0
    requires 0x1_0000_0000 <= one && fractional < one && f == whole * one + fractional && f < TWO64
    requires Pow(10, exp) <= whole && integral < 10 * Pow(10, exp)
    requires whole == DigitsVal(handler.buf) * (10 * Pow(10, exp)) + integral
    modifies handler
    ensures AllDigits(handler.buf) && handler.precision == old(handler.precision) && rest < Pow(10, exp)
    ensures r != Done ==>
      && |handler.buf| == old(|handler.buf|) + 1 && handler.exp10 == old(handler.exp10)
      && whole == DigitsVal(handler.buf) * Pow(10, exp) + rest
    ensures r == More ==> |handler.buf| < handler.precision
    ensures 0 < Pow(10, exp) * one
    ensures r == Done ==> Finished(handler, old(handler.exp10), f, Pow(10, exp) * one, 1, count, exp)
    ensures r == More <==> old(|handler.buf|) + 1 < handler.precision
    ensures r != More ==> (r == Error <==> NearHalf(Pow(10, exp) * one, f % (Pow(10, exp) * one), 1))
  {
    var p := Pow(10, exp);
    IntegralStep(whole, DigitsVal(handler.buf), p, integral, one, fractional);
    var digit := integral / p;
    rest := integral % p;
    var divisor: u64, remainder: u64 := p * one, rest * one + fractional;
    DivModUnique(f, divisor, DigitsVal(handler.buf) * 10 + digit, remainder);
    r := handler.OnDigit(digit, divisor, remainder, 1, true, f);
  }

  /** Digits of the integral part, most significant first; exp counts those left. */
  method IntegralDigits(handler: FixedHandler, whole: u32, fractional: u64, one: u64, count: nat, ghost f: nat)
    returns (r: DigitsResult, exp: nat)
    requires handler.buf == [] && (handler.fixed ==> handler.precision > 0)
    requires 0x1_0000_0000 <= one && fractional < one && f == whole * one + fractional && f < TWO64
    requires count >= 1 && Pow(10, count - 1) <= whole < Pow(10, count)
    modifies handler
    ensures AllDigits(handler.buf) && handler.precision == old(handler.precision)
    ensures r != Done ==> handler.exp10 == old(handler.exp10) && |handler.buf| + exp == count
    ensures r == More ==> exp == 0 && |handler.buf| < handler.precision && DigitsVal(handler.buf) == whole
    ensures 0 <= Pow(10, exp) * one && 0 < Pow(10, count - 1) * one
    ensures r == Done ==> Finished(handler, old(handler.exp10), f, Pow(10, exp) * one, 1, count, exp)
    ensures r == More <==> Asked(handler.precision, handler.fixed) > count
    ensures r != More ==>
      && exp == count - Asked(handler.precision, handler.fixed)
      && (r == Error <==> IntegralFails(f, one, exp))
  {
    exp := count;
    MulStrict(0, Pow(10, count - 1), one);
    var integral: u32 := whole;
    r := More;
    while exp > 0
      invariant r == More && 0 <= exp <= count && |handler.buf| + exp == count && AllDigits(handler.buf)
      invariant handler.precision == old(handler.precision) && handler.exp10 == old(handler.exp10)
      invariant exp == count || |handler.buf| < handler.precision
      invariant integral < Pow(10, exp) && whole == DigitsVal(handler.buf) * Pow(10, exp) + integral
      decreases exp
    {
      PowMonotone(10, exp - 1, count - 1);
      exp := exp - 1;
      r, integral := IntegralDigit(handler, whole, integral, fractional, one, exp, count, f);
      if r != More {
        return;
      }
    }
  }

  /** Before the point: the remainder below the place of the last digit is about half of that place. */
  ghost predicate IntegralFails(f: nat, one: nat, exp: nat)
  {
    var divisor := Pow(10, exp) * one;
    divisor > 0 && NearHalf(divisor, f % divisor, 1)
  }

  /**
    After the point: the error is past the remainder or, at the last digit, past half
    the unit or too large for the direction to be known.
   */
  ghost predicate StuckFraction(scaled: int, one: int, error: int, last: bool)
  {
    one > 0 && Stuck(one, scaled % one, error, false, last)
  }

  /** Of n digits, count of them before the point, the j-th after the point is one that a run fails at. */
  ghost predicate FractionFails(f: nat, one: nat, count: nat, n: nat, j: nat)
  {
    StuckFraction(f * Pow(10, j), one, Pow(10, j), count + j == n)
  }

  ghost predicate NoneFails(f: nat, one: nat, count: nat, n: nat, end: nat)
  {
    forall j: nat :: 1 <= j <= end ==> !FractionFails(f, one, count, n, j)
  }

  /**
    Exactly when a run for n digits fails, count of them before the point: the one
    decision there is fails, or a digit after the point that is on the way.
   */
  ghost predicate RunFails(f: nat, one: nat, count: nat, n: nat)
  {
    && count > 0
    && if n == 0 then NearHalf(Pow(10, count - 1) * one, f / 10, 10)
       else if n <= count then IntegralFails(f, one, count - n)
       else !NoneFails(f, one, count, n, n - count)
  }

  /** fails tells, for every number of digits, whether a run for that many fails. */
  ghost predicate TellsFailure(fails: nat -> bool, f: nat, one: nat, count: nat)
  {
    forall n: nat :: fails(n) <==> RunFails(f, one, count, n)
  }

  /** Splitting off one digit of the integral part. */
  lemma IntegralStep(whole: nat, spelled: int, p: nat, integral: nat, one: nat, fractional: nat)
    requires 0 < p <= whole && integral < 10 * p && whole == spelled * (10 * p) + integral
    requires 2 < one && fractional < one && whole * one + fractional < TWO64
    ensures
      var digit, rest := integral / p, integral % p;
      && 0 <= digit <= 9 && 2 < p * one < TWO64
      && whole == (spelled * 10 + digit) * p + rest
      && 0 <= rest * one && rest * one + fractional < p * one
      && whole * one + fractional == (spelled * 10 + digit) * (p * one) + (rest * one + fractional)
  {
    var digit, rest := integral / p, integral % p;
    TopDigit(spelled, p, integral, digit, rest);
    ScaledSplit(whole, spelled * 10 + digit, p, rest, one, fractional);
    MulMonotone(p, whole, one);
    MulMonotone(1, p, one);
  }

  lemma TopDigit(spelled: int, p: nat, integral: nat, digit: nat, rest: nat)
    requires p > 0 && integral < 10 * p && digit == integral / p && rest == integral % p
    ensures digit <= 9 && rest < p
    ensures spelled * (10 * p) + integral == (spelled * 10 + digit) * p + rest
  {
    assert integral == digit * p + rest;
    if digit >= 10 {
      MulMonotone(10, digit, p);
      assert false;
    }
    MulDistribute(spelled * 10, digit, p);
    MulAssociate(spelled, 10, p);
  }

  lemma ScaledSplit(whole: nat, q: int, p: nat, rest: nat, one: nat, fractional: nat)
    requires whole == q * p + rest && rest < p && fractional < one
    ensures whole * one + fractional == q * (p * one) + (rest * one + fractional)
    ensures 0 <= rest * one && rest * one + fractional < p * one
  {
    MulDistribute(q * p, rest, one);
    MulAssociate(q, p, one);
    MulNonNegative(rest, one);
    MulMonotone(rest + 1, p, one);
    MulDistribute(rest, 1, one);
  }

  /** One fractional digit, after -exp of them: f scaled by 10^-exp is `scaled`. */
  method FractionalDigit(handler: FixedHandler, fractional: u64, one: u64, error: u64, ghost exp: int,
                         ghost count: nat, ghost scaled: nat)
    returns (r: DigitsResult, rest: u64, errorOut: u64)
    requires AllDigits(handler.buf) && |handler.buf| + exp == count && |handler.buf| < handler.precision
    requires 0x1_0000_0000 <= one <= 0x1000_0000_0000_0000 && fractional < one
    requires -18 <= exp <= 0 && error == Pow(10, -exp)
    requires scaled == DigitsVal(handler.buf) * one + fractional
    modifies handler
    ensures AllDigits(handler.buf) && handler.precision == old(handler.precision)
    ensures rest < one && errorOut == Pow(10, -exp + 1)
    ensures r != Done ==>
      && |handler.buf| == old(|handler.buf|) + 1 && handler.exp10 == old(handler.exp10)
      && 10 * scaled == DigitsVal(handler.buf) * one + rest
    ensures r == More ==> |handler.buf| < handler.precision && exp > -18
    ensures r == Done ==> old(|handler.buf|) + 1 == handler.precision
    ensures r == Error <==> StuckFraction(10 * scaled, one, errorOut, old(|handler.buf|) + 1 == handler.precision)
    ensures r == Done ==> Finished(handler, old(handler.exp10), 10 * scaled, one, Pow(10, -exp + 1), count, exp - 1)
  {
    FractionStep(DigitsVal(handler.buf), one, fractional, scaled);
    ErrorFits(-exp);
    var tenfold: u64 := fractional * 10;
    errorOut := error * 10;
    var digit := tenfold / one;
    rest := tenfold % one;
    DivModUnique(10 * scaled, one, DigitsVal(handler.buf) * 10 + digit, rest);
    r := handler.OnDigit(digit, one, rest, errorOut, false, 10 * scaled);
    if r == More {
      ErrorStops(-exp + 1);
    }
  }

  /** What the next digit after the point decides. */
  lemma OneMoreHolds(f: nat, one: nat, count: nat, n: nat, j: nat, scaled: nat)
    requires 0 < count && count + j < n && NoneFails(f, one, count, n, j) && scaled == f * Pow(10, j)
    ensures 10 * scaled == f * Pow(10, j + 1)
    ensures
      if StuckFraction(10 * scaled, one, Pow(10, j + 1), count + j + 1 == n) then RunFails(f, one, count, n)
      else NoneFails(f, one, count, n, j + 1) && (count + j + 1 == n ==> !RunFails(f, one, count, n))
  {
    MulSwap(f, 10, Pow(10, j));
    assert FractionFails(f, one, count, n, j + 1) <==>
           StuckFraction(10 * scaled, one, Pow(10, j + 1), count + j + 1 == n);
  }

  /**
    Digits of the fractional part.  The error grows tenfold with each digit, so
    after at most 19 digits it reaches the unit and the generation stops.
   */
  method FractionalDigits(handler: FixedHandler, fractionalIn: u64, one: u64, ghost count: nat, ghost f: nat)
    returns (r: DigitsResult, exp: int)
    requires AllDigits(handler.buf) && 0 < |handler.buf| == count && count < handler.precision
    requires 0x1_0000_0000 <= one <= 0x1000_0000_0000_0000 && fractionalIn < one
    requires f == DigitsVal(handler.buf) * one + fractionalIn
    modifies handler
    ensures AllDigits(handler.buf) && handler.precision == old(handler.precision)
    ensures r != More && -19 <= exp < 0 && 0 <= f * Pow(10, -exp)
    ensures r == Error ==> handler.exp10 == old(handler.exp10) && |handler.buf| + exp == count
    ensures r == Error <==> RunFails(f, one, count, handler.precision)
    ensures r == Done ==>
      Finished(handler, old(handler.exp10), f * Pow(10, -exp), one, Pow(10, -exp), count, exp)
  {
    var fractional: u64, error: u64 := fractionalIn, 1;
    ghost var scaled: nat := f;
    exp := 0;
    while true
      invariant AllDigits(handler.buf) && |handler.buf| + exp == count && |handler.buf| < handler.precision
      invariant handler.precision == old(handler.precision) && handler.exp10 == old(handler.exp10)
      invariant -18 <= exp <= 0 && error == Pow(10, -exp) && scaled == f * Pow(10, -exp)
      invariant fractional < one && scaled == DigitsVal(handler.buf) * one + fractional
      invariant NoneFails(f, one, count, handler.precision, -exp)
      decreases 18 + exp
    {
      OneMoreHolds(f, one, count, handler.precision, -exp, scaled);
      r, fractional, error := FractionalDigit(handler, fractional, one, error, exp, count, scaled);
      exp, scaled := exp - 1, 10 * scaled;
      if r != More {
        return;
      }
    }
  }

  lemma FractionStep(spelled: int, one: nat, fractional: nat, scaled: nat)
    requires 0 < one && fractional < one && scaled == spelled * one + fractional
    ensures
      var digit, rest := (fractional * 10) / one, (fractional * 10) % one;
      0 <= digit <= 9 && 0 <= rest < one && 10 * scaled == (spelled * 10 + digit) * one + rest
  {
    TopDigit(spelled, one, fractional * 10, (fractional * 10) / one, (fractional * 10) % one);
    MulSwap(spelled, 10, one);
  }

  lemma ErrorFits(j: nat)
    requires j <= 18
    ensures Pow(10, j) * 10 == Pow(10, j + 1) < TWO64
  {
    TenTo19();
    PowMonotone(10, j + 1, 19);
  }

  lemma ErrorStops(j: nat)
    requires Pow(10, j) < 0x1000_0000_0000_0000
    ensures j <= 18
  {
    TenTo19();
    if j >= 19 {
      PowMonotone(10, 19, j);
      assert false;
    }
  }

  lemma UnitRange(s: nat)
    requires 32 <= s <= 60
    ensures 0x1_0000_0000 <= Pow(2, s) <= 0x1000_0000_0000_0000
  {
    PowMonotone(2, 32, s);
    PowMonotone(2, s, 60);
    TwoTo32();
    TwoTo60();
  }

  /** The no-digits decision of OnStart, carried over from the value divided by ten. */
  lemma StartDecision(f: nat, divisor: nat)
    requires f < 10 * divisor
    ensures 2 * (f / 10 + 10) <= divisor ==> SafelyNear(f, 10 * divisor, 1, 0)
    ensures 2 * (f / 10 - 10) >= divisor ==> SafelyNear(f, 10 * divisor, 1, 1)
  {
  }

  lemma StartDelivered(handler: FixedHandler, f: nat, one: nat, count: nat, first: nat)
    requires count >= 1 && first == Pow(10, count - 1) * one && f < 10 * first
    requires handler.fixed && handler.precision == 0
    requires !NearHalf(first, f / 10, 10) && handler.buf == [if 2 * (f / 10 + 10) <= first then '0' else '1']
    ensures Delivered(handler, handler.exp10, f, one, count, count)
  {
    StartDecision(f, first);
    assert handler.buf[..0] == [];
    assert DigitsVal(handler.buf) == DigitOf(handler.buf[0]);
    assert Stands(handler.buf, 0) == if 2 * (f / 10 + 10) <= first then 0 else 1;
    MulAssociate(10, Pow(10, count - 1), one);
    assert Pow(10, count) * one == 10 * first;
    AssembleDelivered(handler, handler.exp10, f, one, count, count);
  }

  /** Splitting the scaled value and sizing the first divisor. */
  lemma IntegralPart(f: nat, one: nat)
    requires 0x1_0000_0000 <= one <= f < TWO64
    ensures
      var whole, count := f / one, NumDigits(f / one);
      && 0 < whole < TWO32 && f == whole * one + f % one && f % one < one
      && Pow(10, count - 1) <= whole < Pow(10, count)
      && 0x1_0000_0000 <= Pow(10, count - 1) * one <= f
      && f < Pow(10, count) * one && f < 10 * (Pow(10, count - 1) * one)
  {
    var whole, count := f / one, NumDigits(f / one);
    assert f == whole * one + f % one;
    if whole == 0 {
      assert false;
    }
    if whole >= TWO32 {
      MulBound(TWO32, whole, 0x1_0000_0000, one);
      assert false;
    }
    NumDigitsBounds(whole);
    MulMonotone(Pow(10, count - 1), whole, one);
    MulMonotone(1, Pow(10, count - 1), one);
    MulMonotone(whole + 1, Pow(10, count), one);
    MulDistribute(whole, 1, one);
    MulAssociate(10, Pow(10, count - 1), one);
  }

  /** What a run of the digit generator guarantees; count is the size of the integral part. */
  ghost predicate RunOutcome(handler: FixedHandler, precisionIn: int, exp10In: int, f: nat, one: nat, count: nat,
                             fails: nat -> bool, r: DigitsResult, exp: int)
    reads handler
  {
    var n := Asked(handler.precision, handler.fixed);
    && AllDigits(handler.buf) && r != More && -19 <= exp
    && handler.precision == precisionIn + (if handler.fixed then count + exp10In else 0)
    && (n < 0 ==> r == Done && handler.buf == [] && exp == count && handler.exp10 == exp10In)
    && (n >= 0 ==> (r == Error <==> fails(n)))
    && (r == Error ==> |handler.buf| + exp == count && handler.exp10 == exp10In)
    && (n >= 0 && r == Done ==> Delivered(handler, exp10In, f, one, count, exp))
  }

  /**
    Generates the digits of f units of 2^-s.  When it is done, the digits are right
    for every number within one unit and as many as were asked for; it reports an
    error, and how far it got, exactly when the run fails.
   */
  method GenDigits(f: u64, s: nat, handler: FixedHandler, ghost fails: nat -> bool) returns (r: DigitsResult, exp: int)
    requires 32 <= s <= 60 && Pow(2, s) <= f && handler.buf == []
    requires TellsFailure(fails, f, Pow(2, s), NumDigits(f / Pow(2, s)))
    modifies handler
    ensures RunOutcome(handler, old(handler.precision), old(handler.exp10), f, Pow(2, s), NumDigits(f / Pow(2, s)),
                       fails, r, exp)
  {
    UnitRange(s);
    r, exp := Generate(f, Pow(2, s), handler, fails);
  }

  method CountIntegral(integral: u32) returns (count: nat)
    ensures count == NumDigits(integral)
  {
    count := CountDigits(integral);
  }

  method Generate(f: u64, one: u64, handler: FixedHandler, ghost fails: nat -> bool) returns (r: DigitsResult, exp: int)
    requires 0x1_0000_0000 <= one <= 0x1000_0000_0000_0000 && one <= f && handler.buf == []
    requires TellsFailure(fails, f, one, NumDigits(f / one))
    modifies handler
    ensures RunOutcome(handler, old(handler.precision), old(handler.exp10), f, one, NumDigits(f / one), fails, r, exp)
  {
    IntegralPart(f, one);
    var integral: u32, fractional: u64 := f / one, f % one;
    var count := CountIntegral(integral);
    exp := count;
    var first: u64 := Pow(10, count - 1) * one;
    r := handler.OnStart(first, f / 10, 10, exp);
    if r != More {
      if r == Done && handler.buf != [] {
        StartDelivered(handler, f, one, count, first);
      }
      return;
    }
    assert fails(Asked(handler.precision, handler.fixed)) <==>
           RunFails(f, one, count, Asked(handler.precision, handler.fixed));
    r, exp := IntegralDigits(handler, integral, fractional, one, count, f);
    if r == More {
      r, exp := FractionalDigits(handler, fractional, one, count, f);
      if r == Done {
        FractionDelivered(handler, old(handler.exp10), f, one, count, exp);
      }
    } else if r == Done {
      AssembleDelivered(handler, old(handler.exp10), f, one, count, exp);
    }
  }

  /** No fractional digits: the scaled value is f itself. */
  lemma AssembleDelivered(handler: FixedHandler, exp10In: int, f: nat, one: nat, count: nat, exp: nat)
    requires 0 <= Pow(10, exp) * one
    requires Finished(handler, exp10In, f, Pow(10, exp) * one, 1, count, exp)
    ensures Delivered(handler, exp10In, f, one, count, exp)
  {
    assert Pow(10, 0) == 1;
  }

  lemma FractionDelivered(handler: FixedHandler, exp10In: int, f: nat, one: nat, count: nat, exp: int)
    requires exp < 0 && 0 <= f * Pow(10, -exp)
    requires Finished(handler, exp10In, f * Pow(10, -exp), one, Pow(10, -exp), count, exp)
    ensures Delivered(handler, exp10In, f, one, count, exp)
  {
    assert Pow(10, 0) * one == one;
  }

  /** Finished, in terms of the scaled value: the last place is worth 10^exp. */
  ghost predicate Delivered(handler: FixedHandler, exp10In: int, f: nat, one: nat, count: nat, exp: int)
    reads handler
  {
    && 0 <= f * Pow(10, Pos(-exp)) && 0 <= Pow(10, Pos(exp)) * one
    && Finished(handler, exp10In, f * Pow(10, Pos(-exp)), Pow(10, Pos(exp)) * one, Pow(10, Pos(-exp)), count, exp)
  }
}
