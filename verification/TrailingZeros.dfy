/**
  Removing trailing decimal zeros from a significand with wrapping multiplications
  in place of divisions by five, the factors of two being shifted out at the end.
 */
module TrailingZeros {
  import opened Words
  import opened Powers
  import opened DivisibilityTest

  // -------------------------------------------------------------- the result

  /** r is n without its trailing zeros, of which at most cap are removed. */
  ghost predicate Stripped(n: nat, r: nat, zeros: nat, cap: nat)
  {
    n == r * Pow(10, zeros) && zeros <= cap && (zeros == cap || r % 10 != 0)
  }

  /** The number of zeros removed is the largest one possible. */
  lemma StrippedIsLargest(n: nat, r: nat, zeros: nat, cap: nat, j: nat)
    requires n > 0 && Stripped(n, r, zeros, cap) && j <= cap
    ensures n % Pow(10, j) == 0 <==> j <= zeros
  {
    if j <= zeros {
      FewerDivide(n, r, zeros, j);
    } else if n % Pow(10, j) == 0 {
      MoreWouldDivide(n, r, zeros, j, n / Pow(10, j));
    }
  }

  lemma FewerDivide(n: nat, r: nat, zeros: nat, j: nat)
    requires n == r * Pow(10, zeros) && j <= zeros
    ensures n % Pow(10, j) == 0
  {
    PowAdd(10, zeros - j, j);
    MulAssociate(r, Pow(10, zeros - j), Pow(10, j));
    DivModUnique(n, Pow(10, j), r * Pow(10, zeros - j), 0);
  }

  lemma MoreWouldDivide(n: nat, r: nat, zeros: nat, j: nat, q: nat)
    requires n == r * Pow(10, zeros) && j > zeros && n == q * Pow(10, j)
    ensures r % 10 == 0
  {
    var p, k := Pow(10, zeros), j - zeros - 1;
    PowAdd(10, k, zeros + 1);
    MulAssociate(q, Pow(10, k), 10 * p);
    MulNonNegative(q, Pow(10, k));
    CancelPower(r, q * Pow(10, k), p);
  }

  lemma CancelPower(r: nat, q: nat, p: nat)
    requires p > 0 && r * p == q * (10 * p)
    ensures r % 10 == 0
  {
    MulAssociate(q, 10, p);
    if r < q * 10 {
      MulStrict(r, q * 10, p);
    } else if r > q * 10 {
      MulStrict(q * 10, r, p);
    }
  }

  /** A right shift. */
  function Shr(m: nat, s: nat): (r: nat)
    ensures r * Pow(2, s) <= m < (r + 1) * Pow(2, s) && r <= m
  {
    ShiftBounds(m, Pow(2, s));
    m / Pow(2, s)
  }

  lemma ShiftBounds(m: nat, p: nat)
    requires p > 0
    ensures 0 <= m / p <= m && (m / p) * p <= m < (m / p + 1) * p
  {
    var q := m / p;
    assert m == q * p + m % p;
    MulDistribute(q, 1, p);
    MulMonotone(1, p, q);
  }

  lemma ShiftExact(m: nat, s: nat, r: nat)
    requires m == r * Pow(2, s)
    ensures Shr(m, s) == r
  {
    DivModUnique(m, Pow(2, s), r, 0);
  }

  /** The number of trailing zero bits. */
  function Ctz(n: nat): (t: nat)
    requires n > 0
    ensures n == Shr(n, t) * Pow(2, t) && Shr(n, t) % 2 == 1
  {
    if n % 2 == 1 then
      ShiftExact(n, 0, n);
      0
    else
      var t := Ctz(n / 2);
      MulSwap(2, Shr(n / 2, t), Pow(2, t));
      ShiftExact(n, t + 1, Shr(n / 2, t));
      t + 1
  }

  // ------------------------------------------------- fives beside twos

  /** n is a * 2^t, and the twos are all there unless t is the cap. */
  ghost predicate SplitTwos(n: nat, a: nat, t: nat, cap: nat)
  {
    n == a * Pow(2, t) && t <= cap && (t < cap ==> a % 2 == 1)
  }

  lemma CappedTwos(n: nat, cap: nat)
    requires n > 0
    ensures
      var t := if Ctz(n) > cap then cap else Ctz(n);
      SplitTwos(n, Shr(n, t), t, cap)
  {
    var c := Ctz(n);
    if c > cap {
      PowAdd(2, c - cap, cap);
      MulAssociate(Shr(n, c), Pow(2, c - cap), Pow(2, cap));
      ShiftExact(n, cap, Shr(n, c) * Pow(2, c - cap));
    }
  }

  /** Factors of two do not help divisibility by 5. */
  lemma {:induction false} FiveAndTwos(a: nat, t: nat)
    ensures 0 <= a * Pow(2, t)
    ensures (a * Pow(2, t)) % 5 == 0 <==> a % 5 == 0
    ensures (a * Pow(2, t)) % 25 == 0 <==> a % 25 == 0
  {
    MulNonNegative(a, Pow(2, t));
    if t == 0 {
      assert Pow(2, 0) == 1;
    } else {
      FiveAndTwos(a, t - 1);
      MulSwap(a, 2, Pow(2, t - 1));
      FiveAndTwo(a * Pow(2, t - 1));
    }
  }

  lemma FiveAndTwo(x: nat)
    ensures (2 * x) % 5 == 0 <==> x % 5 == 0
    ensures (2 * x) % 25 == 0 <==> x % 25 == 0
  {
    TwoMod5(x);
    TwoMod25(x);
  }

  lemma TwoMod5(x: nat)
    ensures (2 * x) % 5 == 0 <==> x % 5 == 0
  {
  }

  lemma TwoMod25(x: nat)
    ensures (2 * x) % 25 == 0 <==> x % 25 == 0
  {
    var k, h := (2 * x) / 25, x / 25;
    if 2 * x == 25 * k {
      Half25(x, k);
    }
    if x == 25 * h {
      Twice25(x, h);
    }
  }

  lemma Half25(x: nat, k: nat)
    requires 2 * x == 25 * k
    ensures x % 25 == 0
  {
    var h := k / 2;
    assert k == 2 * h;
    assert x == 25 * h;
  }

  lemma Twice25(x: nat, h: nat)
    requires x == 25 * h
    ensures (2 * x) % 25 == 0
  {
    assert 2 * x == 25 * (2 * h);
  }

  /** Dividing a five out of a * 2^t. */
  lemma DivideOut(a: nat, t: nat, d: nat)
    requires d > 0 && a % d == 0
    ensures 0 <= a * Pow(2, t) && (a * Pow(2, t)) / d == (a / d) * Pow(2, t)
  {
    MulNonNegative(a, Pow(2, t));
    OutOfProduct(a, a / d, d, Pow(2, t));
  }

  lemma OutOfProduct(a: nat, q: nat, d: nat, p: nat)
    requires d > 0 && a == q * d
    ensures (a * p) / d == q * p
  {
    assert (q * d) * p == (q * p) * d;
    DivModUnique(a * p, d, q * p, 0);
  }

  /** What is left of n after `fives` factors of five are divided out. */
  ghost predicate FivesOut(m: nat, a: nat, t: nat, a0: nat, fives: nat)
  {
    m == a * Pow(2, t) && a0 == a * Pow(5, fives)
  }

  lemma FiveOut(m: nat, a: nat, t: nat, a0: nat, fives: nat)
    requires FivesOut(m, a, t, a0, fives) && m % 5 == 0
    ensures FivesOut(m / 5, a / 5, t, a0, fives + 1)
  {
    FiveAndTwos(a, t);
    DivideOut(a, t, 5);
    MulAssociate(a / 5, 5, Pow(5, fives));
  }

  lemma TwentyFiveOut(m: nat, a: nat, t: nat, a0: nat, fives: nat)
    requires FivesOut(m, a, t, a0, fives) && m % 25 == 0
    ensures FivesOut(m / 25, a / 25, t, a0, fives + 2)
  {
    FiveAndTwos(a, t);
    DivideOut(a, t, 25);
    assert Pow(5, 2) == 25;
    PowAdd(5, 2, fives);
    MulAssociate(a / 25, 25, Pow(5, fives));
  }

  /** Shifting out as many twos as fives leaves the stripped number. */
  lemma ShiftOut(n: nat, m: nat, a: nat, t: nat, a0: nat, fives: nat, cap: nat)
    requires SplitTwos(n, a0, t, cap) && FivesOut(m, a, t, a0, fives) && fives <= t
    requires fives == t || m % 5 != 0
    ensures Stripped(n, Shr(m, fives), fives, cap)
  {
    ShiftedValue(n, m, a, t, a0, fives);
    if fives == t {
      OddPart(a, Pow(5, fives), a0);
    } else {
      FiveAndTwos(a, t);
      FiveAndTwos(a, t - fives);
      NoZero(a * Pow(2, t - fives));
    }
  }

  /** A factor of an odd number is odd, so it has no trailing zero. */
  lemma OddPart(a: nat, five: nat, a0: nat)
    requires a0 == a * five
    ensures a * Pow(2, 0) == a && (a0 % 2 == 1 ==> a % 10 != 0)
  {
    assert Pow(2, 0) == 1;
    if a % 2 == 0 {
      EvenProduct(five, a);
    }
  }

  lemma NoZero(x: nat)
    requires x % 5 != 0
    ensures x % 10 != 0
  {
  }

  lemma ShiftedValue(n: nat, m: nat, a: nat, t: nat, a0: nat, fives: nat)
    requires n == a0 * Pow(2, t) && FivesOut(m, a, t, a0, fives) && fives <= t
    ensures Shr(m, fives) == a * Pow(2, t - fives)
    ensures n == (a * Pow(2, t - fives)) * Pow(10, fives)
  {
    var high, low := Pow(2, t - fives), Pow(2, fives);
    PowAdd(2, t - fives, fives);
    PowMulBase(2, 5, fives);
    TwosAndFives(a, Pow(5, fives), high, low);
    MulAssociate(a, high, low);
    MulNonNegative(a, high);
    ShiftExact(m, fives, a * high);
  }

  lemma TwosAndFives(a: int, five: int, high: int, low: int)
    ensures (a * five) * (high * low) == (a * high) * (low * five)
  {
    MulExchange(a, five, high, low);
    assert five * low == low * five;
  }

  // ------------------------------------------------------------ 32 bits

  const MOD_INV1: nat := 0xcccc_cccd
  const MAX_QUOTIENT1: nat := 0x3333_3333
  const MOD_INV2: nat := 0xc28f_5c29
  const MAX_QUOTIENT2: nat := 0x0a3d_70a3
  const MOD_INV8: nat := 0xc767_074b_22e9_0e21
  const MAX_QUOTIENT8: nat := 0x2af3_1dc4_6118

  lemma TestFive(x: u32)
    ensures (x * MOD_INV1) % TWO32 <= MAX_QUOTIENT1 <==> x % 5 == 0
    ensures x % 5 == 0 ==> (x * MOD_INV1) % TWO32 == x / 5
  {
    Divisible(x, 5, MOD_INV1, MAX_QUOTIENT1, TWO32);
  }

  lemma TestTwentyFive(x: u32)
    ensures (x * MOD_INV2) % TWO32 <= MAX_QUOTIENT2 <==> x % 25 == 0
    ensures x % 25 == 0 ==> (x * MOD_INV2) % TWO32 == x / 25
  {
    Divisible(x, 25, MOD_INV2, MAX_QUOTIENT2, TWO32);
  }

  /** Strips at most seven zeros from a 32-bit number. */
  method RemoveTrailingZeros32(n: u32) returns (r: u32, s: nat)
    requires n > 0
    ensures Stripped(n, r, s, 7)
  {
    var t := Ctz(n);
    if t > 7 {
      t := 7;
    }
    CappedTwos(n, 7);
    ghost var a0, a := Shr(n, t), 0;
    var m: u32;
    m, s, a := DivideOutFives(n, t, a0);
    ShiftOut(n, m, a, t, a0, s, 7);
    r := Shr(m, s);
  }

  /** Divides out at most t fives, two at a time while possible. */
  method DivideOutFives(n: u32, t: nat, ghost a0: nat) returns (m: u32, s: nat, ghost a: nat)
    requires n == a0 * Pow(2, t)
    ensures s <= t && FivesOut(m, a, t, a0, s) && (s == t || m % 5 != 0)
  {
    m, s, a := n, 0, a0;
    assert Pow(5, 0) == 1;
    while s < t - 1
      invariant 0 <= s <= t && FivesOut(m, a, t, a0, s)
      decreases t - s
    {
      TestTwentyFive(m);
      if (m * MOD_INV2) % TWO32 > MAX_QUOTIENT2 {
        break;
      }
      TwentyFiveOut(m, a, t, a0, s);
      m, a, s := (m * MOD_INV2) % TWO32, a / 25, s + 2;
    }
    assert s < t - 1 ==> m % 25 != 0;
    TestFive(m);
    if s < t && (m * MOD_INV1) % TWO32 <= MAX_QUOTIENT1 {
      FiveOnce(m);
      FiveOut(m, a, t, a0, s);
      m, a, s := (m * MOD_INV1) % TWO32, a / 5, s + 1;
    }
  }

  lemma FiveOnce(m: nat)
    requires m % 5 == 0
    ensures (m / 5) % 5 == 0 <==> m % 25 == 0
  {
  }

  // ------------------------------------------------------------ 64 bits

  /** Divides out at most t fives, one at a time. */
  method DivideOutSingly(n: u32, t: nat, ghost a0: nat) returns (m: u32, s: nat, ghost a: nat)
    requires n == a0 * Pow(2, t)
    ensures s <= t && FivesOut(m, a, t, a0, s) && (s == t || m % 5 != 0)
  {
    m, s, a := n, 0, a0;
    assert Pow(5, 0) == 1;
    while s < t
      invariant 0 <= s <= t && FivesOut(m, a, t, a0, s)
    {
      TestFive(m);
      if (m * MOD_INV1) % TWO32 > MAX_QUOTIENT1 {
        break;
      }
      FiveOut(m, a, t, a0, s);
      m, a, s := (m * MOD_INV1) % TWO32, a / 5, s + 1;
    }
  }

  lemma TestFiveTo8(x: u64)
    ensures (x * MOD_INV8) % TWO64 <= MAX_QUOTIENT8 <==> x % 390_625 == 0
    ensures x % 390_625 == 0 ==> (x * MOD_INV8) % TWO64 == x / 390_625
  {
    Divisible(x, 390_625, MOD_INV8, MAX_QUOTIENT8, TWO64);
  }

  /** Eight zeros at once, then the rest of a 32-bit quotient. */
  method FromQuotient(n: u64, candidate: u64, t: nat) returns (r: u64, s: nat)
    requires 0 < n <= 0xFFFF_FFFF_FFFF_FFFF / 1000 && 8 <= t <= 16 && SplitTwos(n, Shr(n, t), t, 16)
    requires n == candidate * 390_625
    ensures Stripped(n, r, s, 16)
  {
    ghost var b := QuotientTwos(n, candidate, t);
    var quotient: u32 := candidate / 256;
    var m, more;
    ghost var a;
    m, more, a := DivideOutSingly(quotient, t - 8, b);
    ShiftOut(quotient, m, a, t - 8, b, more, 8);
    r, s := Shr(m, more), 8 + more;
    EightMore(n, quotient, r, more);
  }

  /** Fives on one side, twos on the other: what they have in common. */
  lemma {:induction false} Coprime(c: nat, fives: nat, a: nat, t: nat) returns (b: nat)
    requires c * Pow(5, fives) == a * Pow(2, t)
    ensures a == b * Pow(5, fives) && c == b * Pow(2, t)
    decreases fives
  {
    if fives == 0 {
      assert Pow(5, 0) == 1;
      b := a;
    } else {
      OneFive(c, Pow(5, fives - 1), a, t);
      b := Coprime(c, fives - 1, a / 5, t);
      MulSwap(b, 5, Pow(5, fives - 1));
    }
  }

  lemma OneFive(c: nat, p: nat, a: nat, t: nat)
    requires c * (5 * p) == a * Pow(2, t)
    ensures a % 5 == 0 && c * p == (a / 5) * Pow(2, t)
  {
    MulSwap(c, 5, p);
    MulNonNegative(c, p);
    MultipleOf5(c * p);
    FiveAndTwos(a, t);
    DivideOut(a, t, 5);
  }

  lemma MultipleOf5(x: nat)
    ensures (5 * x) % 5 == 0 && (5 * x) / 5 == x
  {
  }

  lemma QuotientTwos(n: u64, candidate: u64, t: nat) returns (b: nat)
    requires n <= 0xFFFF_FFFF_FFFF_FFFF / 1000 && 8 <= t <= 16 && SplitTwos(n, Shr(n, t), t, 16)
    requires n == candidate * 390_625
    ensures n == (candidate / 256) * 100_000_000 && SplitTwos(candidate / 256, b, t - 8, 8)
  {
    assert Pow(5, 8) == 390_625 && Pow(2, 8) == 256;
    b := Coprime(candidate, 8, Shr(n, t), t);
    PowAdd(2, t - 8, 8);
    MulAssociate(b, Pow(2, t - 8), 256);
    MulNonNegative(b, Pow(2, t - 8));
    OddCofactor(b, Pow(5, 8));
    Cancel256(b * Pow(2, t - 8));
  }

  lemma Cancel256(x: nat)
    ensures (x * 256) / 256 == x
  {
  }

  lemma OddCofactor(b: nat, five: nat)
    ensures (b * five) % 2 == 1 ==> b % 2 == 1
  {
    if b % 2 == 0 {
      EvenProduct(five, b);
    }
  }

  lemma EightMore(n: nat, quotient: nat, r: nat, more: nat)
    requires n == quotient * 100_000_000 && Stripped(quotient, r, more, 8)
    ensures Stripped(n, r, 8 + more, 16)
  {
    PowAdd(10, more, 8);
    assert Pow(10, 8) == 100_000_000;
    MulAssociate(r, Pow(10, more), 100_000_000);
  }

  /** The state of the remainder path after i fives. */
  ghost predicate RemainderFives(n: nat, q: nat, rest: nat, i: nat)
  {
    i <= 7 && n == q * 100_000_000 + rest * Pow(5, i)
  }

  /** The whole number that the quotient and what is left of the remainder stand for. */
  lemma Rejoined(n: nat, q: nat, rest: nat, i: nat) returns (m: nat, y: nat)
    requires RemainderFives(n, q, rest, i)
    ensures n == m * Pow(5, i) && m == rest + y * Pow(2, i) && y == q * Pow(10, 8 - i) && m % 5 == rest % 5
  {
    var five, two := Pow(5, i), Pow(2, i);
    PowMulBase(2, 5, i);
    PowAdd(10, 8 - i, i);
    assert Pow(10, 8) == 100_000_000;
    y := q * Pow(10, 8 - i);
    m := rest + y * two;
    MulDistribute(rest, y * two, five);
    MulAssociate(y, two, five);
    MulAssociate(q, Pow(10, 8 - i), Pow(10, i));
    MulSwap(q, 10, Pow(10, 7 - i));
    assert y == 10 * (q * Pow(10, 7 - i));
    MulAssociate(10, q * Pow(10, 7 - i), two);
    DropFives(rest, q * Pow(10, 7 - i) * two);
  }

  lemma DropFives(rest: nat, x: int)
    ensures (rest + 10 * x) % 5 == rest % 5
  {
  }

  lemma ShiftSum(rest: nat, y: nat, i: nat)
    ensures Shr(rest + y * Pow(2, i), i) == Shr(rest, i) + y
  {
    var p, q := Pow(2, i), Shr(rest, i);
    MulDistribute(q, y, p);
    MulDistribute(q, 1, p);
    DivModUnique(rest + y * p, p, q + y, rest - q * p);
  }

  ghost function Joined(rest: nat, q: nat, i: nat): nat
    requires i <= 8
  {
    MulNonNegative(q, Pow(10, 8 - i));
    Shr(rest, i) + q * Pow(10, 8 - i)
  }

  /** Stopping after i fives. */
  lemma FinishRemainder(n: nat, t: nat, q: nat, rest: nat, i: nat)
    requires SplitTwos(n, Shr(n, t), t, 16) && RemainderFives(n, q, rest, i) && i <= t
    requires i == t || rest % 5 != 0 || (i == 7 && n % 390_625 != 0)
    ensures Stripped(n, Joined(rest, q, i), i, 16)
  {
    var m, y := Rejoined(n, q, rest, i);
    var b := Coprime(m, i, Shr(n, t), t);
    ShiftSum(rest, y, i);
    if i == 7 && m % 5 == 0 {
      EighthFive(n, m);
    }
    ShiftOut(n, m, b, t, Shr(n, t), i, 16);
  }

  lemma EighthFive(n: nat, m: nat)
    requires n == m * Pow(5, 7) && m % 5 == 0
    ensures n % 390_625 == 0
  {
    assert Pow(5, 7) == 78_125;
    assert m == 5 * (m / 5);
  }

  /** The wrapped product that tests for a factor of five and divides it out. */
  function TimesInverse(x: u32): (y: u32)
    ensures y <= MAX_QUOTIENT1 <==> x % 5 == 0
    ensures x % 5 == 0 ==> y == x / 5
  {
    TestFive(x);
    (x * MOD_INV1) % TWO32
  }

  lemma NextFive(n: nat, q: nat, rest: u32, i: nat)
    requires RemainderFives(n, q, rest, i) && rest % 5 == 0 && i < 7
    ensures RemainderFives(n, q, TimesInverse(rest), i + 1)
  {
    MulAssociate(rest / 5, 5, Pow(5, i));
  }

  lemma SmallTens()
    ensures Pow(10, 8) == 100_000_000 && Pow(10, 7) == 10_000_000 && Pow(10, 6) == 1_000_000
    ensures Pow(10, 5) == 100_000 && Pow(10, 4) == 10_000 && Pow(10, 3) == 1_000
    ensures Pow(10, 2) == 100 && Pow(10, 1) == 10
  {
  }

  /** Fewer than eight zeros: they are all in the last eight digits. */
  method FromRemainder(n: u64, t: nat) returns (r: nat, s: nat)
    requires 0 < n <= 0xFFFF_FFFF_FFFF_FFFF / 1000 && SplitTwos(n, Shr(n, t), t, 16)
    requires t >= 8 ==> n % 390_625 != 0
    ensures Stripped(n, r, s, 16)
  {
    var quotient: u32 := n / 100_000_000;
    var remainder := LastEight(n, quotient);
    assert Pow(5, 0) == 1;
    SmallTens();
    if t == 0 || TimesInverse(remainder) > MAX_QUOTIENT1 {
      FinishRemainder(n, t, quotient, remainder, 0);
      return n, 0;
    }
    NextFive(n, quotient, remainder, 0);
    remainder := TimesInverse(remainder);
    if t == 1 || TimesInverse(remainder) > MAX_QUOTIENT1 {
      FinishRemainder(n, t, quotient, remainder, 1);
      return Shr(remainder, 1) + quotient * 10_000_000, 1;
    }
    NextFive(n, quotient, remainder, 1);
    remainder := TimesInverse(remainder);
    if t == 2 || TimesInverse(remainder) > MAX_QUOTIENT1 {
      FinishRemainder(n, t, quotient, remainder, 2);
      return Shr(remainder, 2) + quotient * 1_000_000, 2;
    }
    NextFive(n, quotient, remainder, 2);
    remainder := TimesInverse(remainder);
    r, s := FromThird(n, t, quotient, remainder);
  }

  /** The same, from the third zero on. */
  method FromThird(n: u64, t: nat, quotient: u32, remainderIn: u32) returns (r: nat, s: nat)
    requires SplitTwos(n, Shr(n, t), t, 16) && RemainderFives(n, quotient, remainderIn, 3) && t >= 3
    requires t >= 8 ==> n % 390_625 != 0
    ensures Stripped(n, r, s, 16)
  {
    var remainder := remainderIn;
    SmallTens();
    if t == 3 || TimesInverse(remainder) > MAX_QUOTIENT1 {
      FinishRemainder(n, t, quotient, remainder, 3);
      return Shr(remainder, 3) + quotient * 100_000, 3;
    }
    NextFive(n, quotient, remainder, 3);
    remainder := TimesInverse(remainder);
    if t == 4 || TimesInverse(remainder) > MAX_QUOTIENT1 {
      FinishRemainder(n, t, quotient, remainder, 4);
      return Shr(remainder, 4) + quotient * 10_000, 4;
    }
    NextFive(n, quotient, remainder, 4);
    remainder := TimesInverse(remainder);
    r, s := FromFifth(n, t, quotient, remainder);
  }

  /** And from the fifth. */
  method FromFifth(n: u64, t: nat, quotient: u32, remainderIn: u32) returns (r: nat, s: nat)
    requires SplitTwos(n, Shr(n, t), t, 16) && RemainderFives(n, quotient, remainderIn, 5) && t >= 5
    requires t >= 8 ==> n % 390_625 != 0
    ensures Stripped(n, r, s, 16)
  {
    var remainder := remainderIn;
    SmallTens();
    if t == 5 || TimesInverse(remainder) > MAX_QUOTIENT1 {
      FinishRemainder(n, t, quotient, remainder, 5);
      return Shr(remainder, 5) + quotient * 1_000, 5;
    }
    NextFive(n, quotient, remainder, 5);
    remainder := TimesInverse(remainder);
    if t == 6 || TimesInverse(remainder) > MAX_QUOTIENT1 {
      FinishRemainder(n, t, quotient, remainder, 6);
      return Shr(remainder, 6) + quotient * 100, 6;
    }
    NextFive(n, quotient, remainder, 6);
    remainder := TimesInverse(remainder);
    FinishRemainder(n, t, quotient, remainder, 7);
    return Shr(remainder, 7) + quotient * 10, 7;
  }

  /** n modulo 10^8, by a 32-bit product and a difference cut to 32 bits. */
  function LastEight(n: u64, quotient: u32): (r: u32)
    requires n <= 0xFFFF_FFFF_FFFF_FFFF / 1000 && quotient == n / 100_000_000
    ensures n == quotient * 100_000_000 + r && r < 100_000_000
  {
    WrappedRemainder(n);
    (n - (100_000_000 * quotient) % TWO32) % TWO32
  }

  /** The product may wrap, the difference does not. */
  lemma WrappedRemainder(n: u64)
    requires n <= 0xFFFF_FFFF_FFFF_FFFF / 1000
    ensures (n - (100_000_000 * (n / 100_000_000)) % TWO32) % TWO32 == n % 100_000_000
  {
    var x, y := 100_000_000 * (n / 100_000_000), n % 100_000_000;
    assert n == x + y;
    assert x == (x / TWO32) * TWO32 + x % TWO32;
    DivModUnique(n - x % TWO32, TWO32, x / TWO32, y);
  }

  /** Strips at most sixteen zeros from a significand of at most (2^64 - 1) / 1000. */
  method RemoveTrailingZeros64(n: u64) returns (r: nat, s: nat)
    requires 0 < n <= 0xFFFF_FFFF_FFFF_FFFF / 1000
    ensures Stripped(n, r, s, 16)
  {
    var t := Ctz(n);
    if t > 16 {
      t := 16;
    }
    CappedTwos(n, 16);
    TestFiveTo8(n);
    if t >= 8 {
      var candidate: u64 := (n * MOD_INV8) % TWO64;
      if candidate <= MAX_QUOTIENT8 {
        r, s := FromQuotient(n, candidate, t);
        return;
      }
    }
    r, s := FromRemainder(n, t);
  }
}
