/**
  Counting decimal digits: by division, and by one table lookup from the position of
  the highest bit.
 */
module DigitCount {
  import opened Words
  import opened Powers

  /** The number of decimal digits of n, one for zero. */
  function NumDigits(n: nat): (d: nat)
    ensures d >= 1
  {
    if n < 10 then 1 else 1 + NumDigits(n / 10)
  }

  lemma {:induction false} NumDigitsBounds(n: nat)
    ensures n < Pow(10, NumDigits(n))
    ensures n > 0 ==> Pow(10, NumDigits(n) - 1) <= n
  {
    if n >= 10 {
      NumDigitsBounds(n / 10);
    }
  }

  /** The digit count is the only one that brackets n. */
  lemma NumDigitsUnique(n: nat, d: nat)
    requires d >= 1 && n < Pow(10, d) && (d > 1 ==> Pow(10, d - 1) <= n)
    ensures NumDigits(n) == d
  {
    NumDigitsBounds(n);
    var m := NumDigits(n);
    if m < d {
      PowMonotone(10, m, d - 1);
    } else if m > d {
      PowMonotone(10, d, m - 1);
    }
  }

  // ----------------------------------------------------- four digits at a time

  lemma FourMore(n: nat)
    requires n >= 10_000
    ensures NumDigits(n) == 4 + NumDigits(n / 10_000)
  {
    assert n / 10 / 10 / 10 / 10 == n / 10_000;
    assert NumDigits(n / 10) == 1 + NumDigits(n / 10 / 10);
    assert NumDigits(n / 10 / 10) == 1 + NumDigits(n / 10 / 10 / 10);
    assert NumDigits(n / 10 / 10 / 10) == 1 + NumDigits(n / 10 / 10 / 10 / 10);
  }

  lemma FewDigits(n: nat)
    ensures 10 <= n < 100 ==> NumDigits(n) == 2
    ensures 100 <= n < 1_000 ==> NumDigits(n) == 3
    ensures 1_000 <= n < 10_000 ==> NumDigits(n) == 4
  {
    assert Pow(10, 1) == 10 && Pow(10, 2) == 100 && Pow(10, 3) == 1_000 && Pow(10, 4) == 10_000;
    if 10 <= n < 100 {
      NumDigitsUnique(n, 2);
    } else if 100 <= n < 1_000 {
      NumDigitsUnique(n, 3);
    } else if 1_000 <= n < 10_000 {
      NumDigitsUnique(n, 4);
    }
  }

  /** For platforms that cannot find the highest bit, and for 128-bit numbers. */
  method CountDigitsByDivision(value: nat) returns (count: nat)
    ensures count == NumDigits(value)
  {
    var n := value;
    count := 1;
    while true
      invariant n >= 0 && count >= 1 && count - 1 + NumDigits(n) == NumDigits(value)
      decreases n
    {
      FewDigits(n);
      if n < 10 {
        return;
      }
      if n < 100 {
        return count + 1;
      }
      if n < 1_000 {
        return count + 2;
      }
      if n < 10_000 {
        return count + 3;
      }
      FourMore(n);
      n, count := n / 10_000, count + 4;
    }
  }

  // ------------------------------------------------------------ by the table

  /** The position of the highest bit. */
  function HighestBit(n: nat): (b: nat)
    requires n > 0
  {
    if n == 1 then 0 else 1 + HighestBit(n / 2)
  }

  lemma {:induction false} HighestBitBounds(n: nat)
    requires n > 0
    ensures Pow(2, HighestBit(n)) <= n < Pow(2, HighestBit(n) + 1)
  {
    if n > 1 {
      HighestBitBounds(n / 2);
    } else {
      assert Pow(2, 0) == 1 && Pow(2, 1) == 2;
    }
  }

  /** For each highest bit, the digit count of the largest number that has it. */
  function Bsr2Log10(b: nat): nat
    requires b < 64
  {
    match b
    case 0 => 1
    case 1 => 1
    case 2 => 1
    case 3 => 2
    case 4 => 2
    case 5 => 2
    case 6 => 3
    case 7 => 3
    case 8 => 3
    case 9 => 4
    case 10 => 4
    case 11 => 4
    case 12 => 4
    case 13 => 5
    case 14 => 5
    case 15 => 5
    case 16 => 6
    case 17 => 6
    case 18 => 6
    case 19 => 7
    case 20 => 7
    case 21 => 7
    case 22 => 7
    case 23 => 8
    case 24 => 8
    case 25 => 8
    case 26 => 9
    case 27 => 9
    case 28 => 9
    case 29 => 10
    case 30 => 10
    case 31 => 10
    case 32 => 10
    case 33 => 11
    case 34 => 11
    case 35 => 11
    case 36 => 12
    case 37 => 12
    case 38 => 12
    case 39 => 13
    case 40 => 13
    case 41 => 13
    case 42 => 13
    case 43 => 14
    case 44 => 14
    case 45 => 14
    case 46 => 15
    case 47 => 15
    case 48 => 15
    case 49 => 16
    case 50 => 16
    case 51 => 16
    case 52 => 16
    case 53 => 17
    case 54 => 17
    case 55 => 17
    case 56 => 18
    case 57 => 18
    case 58 => 18
    case 59 => 19
    case 60 => 19
    case 61 => 19
    case 62 => 19
    case _ => 20
  }

  function ZeroOrPowersOf10(t: nat): nat
    requires t <= 20
  {
    match t
    case 0 => 0
    case 1 => 0
    case 2 => 10
    case 3 => 100
    case 4 => 1_000
    case 5 => 10_000
    case 6 => 100_000
    case 7 => 1_000_000
    case 8 => 10_000_000
    case 9 => 100_000_000
    case 10 => 1_000_000_000
    case 11 => 10_000_000_000
    case 12 => 100_000_000_000
    case 13 => 1_000_000_000_000
    case 14 => 10_000_000_000_000
    case 15 => 100_000_000_000_000
    case 16 => 1_000_000_000_000_000
    case 17 => 10_000_000_000_000_000
    case 18 => 100_000_000_000_000_000
    case 19 => 1_000_000_000_000_000_000
    case _ => 10_000_000_000_000_000_000
  }

  lemma {:induction false} PowersTable(t: nat)
    requires 2 <= t <= 20
    ensures ZeroOrPowersOf10(t) == Pow(10, t - 1)
  {
    if t == 2 {
      assert Pow(10, 1) == 10;
    } else {
      PowersTable(t - 1);
      assert ZeroOrPowersOf10(t) == 10 * ZeroOrPowersOf10(t - 1);
    }
  }

  /** 2^b, from a table of 2^0 to 2^15. */
  function TwoTo(b: nat): nat
    requires b < 80
  {
    LowTwos(b % 16) * (match b / 16 case 0 => 1 case 1 => 0x1_0000 case 2 => 0x1_0000_0000
                                    case 3 => 0x1_0000_0000_0000 case _ => 0x1_0000_0000_0000_0000)
  }

  function LowTwos(k: nat): nat
    requires k < 16
  {
    match k
    case 0 => 1
    case 1 => 2
    case 2 => 4
    case 3 => 8
    case 4 => 16
    case 5 => 32
    case 6 => 64
    case 7 => 128
    case 8 => 256
    case 9 => 512
    case 10 => 1024
    case 11 => 2048
    case 12 => 4096
    case 13 => 8192
    case 14 => 16384
    case _ => 32768
  }

  lemma {:induction false} LowTwosArePowers(k: nat)
    requires k < 16
    ensures LowTwos(k) == Pow(2, k)
  {
    if k > 0 {
      LowTwosArePowers(k - 1);
    }
  }

  lemma HighTwos(k: nat)
    requires k < 5
    ensures Pow(2, 16 * k) == match k case 0 => 1 case 1 => 0x1_0000 case 2 => 0x1_0000_0000
                                      case 3 => 0x1_0000_0000_0000 case _ => 0x1_0000_0000_0000_0000
  {
    if k == 0 {
      assert Pow(2, 16 * k) == 1;
    } else {
      HighTwos(k - 1);
      PowAdd(2, 16 * (k - 1), 16);
      TwoTo16();
    }
  }

  lemma TwoToIsPow(b: nat)
    requires b < 80
    ensures TwoTo(b) == Pow(2, b)
  {
    LowTwosArePowers(b % 16);
    HighTwos(b / 16);
    PowAdd(2, b % 16, 16 * (b / 16));
  }

  /** The table entry is the digit count, or one too many. */
  predicate TableFits(b: nat)
    requires b < 64
  {
    var t := Bsr2Log10(b);
    && 1 <= t <= 20
    && (if t == 1 then TwoTo(b + 1) <= 10
        else b > 0 && TwoTo(b + 1) <= 10 * ZeroOrPowersOf10(t) && ZeroOrPowersOf10(t) <= 10 * TwoTo(b))
  }

  lemma Table0(b: nat) requires 0 <= b < 8 ensures TableFits(b) {}
  lemma Table8(b: nat) requires 8 <= b < 16 ensures TableFits(b) {}
  lemma Table16(b: nat) requires 16 <= b < 24 ensures TableFits(b) {}
  lemma Table24(b: nat) requires 24 <= b < 32 ensures TableFits(b) {}
  lemma Table32(b: nat) requires 32 <= b < 40 ensures TableFits(b) {}
  lemma Table40(b: nat) requires 40 <= b < 44 ensures TableFits(b) {}
  lemma Table44(b: nat) requires 44 <= b < 48 ensures TableFits(b) {}
  lemma Table48(b: nat) requires 48 <= b < 52 ensures TableFits(b) {}
  lemma Table52(b: nat) requires 52 <= b < 56 ensures TableFits(b) {}
  lemma Table56(b: nat) requires 56 <= b < 60 ensures TableFits(b) {}
  lemma Table60(b: nat) requires 60 <= b < 64 ensures TableFits(b) {}

  lemma BsrTableFits(b: nat)
    requires b < 64
    ensures TableFits(b)
  {
    if b < 8 {
      Table0(b);
    } else if b < 16 {
      Table8(b);
    } else if b < 24 {
      Table16(b);
    } else if b < 32 {
      Table24(b);
    } else if b < 40 {
      Table32(b);
    } else if b < 44 {
      Table40(b);
    } else if b < 48 {
      Table44(b);
    } else if b < 52 {
      Table48(b);
    } else if b < 56 {
      Table52(b);
    } else if b < 60 {
      Table56(b);
    } else {
      Table60(b);
    }
  }

  /** What the tables hold, in terms of powers. */
  ghost predicate Brackets(b: nat, t: nat, threshold: nat)
  {
    if t == 1 then threshold == 0 && Pow(2, b + 1) <= 10
    else b > 0 && t > 1 && threshold == Pow(10, t - 1) && Pow(2, b + 1) <= 10 * threshold && threshold <= 10 * Pow(2, b)
  }

  lemma TablesBracket(b: nat)
    requires b < 64
    ensures Bsr2Log10(b) <= 20 && Brackets(b, Bsr2Log10(b), ZeroOrPowersOf10(Bsr2Log10(b)))
  {
    BsrTableFits(b);
    TwoToIsPow(b);
    TwoToIsPow(b + 1);
    if Bsr2Log10(b) > 1 {
      PowersTable(Bsr2Log10(b));
    }
  }

  lemma CountFromBit(n: u64, odd: nat, b: nat, t: nat, threshold: nat)
    requires odd == (if n % 2 == 0 then n + 1 else n) && b == HighestBit(odd) && Brackets(b, t, threshold)
    ensures NumDigits(n) == if n < threshold then t - 1 else t
  {
    HighestBitBounds(odd);
    assert Pow(10, 1) == 10;
    if t > 1 {
      SameBit(n, odd, Pow(2, b - 1));
      TableCount(n, t, Pow(2, b), threshold);
    } else {
      NumDigitsUnique(n, 1);
    }
  }

  /** Setting the lowest bit does not change the highest one. */
  lemma SameBit(n: nat, odd: nat, half: nat)
    requires odd == (if n % 2 == 0 then n + 1 else n) && 2 * half <= odd < 4 * half
    ensures 2 * half <= n < 4 * half
  {
  }

  lemma BitInRange(odd: nat)
    requires 0 < odd <= TWO64 - 1
    ensures HighestBit(odd) < 64
  {
    HighestBitBounds(odd);
    if HighestBit(odd) >= 64 {
      TwoTo64();
      PowMonotone(2, 64, HighestBit(odd));
    }
  }

  lemma TableCount(n: nat, t: nat, low: nat, p: nat)
    requires t >= 2 && p == Pow(10, t - 1) && low <= n < 2 * low
    requires 2 * low <= 10 * p && p <= 10 * low
    ensures NumDigits(n) == if n < p then t - 1 else t
  {
    assert Pow(10, t) == 10 * p;
    if n < p {
      assert t > 2 ==> p == 10 * Pow(10, t - 2);
      NumDigitsUnique(n, t - 1);
    } else {
      NumDigitsUnique(n, t);
    }
  }

  /** The number of decimal digits of a 64-bit number. */
  function CountDigits(n: u64): (r: nat)
    ensures r == NumDigits(n)
  {
    var odd := if n % 2 == 0 then n + 1 else n;
    BitInRange(odd);
    var b := HighestBit(odd);
    TablesBracket(b);
    var t := Bsr2Log10(b);
    CountFromBit(n, odd, b, t, ZeroOrPowersOf10(t));
    t - (if n < ZeroOrPowersOf10(t) then 1 else 0)
  }
}
