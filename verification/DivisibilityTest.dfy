/**
  Testing divisibility by an odd number with one wrapping multiplication: multiplying
  by the inverse modulo 2^w sends the multiples of d, and only them, to their
  quotients.
 */
module DivisibilityTest {
  import opened Words
  import opened Powers

  // -------------------------------------------------------- any odd divisor

  /** inverse is the inverse of d modulo m; maxQuotient is the largest quotient below m. */
  predicate IsDivTest(d: nat, inverse: nat, maxQuotient: nat, m: nat)
  {
    m > 1 && d > 0 && (inverse * d) % m == 1 && maxQuotient == (m - 1) / d
  }

  /** The wrapped product times d is the argument again, up to a multiple of m. */
  lemma WrapsBack(x: nat, d: nat, inverse: nat, m: nat) returns (k: int)
    requires m > 1 && (inverse * d) % m == 1
    ensures 0 <= x * inverse && ((x * inverse) % m) * d == x + k * m
  {
    var p, h := x * inverse, (inverse * d) / m;
    MulNonNegative(x, inverse);
    var g := p / m;
    assert p == g * m + p % m;
    assert inverse * d == h * m + 1;
    assert p * d == x + (x * h) * m by {
      MulAssociate(x, inverse, d);
      assert x * (h * m + 1) == (x * h) * m + x;
    }
    assert (g * m) * d == (g * d) * m;
    MulSubtract(p, g * m, d);
    k := x * h - g * d;
    MulSubtract(x * h, g * d, m);
  }

  /** Two numbers below m that differ by a multiple of m are equal. */
  lemma SameResidue(a: nat, b: nat, k: int, m: nat)
    requires a < m && b < m && a == b + k * m
    ensures a == b
  {
    if k > 0 {
      MulMonotone(1, k, m);
      assert false;
    } else if k < 0 {
      MulMonotone(k, -1, m);
      assert false;
    }
  }

  lemma QuotientFits(y: nat, d: nat, m: nat)
    requires m > 1 && d > 0
    ensures y <= (m - 1) / d <==> y * d < m
  {
    var q := (m - 1) / d;
    assert m - 1 == q * d + (m - 1) % d;
    if y <= q {
      MulMonotone(y, q, d);
    } else {
      MulMonotone(q + 1, y, d);
      MulDistribute(q, 1, d);
    }
  }

  /**
    The wrapped product is at most the largest quotient exactly for the multiples of
    d, and is then the quotient.
   */
  lemma Divisible(x: nat, d: nat, inverse: nat, maxQuotient: nat, m: nat)
    requires IsDivTest(d, inverse, maxQuotient, m) && x < m
    ensures 0 <= x * inverse
    ensures (x * inverse) % m <= maxQuotient <==> x % d == 0
    ensures x % d == 0 ==> (x * inverse) % m == x / d
  {
    var k := WrapsBack(x, d, inverse, m);
    var y := (x * inverse) % m;
    QuotientFits(y, d, m);
    if y <= maxQuotient {
      SameResidue(y * d, x, k, m);
      DivModUnique(x, d, y, 0);
    }
    if x % d == 0 {
      Quotient(x, d, inverse, m);
      QuotientFits(x / d, d, m);
    }
  }

  lemma Quotient(x: nat, d: nat, inverse: nat, m: nat)
    requires m > 1 && d > 0 && (inverse * d) % m == 1 && x < m && x % d == 0
    ensures 0 <= x * inverse && (x * inverse) % m == x / d
  {
    var z, h := x / d, (inverse * d) / m;
    MulNonNegative(x, inverse);
    assert x == z * d;
    MulMonotone(1, d, z);
    assert inverse * d == h * m + 1;
    assert (z * d) * inverse == z * (inverse * d);
    assert z * (h * m + 1) == (z * h) * m + z;
    DivModUnique(x * inverse, m, z * h, z);
  }

  // -------------------------------------------------------------- the tables

  datatype DivTest = DivTest(inverse: nat, maxQuotient: nat)

  function DivTestPow5Of32(k: nat): DivTest
    requires k <= 10
  {
    match k
    case 0 => DivTest(0x0000_0001, 0xffff_ffff)
    case 1 => DivTest(0xcccc_cccd, 0x3333_3333)
    case 2 => DivTest(0xc28f_5c29, 0x0a3d_70a3)
    case 3 => DivTest(0x26e9_78d5, 0x020c_49ba)
    case 4 => DivTest(0x3afb_7e91, 0x0068_db8b)
    case 5 => DivTest(0x0bcb_e61d, 0x0014_f8b5)
    case 6 => DivTest(0x68c2_6139, 0x0004_31bd)
    case 7 => DivTest(0xae8d_46a5, 0x0000_d6bf)
    case 8 => DivTest(0x22e9_0e21, 0x0000_2af3)
    case 9 => DivTest(0x3a2e_9c6d, 0x0000_0897)
    case _ => DivTest(0x3ed6_1f49, 0x0000_01b7)
  }

  function DivTestPow5Of64(k: nat): DivTest
    requires k <= 23
  {
    match k
    case 0 => DivTest(0x0000_0000_0000_0001, 0xffff_ffff_ffff_ffff)
    case 1 => DivTest(0xcccc_cccc_cccc_cccd, 0x3333_3333_3333_3333)
    case 2 => DivTest(0x8f5c_28f5_c28f_5c29, 0x0a3d_70a3_d70a_3d70)
    case 3 => DivTest(0x1cac_0831_26e9_78d5, 0x020c_49ba_5e35_3f7c)
    case 4 => DivTest(0xd288_ce70_3afb_7e91, 0x0068_db8b_ac71_0cb2)
    case 5 => DivTest(0x5d4e_8fb0_0bcb_e61d, 0x0014_f8b5_88e3_68f0)
    case 6 => DivTest(0x790f_b656_68c2_6139, 0x0004_31bd_e82d_7b63)
    case 7 => DivTest(0xe503_2477_ae8d_46a5, 0x0000_d6bf_94d5_e57a)
    case 8 => DivTest(0xc767_074b_22e9_0e21, 0x0000_2af3_1dc4_6118)
    case 9 => DivTest(0x8e47_ce42_3a2e_9c6d, 0x0000_0897_05f4_136b)
    case 10 => DivTest(0x4fa7_f60d_3ed6_1f49, 0x0000_01b7_cdfd_9d7b)
    case 11 => DivTest(0x0fee_6469_0c91_3975, 0x0000_0057_f5ff_85e5)
    case 12 => DivTest(0x3662_e0e1_cf50_3eb1, 0x0000_0011_9799_812d)
    case 13 => DivTest(0xa47a_2cf9_f643_3fbd, 0x0000_0003_84b8_4d09)
    case 14 => DivTest(0x5418_6f65_3140_a659, 0x0000_0000_b424_dc35)
    case 15 => DivTest(0x7738_1647_7040_2145, 0x0000_0000_2407_5f3d)
    case 16 => DivTest(0xe4a4_d141_7cd9_a041, 0x0000_0000_0734_aca5)
    case 17 => DivTest(0xc754_29d9_e5c5_200d, 0x0000_0000_0170_ef54)
    case 18 => DivTest(0xc177_3b91_fac1_0669, 0x0000_0000_0049_c977)
    case 19 => DivTest(0x26b1_7250_6559_ce15, 0x0000_0000_000e_c1e4)
    case 20 => DivTest(0xd489_e3a9_adde_c2d1, 0x0000_0000_0002_f394)
    case 21 => DivTest(0x90e8_60bb_892c_8d5d, 0x0000_0000_0000_971d)
    case 22 => DivTest(0x502e_79bf_1b6f_4f79, 0x0000_0000_0000_1e39)
    case _ => DivTest(0xdcd6_1859_6be3_0fe5, 0x0000_0000_0000_060b)
  }

  function FiveTo(k: nat): nat
    requires k <= 23
  {
    match k
    case 0 => 1
    case 1 => 5
    case 2 => 25
    case 3 => 125
    case 4 => 625
    case 5 => 3_125
    case 6 => 15_625
    case 7 => 78_125
    case 8 => 390_625
    case 9 => 1_953_125
    case 10 => 9_765_625
    case 11 => 48_828_125
    case 12 => 244_140_625
    case 13 => 1_220_703_125
    case 14 => 6_103_515_625
    case 15 => 30_517_578_125
    case 16 => 152_587_890_625
    case 17 => 762_939_453_125
    case 18 => 3_814_697_265_625
    case 19 => 19_073_486_328_125
    case 20 => 95_367_431_640_625
    case 21 => 476_837_158_203_125
    case 22 => 2_384_185_791_015_625
    case _ => 11_920_928_955_078_125
  }

  lemma {:induction false} FiveToIsPow(k: nat)
    requires k <= 23
    ensures FiveTo(k) == Pow(5, k)
  {
    if k > 0 {
      FiveToIsPow(k - 1);
      assert FiveTo(k) == 5 * FiveTo(k - 1);
    }
  }

  lemma Table32(k: nat)
    requires k <= 10
    ensures IsDivTest(FiveTo(k), DivTestPow5Of32(k).inverse, DivTestPow5Of32(k).maxQuotient, TWO32)
  {
  }

  lemma Table64Low(k: nat)
    requires k < 12
    ensures IsDivTest(FiveTo(k), DivTestPow5Of64(k).inverse, DivTestPow5Of64(k).maxQuotient, TWO64)
  {
  }

  lemma Table64High(k: nat)
    requires 12 <= k <= 23
    ensures IsDivTest(FiveTo(k), DivTestPow5Of64(k).inverse, DivTestPow5Of64(k).maxQuotient, TWO64)
  {
  }

  lemma Table64(k: nat)
    requires k <= 23
    ensures IsDivTest(FiveTo(k), DivTestPow5Of64(k).inverse, DivTestPow5Of64(k).maxQuotient, TWO64)
  {
    if k < 12 {
      Table64Low(k);
    } else {
      Table64High(k);
    }
  }

  /** Whether 5^exp divides a 32-bit x. */
  function DivisibleByPowerOf5Of32(x: u32, exp: nat): (r: bool)
    requires exp <= 10
    ensures r <==> x % Pow(5, exp) == 0
  {
    Table32(exp);
    FiveToIsPow(exp);
    var test := DivTestPow5Of32(exp);
    Divisible(x, FiveTo(exp), test.inverse, test.maxQuotient, TWO32);
    (x * test.inverse) % TWO32 <= test.maxQuotient
  }

  /** Whether 5^exp divides a 64-bit x. */
  function DivisibleByPowerOf5Of64(x: u64, exp: nat): (r: bool)
    requires exp <= 23
    ensures r <==> x % Pow(5, exp) == 0
  {
    Table64(exp);
    FiveToIsPow(exp);
    var test := DivTestPow5Of64(exp);
    Divisible(x, FiveTo(exp), test.inverse, test.maxQuotient, TWO64);
    (x * test.inverse) % TWO64 <= test.maxQuotient
  }
}
