/**
  For every cached power of ten: no 53-bit significand, multiplied by it, comes as
  close to a power of ten as the rounding of the product could hide.  Settled entry
  by entry, by division of numerals.
 */
module PowerGaps {
  import opened Words
  import opened Powers
  import opened CachedPowerTable

  /** No multiple of c by a 53-bit factor lies within 2^52 of n. */
  predicate Clear(c: nat, n: nat)
    requires c > 0
  {
    n / c >= 0x20_0000_0000_0000 || 0x10_0000_0000_0000 < n % c < c - 0x10_0000_0000_0000
  }

  // The numbers are 10^m * 2^s * 2^53 for the two s that give 10^m * 2^s a bit
  // length of 63 or 64.

  /** m is 1, 2 or 3. */
  predicate ClearLow(c: nat)
    requires c > 0
  {
    && Clear(c, 0xA_0000_0000_0000_0000_0000_0000_0000) && Clear(c, 0x14_0000_0000_0000_0000_0000_0000_0000)
    && Clear(c, 0xC_8000_0000_0000_0000_0000_0000_0000) && Clear(c, 0x19_0000_0000_0000_0000_0000_0000_0000)
    && Clear(c, 0xF_A000_0000_0000_0000_0000_0000_0000) && Clear(c, 0x1F_4000_0000_0000_0000_0000_0000_0000)
  }

  /** m is between 3 and 9. */
  predicate ClearHigh(c: nat)
    requires c > 0
  {
    && Clear(c, 0xF_A000_0000_0000_0000_0000_0000_0000) && Clear(c, 0x1F_4000_0000_0000_0000_0000_0000_0000)
    && Clear(c, 0x9_C400_0000_0000_0000_0000_0000_0000) && Clear(c, 0x13_8800_0000_0000_0000_0000_0000_0000)
    && Clear(c, 0xC_3500_0000_0000_0000_0000_0000_0000) && Clear(c, 0x18_6A00_0000_0000_0000_0000_0000_0000)
    && Clear(c, 0xF_4240_0000_0000_0000_0000_0000_0000) && Clear(c, 0x1E_8480_0000_0000_0000_0000_0000_0000)
    && Clear(c, 0x9_8968_0000_0000_0000_0000_0000_0000) && Clear(c, 0x13_12D0_0000_0000_0000_0000_0000_0000)
    && Clear(c, 0xB_EBC2_0000_0000_0000_0000_0000_0000) && Clear(c, 0x17_D784_0000_0000_0000_0000_0000_0000)
    && Clear(c, 0xE_E6B2_8000_0000_0000_0000_0000_0000) && Clear(c, 0x1D_CD65_0000_0000_0000_0000_0000_0000)
  }

  /** The entries around 10^0 are left out where the power of ten is a double itself. */
  predicate EntryClear(i: nat)
    requires i < 87 && Entry(i).f > 0
  {
    (i < 41 || i > 43 ==> ClearLow(Entry(i).f)) && (i < 42 || i > 44 ==> ClearHigh(Entry(i).f))
  }

  lemma Clear0() ensures ClearLow(0xfa8fd5a0081c0288) && ClearHigh(0xfa8fd5a0081c0288) {}
  lemma Clear1() ensures ClearLow(0xbaaee17fa23ebf76) && ClearHigh(0xbaaee17fa23ebf76) {}
  lemma Clear2() ensures ClearLow(0x8b16fb203055ac76) && ClearHigh(0x8b16fb203055ac76) {}
  lemma Clear3() ensures ClearLow(0xcf42894a5dce35ea) && ClearHigh(0xcf42894a5dce35ea) {}
  lemma Clear4() ensures ClearLow(0x9a6bb0aa55653b2d) && ClearHigh(0x9a6bb0aa55653b2d) {}
  lemma Clear5() ensures ClearLow(0xe61acf033d1a45df) && ClearHigh(0xe61acf033d1a45df) {}
  lemma Clear6() ensures ClearLow(0xab70fe17c79ac6ca) && ClearHigh(0xab70fe17c79ac6ca) {}
  lemma Clear7() ensures ClearLow(0xff77b1fcbebcdc4f) && ClearHigh(0xff77b1fcbebcdc4f) {}
  lemma Clear8() ensures ClearLow(0xbe5691ef416bd60c) && ClearHigh(0xbe5691ef416bd60c) {}
  lemma Clear9() ensures ClearLow(0x8dd01fad907ffc3c) && ClearHigh(0x8dd01fad907ffc3c) {}
  lemma Clear10() ensures ClearLow(0xd3515c2831559a83) && ClearHigh(0xd3515c2831559a83) {}
  lemma Clear11() ensures ClearLow(0x9d71ac8fada6c9b5) && ClearHigh(0x9d71ac8fada6c9b5) {}
  lemma Clear12() ensures ClearLow(0xea9c227723ee8bcb) && ClearHigh(0xea9c227723ee8bcb) {}
  lemma Clear13() ensures ClearLow(0xaecc49914078536d) && ClearHigh(0xaecc49914078536d) {}
  lemma Clear14() ensures ClearLow(0x823c12795db6ce57) && ClearHigh(0x823c12795db6ce57) {}
  lemma Clear15() ensures ClearLow(0xc21094364dfb5637) && ClearHigh(0xc21094364dfb5637) {}
  lemma Clear16() ensures ClearLow(0x9096ea6f3848984f) && ClearHigh(0x9096ea6f3848984f) {}
  lemma Clear17() ensures ClearLow(0xd77485cb25823ac7) && ClearHigh(0xd77485cb25823ac7) {}
  lemma Clear18() ensures ClearLow(0xa086cfcd97bf97f4) && ClearHigh(0xa086cfcd97bf97f4) {}
  lemma Clear19() ensures ClearLow(0xef340a98172aace5) && ClearHigh(0xef340a98172aace5) {}
  lemma Clear20() ensures ClearLow(0xb23867fb2a35b28e) && ClearHigh(0xb23867fb2a35b28e) {}
  lemma Clear21() ensures ClearLow(0x84c8d4dfd2c63f3b) && ClearHigh(0x84c8d4dfd2c63f3b) {}
  lemma Clear22() ensures ClearLow(0xc5dd44271ad3cdba) && ClearHigh(0xc5dd44271ad3cdba) {}
  lemma Clear23() ensures ClearLow(0x936b9fcebb25c996) && ClearHigh(0x936b9fcebb25c996) {}
  lemma Clear24() ensures ClearLow(0xdbac6c247d62a584) && ClearHigh(0xdbac6c247d62a584) {}
  lemma Clear25() ensures ClearLow(0xa3ab66580d5fdaf6) && ClearHigh(0xa3ab66580d5fdaf6) {}
  lemma Clear26() ensures ClearLow(0xf3e2f893dec3f126) && ClearHigh(0xf3e2f893dec3f126) {}
  lemma Clear27() ensures ClearLow(0xb5b5ada8aaff80b8) && ClearHigh(0xb5b5ada8aaff80b8) {}
  lemma Clear28() ensures ClearLow(0x87625f056c7c4a8b) && ClearHigh(0x87625f056c7c4a8b) {}
  lemma Clear29() ensures ClearLow(0xc9bcff6034c13053) && ClearHigh(0xc9bcff6034c13053) {}
  lemma Clear30() ensures ClearLow(0x964e858c91ba2655) && ClearHigh(0x964e858c91ba2655) {}
  lemma Clear31() ensures ClearLow(0xdff9772470297ebd) && ClearHigh(0xdff9772470297ebd) {}
  lemma Clear32() ensures ClearLow(0xa6dfbd9fb8e5b88f) && ClearHigh(0xa6dfbd9fb8e5b88f) {}
  lemma Clear33() ensures ClearLow(0xf8a95fcf88747d94) && ClearHigh(0xf8a95fcf88747d94) {}
  lemma Clear34() ensures ClearLow(0xb94470938fa89bcf) && ClearHigh(0xb94470938fa89bcf) {}
  lemma Clear35() ensures ClearLow(0x8a08f0f8bf0f156b) && ClearHigh(0x8a08f0f8bf0f156b) {}
  lemma Clear36() ensures ClearLow(0xcdb02555653131b6) && ClearHigh(0xcdb02555653131b6) {}
  lemma Clear37() ensures ClearLow(0x993fe2c6d07b7fac) && ClearHigh(0x993fe2c6d07b7fac) {}
  lemma Clear38() ensures ClearLow(0xe45c10c42a2b3b06) && ClearHigh(0xe45c10c42a2b3b06) {}
  lemma Clear39() ensures ClearLow(0xaa242499697392d3) && ClearHigh(0xaa242499697392d3) {}
  lemma Clear40() ensures ClearLow(0xfd87b5f28300ca0e) && ClearHigh(0xfd87b5f28300ca0e) {}
  lemma Clear41() ensures ClearHigh(0xbce5086492111aeb) {}
  lemma Clear44() ensures ClearLow(0x9c40000000000000) {}
  lemma Clear45() ensures ClearLow(0xe8d4a51000000000) && ClearHigh(0xe8d4a51000000000) {}
  lemma Clear46() ensures ClearLow(0xad78ebc5ac620000) && ClearHigh(0xad78ebc5ac620000) {}
  lemma Clear47() ensures ClearLow(0x813f3978f8940984) && ClearHigh(0x813f3978f8940984) {}
  lemma Clear48() ensures ClearLow(0xc097ce7bc90715b3) && ClearHigh(0xc097ce7bc90715b3) {}
  lemma Clear49() ensures ClearLow(0x8f7e32ce7bea5c70) && ClearHigh(0x8f7e32ce7bea5c70) {}
  lemma Clear50() ensures ClearLow(0xd5d238a4abe98068) && ClearHigh(0xd5d238a4abe98068) {}
  lemma Clear51() ensures ClearLow(0x9f4f2726179a2245) && ClearHigh(0x9f4f2726179a2245) {}
  lemma Clear52() ensures ClearLow(0xed63a231d4c4fb27) && ClearHigh(0xed63a231d4c4fb27) {}
  lemma Clear53() ensures ClearLow(0xb0de65388cc8ada8) && ClearHigh(0xb0de65388cc8ada8) {}
  lemma Clear54() ensures ClearLow(0x83c7088e1aab65db) && ClearHigh(0x83c7088e1aab65db) {}
  lemma Clear55() ensures ClearLow(0xc45d1df942711d9a) && ClearHigh(0xc45d1df942711d9a) {}
  lemma Clear56() ensures ClearLow(0x924d692ca61be758) && ClearHigh(0x924d692ca61be758) {}
  lemma Clear57() ensures ClearLow(0xda01ee641a708dea) && ClearHigh(0xda01ee641a708dea) {}
  lemma Clear58() ensures ClearLow(0xa26da3999aef774a) && ClearHigh(0xa26da3999aef774a) {}
  lemma Clear59() ensures ClearLow(0xf209787bb47d6b85) && ClearHigh(0xf209787bb47d6b85) {}
  lemma Clear60() ensures ClearLow(0xb454e4a179dd1877) && ClearHigh(0xb454e4a179dd1877) {}
  lemma Clear61() ensures ClearLow(0x865b86925b9bc5c2) && ClearHigh(0x865b86925b9bc5c2) {}
  lemma Clear62() ensures ClearLow(0xc83553c5c8965d3d) && ClearHigh(0xc83553c5c8965d3d) {}
  lemma Clear63() ensures ClearLow(0x952ab45cfa97a0b3) && ClearHigh(0x952ab45cfa97a0b3) {}
  lemma Clear64() ensures ClearLow(0xde469fbd99a05fe3) && ClearHigh(0xde469fbd99a05fe3) {}
  lemma Clear65() ensures ClearLow(0xa59bc234db398c25) && ClearHigh(0xa59bc234db398c25) {}
  lemma Clear66() ensures ClearLow(0xf6c69a72a3989f5c) && ClearHigh(0xf6c69a72a3989f5c) {}
  lemma Clear67() ensures ClearLow(0xb7dcbf5354e9bece) && ClearHigh(0xb7dcbf5354e9bece) {}
  lemma Clear68() ensures ClearLow(0x88fcf317f22241e2) && ClearHigh(0x88fcf317f22241e2) {}
  lemma Clear69() ensures ClearLow(0xcc20ce9bd35c78a5) && ClearHigh(0xcc20ce9bd35c78a5) {}
  lemma Clear70() ensures ClearLow(0x98165af37b2153df) && ClearHigh(0x98165af37b2153df) {}
  lemma Clear71() ensures ClearLow(0xe2a0b5dc971f303a) && ClearHigh(0xe2a0b5dc971f303a) {}
  lemma Clear72() ensures ClearLow(0xa8d9d1535ce3b396) && ClearHigh(0xa8d9d1535ce3b396) {}
  lemma Clear73() ensures ClearLow(0xfb9b7cd9a4a7443c) && ClearHigh(0xfb9b7cd9a4a7443c) {}
  lemma Clear74() ensures ClearLow(0xbb764c4ca7a44410) && ClearHigh(0xbb764c4ca7a44410) {}
  lemma Clear75() ensures ClearLow(0x8bab8eefb6409c1a) && ClearHigh(0x8bab8eefb6409c1a) {}
  lemma Clear76() ensures ClearLow(0xd01fef10a657842c) && ClearHigh(0xd01fef10a657842c) {}
  lemma Clear77() ensures ClearLow(0x9b10a4e5e9913129) && ClearHigh(0x9b10a4e5e9913129) {}
  lemma Clear78() ensures ClearLow(0xe7109bfba19c0c9d) && ClearHigh(0xe7109bfba19c0c9d) {}
  lemma Clear79() ensures ClearLow(0xac2820d9623bf429) && ClearHigh(0xac2820d9623bf429) {}
  lemma Clear80() ensures ClearLow(0x80444b5e7aa7cf85) && ClearHigh(0x80444b5e7aa7cf85) {}
  lemma Clear81() ensures ClearLow(0xbf21e44003acdd2d) && ClearHigh(0xbf21e44003acdd2d) {}
  lemma Clear82() ensures ClearLow(0x8e679c2f5e44ff8f) && ClearHigh(0x8e679c2f5e44ff8f) {}
  lemma Clear83() ensures ClearLow(0xd433179d9c8cb841) && ClearHigh(0xd433179d9c8cb841) {}
  lemma Clear84() ensures ClearLow(0x9e19db92b4e31ba9) && ClearHigh(0x9e19db92b4e31ba9) {}
  lemma Clear85() ensures ClearLow(0xeb96bf6ebadf77d9) && ClearHigh(0xeb96bf6ebadf77d9) {}
  lemma Clear86() ensures ClearLow(0xaf87023b9bf0ee6b) && ClearHigh(0xaf87023b9bf0ee6b) {}

  lemma ClearFrom0(i: nat)
    requires 0 <= i < 8
    ensures Entry(i).f > 0 && EntryClear(i) == true
  {
    match i
    case 0 => Clear0();
    case 1 => Clear1();
    case 2 => Clear2();
    case 3 => Clear3();
    case 4 => Clear4();
    case 5 => Clear5();
    case 6 => Clear6();
    case _ => Clear7();
  }

  lemma ClearFrom8(i: nat)
    requires 8 <= i < 16
    ensures Entry(i).f > 0 && EntryClear(i) == true
  {
    match i
    case 8 => Clear8();
    case 9 => Clear9();
    case 10 => Clear10();
    case 11 => Clear11();
    case 12 => Clear12();
    case 13 => Clear13();
    case 14 => Clear14();
    case _ => Clear15();
  }

  lemma ClearFrom16(i: nat)
    requires 16 <= i < 24
    ensures Entry(i).f > 0 && EntryClear(i) == true
  {
    match i
    case 16 => Clear16();
    case 17 => Clear17();
    case 18 => Clear18();
    case 19 => Clear19();
    case 20 => Clear20();
    case 21 => Clear21();
    case 22 => Clear22();
    case _ => Clear23();
  }

  lemma ClearFrom24(i: nat)
    requires 24 <= i < 32
    ensures Entry(i).f > 0 && EntryClear(i) == true
  {
    match i
    case 24 => Clear24();
    case 25 => Clear25();
    case 26 => Clear26();
    case 27 => Clear27();
    case 28 => Clear28();
    case 29 => Clear29();
    case 30 => Clear30();
    case _ => Clear31();
  }

  lemma ClearFrom32(i: nat)
    requires 32 <= i < 40
    ensures Entry(i).f > 0 && EntryClear(i) == true
  {
    match i
    case 32 => Clear32();
    case 33 => Clear33();
    case 34 => Clear34();
    case 35 => Clear35();
    case 36 => Clear36();
    case 37 => Clear37();
    case 38 => Clear38();
    case _ => Clear39();
  }

  lemma ClearFrom40(i: nat)
    requires 40 <= i < 48
    ensures Entry(i).f > 0 && EntryClear(i) == true
  {
    match i
    case 40 => Clear40();
    case 41 => Clear41();
    case 42 =>
    case 43 =>
    case 44 => Clear44();
    case 45 => Clear45();
    case 46 => Clear46();
    case _ => Clear47();
  }

  lemma ClearFrom48(i: nat)
    requires 48 <= i < 56
    ensures Entry(i).f > 0 && EntryClear(i) == true
  {
    match i
    case 48 => Clear48();
    case 49 => Clear49();
    case 50 => Clear50();
    case 51 => Clear51();
    case 52 => Clear52();
    case 53 => Clear53();
    case 54 => Clear54();
    case _ => Clear55();
  }

  lemma ClearFrom56(i: nat)
    requires 56 <= i < 64
    ensures Entry(i).f > 0 && EntryClear(i) == true
  {
    match i
    case 56 => Clear56();
    case 57 => Clear57();
    case 58 => Clear58();
    case 59 => Clear59();
    case 60 => Clear60();
    case 61 => Clear61();
    case 62 => Clear62();
    case _ => Clear63();
  }

  lemma ClearFrom64(i: nat)
    requires 64 <= i < 72
    ensures Entry(i).f > 0 && EntryClear(i) == true
  {
    match i
    case 64 => Clear64();
    case 65 => Clear65();
    case 66 => Clear66();
    case 67 => Clear67();
    case 68 => Clear68();
    case 69 => Clear69();
    case 70 => Clear70();
    case _ => Clear71();
  }

  lemma ClearFrom72(i: nat)
    requires 72 <= i < 80
    ensures Entry(i).f > 0 && EntryClear(i) == true
  {
    match i
    case 72 => Clear72();
    case 73 => Clear73();
    case 74 => Clear74();
    case 75 => Clear75();
    case 76 => Clear76();
    case 77 => Clear77();
    case 78 => Clear78();
    case _ => Clear79();
  }

  lemma ClearFrom80(i: nat)
    requires 80 <= i < 87
    ensures Entry(i).f > 0 && EntryClear(i) == true
  {
    match i
    case 80 => Clear80();
    case 81 => Clear81();
    case 82 => Clear82();
    case 83 => Clear83();
    case 84 => Clear84();
    case 85 => Clear85();
    case _ => Clear86();
  }

  /** Every entry passes. */
  lemma AllClear(i: nat)
    requires i < 87
    ensures Entry(i).f > 0 && EntryClear(i)
  {
    if i < 8 {
      ClearFrom0(i);
    } else if i < 16 {
      ClearFrom8(i);
    } else if i < 24 {
      ClearFrom16(i);
    } else if i < 32 {
      ClearFrom24(i);
    } else if i < 40 {
      ClearFrom32(i);
    } else if i < 48 {
      ClearFrom40(i);
    } else if i < 56 {
      ClearFrom48(i);
    } else if i < 64 {
      ClearFrom56(i);
    } else if i < 72 {
      ClearFrom64(i);
    } else if i < 80 {
      ClearFrom72(i);
    } else {
      ClearFrom80(i);
    }
  }

  // ------------------------------------------------------------ what follows

  /** The scaled values that are exactly a power of ten. */
  predicate IsTie(m: nat, v: nat)
  {
    match m
    case 1 => v == 0x5000_0000_0000_0000 || v == 0xA000_0000_0000_0000
    case 2 => v == 0x6400_0000_0000_0000 || v == 0xC800_0000_0000_0000
    case 3 => v == 0x7D00_0000_0000_0000 || v == 0xFA00_0000_0000_0000
    case 4 => v == 0x4E20_0000_0000_0000 || v == 0x9C40_0000_0000_0000
    case 5 => v == 0x61A8_0000_0000_0000 || v == 0xC350_0000_0000_0000
    case 6 => v == 0x7A12_0000_0000_0000 || v == 0xF424_0000_0000_0000
    case 7 => v == 0x4C4B_4000_0000_0000 || v == 0x9896_8000_0000_0000
    case 8 => v == 0x5F5E_1000_0000_0000 || v == 0xBEBC_2000_0000_0000
    case 9 => v == 0x7735_9400_0000_0000 || v == 0xEE6B_2800_0000_0000
    case _ => false
  }

  /** The product of 2048 g and c does not round to v. */
  ghost predicate Misses(g: nat, c: nat, v: nat)
  {
    2 * Abs((2048 * g) * c - v * TWO64) > TWO64
  }

  /** Away from the powers of ten that are doubles, no product with c rounds to a tie. */
  ghost predicate Untied(c: nat, k: int)
  {
    forall g: nat, m: nat, v: nat ::
      g < 0x20_0000_0000_0000 && IsTie(m, v) && !(0 <= m - k <= 22) ==> Misses(g, c, v)
  }

  lemma EntryUntied(i: nat)
    requires i < 87
    ensures Untied(Entry(i).f, DecimalExponent(i))
  {
    var c, k := Entry(i).f, DecimalExponent(i);
    forall g: nat, m: nat, v: nat | g < 0x20_0000_0000_0000 && IsTie(m, v) && !(0 <= m - k <= 22)
      ensures Misses(g, c, v)
    {
      AllClear(i);
      MissesTie(i, c, g, m, v);
    }
  }

  lemma MissesTie(i: nat, c: nat, g: nat, m: nat, v: nat)
    requires c >= 0x20_0000_0000_0000 && g < 0x20_0000_0000_0000 && IsTie(m, v)
    requires (i < 41 || i > 43 ==> ClearLow(c)) && (i < 42 || i > 44 ==> ClearHigh(c))
    requires !(0 <= m - DecimalExponent(i) <= 22)
    ensures Misses(g, c, v)
  {
    TieIsClear(i, c, m, v);
    Descale(g, c, v);
    ClearMisses(g, c, v * 0x20_0000_0000_0000);
  }

  lemma TieIsClear(i: nat, c: nat, m: nat, v: nat)
    requires c > 0 && (i < 41 || i > 43 ==> ClearLow(c)) && (i < 42 || i > 44 ==> ClearHigh(c))
    requires IsTie(m, v) && !(0 <= m - DecimalExponent(i) <= 22)
    ensures Clear(c, v * 0x20_0000_0000_0000)
  {
  }

  lemma Descale(g: nat, c: nat, v: nat)
    ensures 2 * Abs((2048 * g) * c - v * TWO64) == 4096 * Abs(g * c - v * 0x20_0000_0000_0000)
  {
    MulAssociate(2048, g, c);
  }

  lemma ClearMisses(g: nat, c: nat, n: nat)
    requires c >= 0x20_0000_0000_0000 && Clear(c, n) && g < 0x20_0000_0000_0000
    ensures Abs(g * c - n) > 0x10_0000_0000_0000
  {
    var q, r := n / c, n % c;
    assert n == q * c + r;
    if g <= q - 1 {
      MulMonotone(g, q - 1, c);
      MulSubtract(q, 1, c);
    } else if g >= q + 1 {
      MulMonotone(q + 1, g, c);
      MulDistribute(q, 1, c);
    }
  }
}
