/**
  The cached powers of ten: entry i approximates 10^(8i - 348) as f * 2^e with a
  64-bit significand.  Beside the table stands a 128-bit approximation of the same
  powers, computed entry by entry from its neighbour, against which the rounding of
  every entry is settled by plain arithmetic on numerals.
 */
module CachedPowerTable {
  import opened Words

  datatype Fp = Fp(f: u64, e: int)

  const FIRST_DECIMAL_EXPONENT: int := -348

  function DecimalExponent(i: nat): int { 8 * i - 348 }

  function Entry(i: nat): Fp
    requires i < 87
  {
    match i
    case 0 => Fp(0xfa8fd5a0081c0288, -1220)
    case 1 => Fp(0xbaaee17fa23ebf76, -1193)
    case 2 => Fp(0x8b16fb203055ac76, -1166)
    case 3 => Fp(0xcf42894a5dce35ea, -1140)
    case 4 => Fp(0x9a6bb0aa55653b2d, -1113)
    case 5 => Fp(0xe61acf033d1a45df, -1087)
    case 6 => Fp(0xab70fe17c79ac6ca, -1060)
    case 7 => Fp(0xff77b1fcbebcdc4f, -1034)
    case 8 => Fp(0xbe5691ef416bd60c, -1007)
    case 9 => Fp(0x8dd01fad907ffc3c, -980)
    case 10 => Fp(0xd3515c2831559a83, -954)
    case 11 => Fp(0x9d71ac8fada6c9b5, -927)
    case 12 => Fp(0xea9c227723ee8bcb, -901)
    case 13 => Fp(0xaecc49914078536d, -874)
    case 14 => Fp(0x823c12795db6ce57, -847)
    case 15 => Fp(0xc21094364dfb5637, -821)
    case 16 => Fp(0x9096ea6f3848984f, -794)
    case 17 => Fp(0xd77485cb25823ac7, -768)
    case 18 => Fp(0xa086cfcd97bf97f4, -741)
    case 19 => Fp(0xef340a98172aace5, -715)
    case 20 => Fp(0xb23867fb2a35b28e, -688)
    case 21 => Fp(0x84c8d4dfd2c63f3b, -661)
    case 22 => Fp(0xc5dd44271ad3cdba, -635)
    case 23 => Fp(0x936b9fcebb25c996, -608)
    case 24 => Fp(0xdbac6c247d62a584, -582)
    case 25 => Fp(0xa3ab66580d5fdaf6, -555)
    case 26 => Fp(0xf3e2f893dec3f126, -529)
    case 27 => Fp(0xb5b5ada8aaff80b8, -502)
    case 28 => Fp(0x87625f056c7c4a8b, -475)
    case 29 => Fp(0xc9bcff6034c13053, -449)
    case 30 => Fp(0x964e858c91ba2655, -422)
    case 31 => Fp(0xdff9772470297ebd, -396)
    case 32 => Fp(0xa6dfbd9fb8e5b88f, -369)
    case 33 => Fp(0xf8a95fcf88747d94, -343)
    case 34 => Fp(0xb94470938fa89bcf, -316)
    case 35 => Fp(0x8a08f0f8bf0f156b, -289)
    case 36 => Fp(0xcdb02555653131b6, -263)
    case 37 => Fp(0x993fe2c6d07b7fac, -236)
    case 38 => Fp(0xe45c10c42a2b3b06, -210)
    case 39 => Fp(0xaa242499697392d3, -183)
    case 40 => Fp(0xfd87b5f28300ca0e, -157)
    case 41 => Fp(0xbce5086492111aeb, -130)
    case 42 => Fp(0x8cbccc096f5088cc, -103)
    case 43 => Fp(0xd1b71758e219652c, -77)
    case 44 => Fp(0x9c40000000000000, -50)
    case 45 => Fp(0xe8d4a51000000000, -24)
    case 46 => Fp(0xad78ebc5ac620000, 3)
    case 47 => Fp(0x813f3978f8940984, 30)
    case 48 => Fp(0xc097ce7bc90715b3, 56)
    case 49 => Fp(0x8f7e32ce7bea5c70, 83)
    case 50 => Fp(0xd5d238a4abe98068, 109)
    case 51 => Fp(0x9f4f2726179a2245, 136)
    case 52 => Fp(0xed63a231d4c4fb27, 162)
    case 53 => Fp(0xb0de65388cc8ada8, 189)
    case 54 => Fp(0x83c7088e1aab65db, 216)
    case 55 => Fp(0xc45d1df942711d9a, 242)
    case 56 => Fp(0x924d692ca61be758, 269)
    case 57 => Fp(0xda01ee641a708dea, 295)
    case 58 => Fp(0xa26da3999aef774a, 322)
    case 59 => Fp(0xf209787bb47d6b85, 348)
    case 60 => Fp(0xb454e4a179dd1877, 375)
    case 61 => Fp(0x865b86925b9bc5c2, 402)
    case 62 => Fp(0xc83553c5c8965d3d, 428)
    case 63 => Fp(0x952ab45cfa97a0b3, 455)
    case 64 => Fp(0xde469fbd99a05fe3, 481)
    case 65 => Fp(0xa59bc234db398c25, 508)
    case 66 => Fp(0xf6c69a72a3989f5c, 534)
    case 67 => Fp(0xb7dcbf5354e9bece, 561)
    case 68 => Fp(0x88fcf317f22241e2, 588)
    case 69 => Fp(0xcc20ce9bd35c78a5, 614)
    case 70 => Fp(0x98165af37b2153df, 641)
    case 71 => Fp(0xe2a0b5dc971f303a, 667)
    case 72 => Fp(0xa8d9d1535ce3b396, 694)
    case 73 => Fp(0xfb9b7cd9a4a7443c, 720)
    case 74 => Fp(0xbb764c4ca7a44410, 747)
    case 75 => Fp(0x8bab8eefb6409c1a, 774)
    case 76 => Fp(0xd01fef10a657842c, 800)
    case 77 => Fp(0x9b10a4e5e9913129, 827)
    case 78 => Fp(0xe7109bfba19c0c9d, 853)
    case 79 => Fp(0xac2820d9623bf429, 880)
    case 80 => Fp(0x80444b5e7aa7cf85, 907)
    case 81 => Fp(0xbf21e44003acdd2d, 933)
    case 82 => Fp(0x8e679c2f5e44ff8f, 960)
    case 83 => Fp(0xd433179d9c8cb841, 986)
    case 84 => Fp(0x9e19db92b4e31ba9, 1013)
    case 85 => Fp(0xeb96bf6ebadf77d9, 1039)
    case _ => Fp(0xaf87023b9bf0ee6b, 1066)
  }

  /** 10^(8i - 348) * 2^(64 - e), cut off to 128 bits. */
  function Wide(i: nat): nat
    requires i < 87
  {
    match i
    case 0 => 0xfa8fd5a0_081c0288_1732c869_cd60e434
    case 1 => 0xbaaee17f_a23ebf76_5d79bcf0_0d2df633
    case 2 => 0x8b16fb20_3055ac76_4c3bcb50_21afcc21
    case 3 => 0xcf42894a_5dce35ea_52064cac_828675a2
    case 4 => 0x9a6bb0aa_55653b2d_47b233c9_2125365e
    case 5 => 0xe61acf03_3d1a45df_6fb92487_298e33a6
    case 6 => 0xab70fe17_c79ac6ca_6dbd630a_48aaf3f5
    case 7 => 0xff77b1fc_bebcdc4f_25e8e89c_13bb0f61
    case 8 => 0xbe5691ef_416bd60c_23cc986b_c656d541
    case 9 => 0x8dd01fad_907ffc3b_ae3da7d9_7f6792d6
    case 10 => 0xd3515c28_31559a83_0d5a5b44_ca873df0
    case 11 => 0x9d71ac8f_ada6c9b5_6f773fc3_603db49b
    case 12 => 0xea9c2277_23ee8bcb_465e15a9_79c1cac7
    case 13 => 0xaecc4991_4078536d_58fae9f7_73886e09
    case 14 => 0x823c1279_5db6ce57_76c53d08_d6b7084d
    case 15 => 0xc2109436_4dfb5636_985915fc_12f542d5
    case 16 => 0x9096ea6f_3848984f_3ff0d2c8_5def7616
    case 17 => 0xd77485cb_25823ac7_7d633293_366b827a
    case 18 => 0xa086cfcd_97bf97f3_80e8a40e_ccd22898
    case 19 => 0xef340a98_172aace4_86fb8971_16c87c22
    case 20 => 0xb23867fb_2a35b28d_e99e619a_4f23aa36
    case 21 => 0x84c8d4df_d2c63f3b_29ecd9f4_0041e06a
    case 22 => 0xc5dd4427_1ad3cdba_40eff1e1_853f29f0
    case 23 => 0x936b9fce_bb25c995_cab10dd9_00beec2b
    case 24 => 0xdbac6c24_7d62a583_df45f746_b74abf2b
    case 25 => 0xa3ab6658_0d5fdaf5_c13e60d0_d2e0ebb0
    case 26 => 0xf3e2f893_dec3f126_5a89dba3_c3efcced
    case 27 => 0xb5b5ada8_aaff80b8_0d819992_132456b1
    case 28 => 0x87625f05_6c7c4a8b_11471cd7_64ad496c
    case 29 => 0xc9bcff60_34c13052_fc89b393_dd02f0ac
    case 30 => 0x964e858c_91ba2655_3a6a07f8_d510f869
    case 31 => 0xdff97724_70297ebd_59787e2b_93bc56ed
    case 32 => 0xa6dfbd9f_b8e5b88e_cb4ccd50_0f6bb94c
    case 33 => 0xf8a95fcf_88747d94_75a44c63_97ce9121
    case 34 => 0xb9447093_8fa89bce_f808e40e_8d5b3e63
    case 35 => 0x8a08f0f8_bf0f156b_1b8e9ecb_641b58fb
    case 36 => 0xcdb02555_653131b6_3792f412_cb067947
    case 37 => 0x993fe2c6_d07b7fab_e546a803_8efe4025
    case 38 => 0xe45c10c4_2a2b3b05_8cb89a7d_b77c5066
    case 39 => 0xaa242499_697392d2_dde50bd1_d5d0b9e7
    case 40 => 0xfd87b5f2_8300ca0d_8bca9d6e_188853f9
    case 41 => 0xbce50864_92111aea_88f4bb1c_a6bcf582
    case 42 => 0x8cbccc09_6f5088cb_f93f87b7_442e45d3
    case 43 => 0xd1b71758_e219652b_d3c36113_404ea4a8
    case 44 => 0x9c400000_00000000_00000000_00000000
    case 45 => 0xe8d4a510_00000000_00000000_00000000
    case 46 => 0xad78ebc5_ac620000_00000000_00000000
    case 47 => 0x813f3978_f8940984_40000000_00000000
    case 48 => 0xc097ce7b_c90715b3_4b9f1000_00000000
    case 49 => 0x8f7e32ce_7bea5c6f_e4820023_a2000000
    case 50 => 0xd5d238a4_abe98068_72a49045_98d6d880
    case 51 => 0x9f4f2726_179a2245_01d76242_2c946590
    case 52 => 0xed63a231_d4c4fb27_4ca7aaa8_63ee4bdc
    case 53 => 0xb0de6538_8cc8ada8_3b25a55f_43294bca
    case 54 => 0x83c7088e_1aab65db_792667c6_da79e0f8
    case 55 => 0xc45d1df9_42711d9a_3ba5d0bd_324f8391
    case 56 => 0x924d692c_a61be758_593c2626_705f9c54
    case 57 => 0xda01ee64_1a708de9_e80e6f48_20cc9492
    case 58 => 0xa26da399_9aef7749_e3be5e33_0f38f09b
    case 59 => 0xf209787b_b47d6b84_c0678c5d_bd23a495
    case 60 => 0xb454e4a1_79dd1877_29babe45_98c311f7
    case 61 => 0x865b8692_5b9bc5c2_0b8a2392_ba45a9ae
    case 62 => 0xc83553c5_c8965d3d_6f928294_94e5acc0
    case 63 => 0x952ab45c_fa97a0b2_dd945a74_7bf2617e
    case 64 => 0xde469fbd_99a05fe3_6fca5f8e_d9aef3b2
    case 65 => 0xa59bc234_db398c25_43fab983_7e69908e
    case 66 => 0xf6c69a72_a3989f5b_8aad549e_57273d39
    case 67 => 0xb7dcbf53_54e9bece_0c11ed6d_538aeb26
    case 68 => 0x88fcf317_f22241e2_441fece3_bdf81efc
    case 69 => 0xcc20ce9b_d35c78a5_31ec038d_f7b441e9
    case 70 => 0x98165af3_7b2153de_c3727a33_7a8b7041
    case 71 => 0xe2a0b5dc_971f303a_2e44ae64_840fd610
    case 72 => 0xa8d9d153_5ce3b396_7f1839a7_41a14d03
    case 73 => 0xfb9b7cd9_a4a7443c_169840ef_017da3a1
    case 74 => 0xbb764c4c_a7a4440f_9d6d1ad4_1abe37e5
    case 75 => 0x8bab8eef_b6409c1a_1ad089b6_c2f75484
    case 76 => 0xd01fef10_a657842c_2d2b7569_b0432d75
    case 77 => 0x9b10a4e5_e9913128_ca7cf2b4_191c831a
    case 78 => 0xe7109bfb_a19c0c9d_0cc51267_0a783ac2
    case 79 => 0xac2820d9_623bf429_546345fa_9fbdcd36
    case 80 => 0x80444b5e_7aa7cf85_7980d163_cf5b81a8
    case 81 => 0xbf21e440_03acdd2c_e0470a63_e6bd56b2
    case 82 => 0x8e679c2f_5e44ff8f_570f09ea_a7ea763b
    case 83 => 0xd433179d_9c8cb841_5fa60692_a46151d7
    case 84 => 0x9e19db92_b4e31ba9_6c07a2c2_6a8346c1
    case 85 => 0xeb96bf6e_badf77d8_e41c5bd1_8c57e877
    case _ => 0xaf87023b_9bf0ee6a_eb8fad7c_7f8680a2
  }

  function Abs(x: int): (r: nat)
    ensures r == x || r == -x
  {
    if x < 0 then -x else x
  }

  /** 2^26 or 2^27: how far two neighbouring binary exponents are apart. */
  function Gap(d: int): nat
  {
    if d == 26 then 0x400_0000 else if d == 27 then 0x800_0000 else 0
  }

  /** Whether next is scale / unit times wide, to within one. */
  predicate Follows(wide: nat, next: nat, scale: nat, unit: nat)
  {
    unit > 0 && Abs(next * unit - wide * scale) <= unit
  }

  /**
    The numerical facts about entry i: its significand is the 128-bit value rounded
    to 64 bits, that value follows from the neighbour nearer to 10^0, and the
    exponents are where the index computation expects them.
   */
  predicate EntryAccurate(i: nat)
    requires i < 87
  {
    var c := Entry(i);
    && 0x8000_0000_0000_0000_0000_0000_0000_0000 <= Wide(i) < TWO128
    && c.f >= 0x8000_0000_0000_0000
    && Abs(c.f * TWO64 - Wide(i)) + 0x1_0000_0000 <= 0x8000_0000_0000_0000
    && (i > 44 ==> Follows(Wide(i - 1), Wide(i), 100_000_000, Gap(c.e - Entry(i - 1).e)))
    && (i < 43 ==> Gap(Entry(i + 1).e - c.e) > 0)
    && (i < 43 ==> Follows(Wide(i + 1), Wide(i), Gap(Entry(i + 1).e - c.e), 100_000_000))
    && (c.e + 64) * LOG10_2 > DecimalExponent(i) * TWO32
    && (c.e + 34) * LOG10_2 <= (DecimalExponent(i) - 8) * TWO32
    && (i >= 44 ==> c.e >= -50) && (i < 44 ==> c.e <= -77)
  }

  /** The upper half of the stored 64-bit fraction of log10(2). */
  const LOG10_2: int := 0x4d10_4d42

  lemma TableAccurate0(i: nat) requires 0 <= i < 4 ensures EntryAccurate(i) {}
  lemma TableAccurate4(i: nat) requires 4 <= i < 8 ensures EntryAccurate(i) {}
  lemma TableAccurate8(i: nat) requires 8 <= i < 12 ensures EntryAccurate(i) {}
  lemma TableAccurate12(i: nat) requires 12 <= i < 16 ensures EntryAccurate(i) {}
  lemma TableAccurate16(i: nat) requires 16 <= i < 20 ensures EntryAccurate(i) {}
  lemma TableAccurate20(i: nat) requires 20 <= i < 24 ensures EntryAccurate(i) {}
  lemma TableAccurate24(i: nat) requires 24 <= i < 28 ensures EntryAccurate(i) {}
  lemma TableAccurate28(i: nat) requires 28 <= i < 32 ensures EntryAccurate(i) {}
  lemma TableAccurate32(i: nat) requires 32 <= i < 36 ensures EntryAccurate(i) {}
  lemma TableAccurate36(i: nat) requires 36 <= i < 40 ensures EntryAccurate(i) {}
  lemma TableAccurate40(i: nat) requires 40 <= i < 44 ensures EntryAccurate(i) {}
  lemma TableAccurate44(i: nat) requires 44 <= i < 48 ensures EntryAccurate(i) {}
  lemma TableAccurate48(i: nat) requires 48 <= i < 52 ensures EntryAccurate(i) {}
  lemma TableAccurate52(i: nat) requires 52 <= i < 56 ensures EntryAccurate(i) {}
  lemma TableAccurate56(i: nat) requires 56 <= i < 60 ensures EntryAccurate(i) {}
  lemma TableAccurate60(i: nat) requires 60 <= i < 64 ensures EntryAccurate(i) {}
  lemma TableAccurate64(i: nat) requires 64 <= i < 68 ensures EntryAccurate(i) {}
  lemma TableAccurate68(i: nat) requires 68 <= i < 72 ensures EntryAccurate(i) {}
  lemma TableAccurate72(i: nat) requires 72 <= i < 76 ensures EntryAccurate(i) {}
  lemma TableAccurate76(i: nat) requires 76 <= i < 80 ensures EntryAccurate(i) {}
  lemma TableAccurate80(i: nat) requires 80 <= i < 84 ensures EntryAccurate(i) {}
  lemma TableAccurate84(i: nat) requires 84 <= i < 87 ensures EntryAccurate(i) {}

  /** Every entry passes. */
  lemma TableAccurate(i: nat)
    requires i < 87
    ensures EntryAccurate(i)
  {
    if i < 4 {
      TableAccurate0(i);
    } else if i < 8 {
      TableAccurate4(i);
    } else if i < 12 {
      TableAccurate8(i);
    } else if i < 16 {
      TableAccurate12(i);
    } else if i < 20 {
      TableAccurate16(i);
    } else if i < 24 {
      TableAccurate20(i);
    } else if i < 28 {
      TableAccurate24(i);
    } else if i < 32 {
      TableAccurate28(i);
    } else if i < 36 {
      TableAccurate32(i);
    } else if i < 40 {
      TableAccurate36(i);
    } else if i < 44 {
      TableAccurate40(i);
    } else if i < 48 {
      TableAccurate44(i);
    } else if i < 52 {
      TableAccurate48(i);
    } else if i < 56 {
      TableAccurate52(i);
    } else if i < 60 {
      TableAccurate56(i);
    } else if i < 64 {
      TableAccurate60(i);
    } else if i < 68 {
      TableAccurate64(i);
    } else if i < 72 {
      TableAccurate68(i);
    } else if i < 76 {
      TableAccurate72(i);
    } else if i < 80 {
      TableAccurate76(i);
    } else if i < 84 {
      TableAccurate80(i);
    } else {
      TableAccurate84(i);
    }
  }
}
