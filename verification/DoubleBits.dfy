/**
  Doubles as a significand and a binary exponent, and the normal form with a 64-bit
  significand.
 */
module DoubleBits {
  import opened Words
  import opened Powers
  import opened CachedPowerTable

  const IMPLICIT_BIT: nat := 0x10_0000_0000_0000

  /** A significand and exponent in the range of positive finite doubles. */
  predicate IsDouble(value: Fp)
  {
    0 < value.f < 2 * IMPLICIT_BIT && -1074 <= value.e <= 971
  }

  /** The bits of f * 2^e, for a significand that is full or an exponent that is the smallest. */
  function Encoded(value: Fp): int
  {
    if value.f < IMPLICIT_BIT then value.f else (value.e + 1075) * IMPLICIT_BIT + (value.f - IMPLICIT_BIT)
  }

  /** A positive finite double as f * 2^e; no two doubles share it. */
  function Decode(bits: u64): (value: Fp)
    requires 0 < bits < 0x7FF0_0000_0000_0000
    ensures IsDouble(value) && (value.f < IMPLICIT_BIT ==> value.e == -1074) && Encoded(value) == bits
  {
    var fraction, biased := bits % IMPLICIT_BIT, (bits / IMPLICIT_BIT) % 0x800;
    if biased != 0 then Fp(fraction + IMPLICIT_BIT, biased - 1075) else Fp(fraction, -1074)
  }

  /** The predecessor is closer than the successor for a power of two, the smallest excepted. */
  predicate PredecessorCloser(bits: u64)
  {
    bits % IMPLICIT_BIT == 0 && (bits / IMPLICIT_BIT) % 0x800 > 1
  }

  // -------------------------------------------------------------- normal form

  /** How far a significand is from 64 bits. */
  ghost function NormalShift(f: nat): (shift: nat)
    requires 0 < f < TWO64
    decreases TWO64 - f
  {
    if f >= 0x8000_0000_0000_0000 then 0 else 1 + NormalShift(2 * f)
  }

  /** Only one shift fills 64 bits. */
  lemma {:induction false} ShiftUnique(f: nat, shift: nat)
    requires 0 < f && 0x8000_0000_0000_0000 <= f * Pow(2, shift) < TWO64
    ensures f < TWO64 && NormalShift(f) == shift
    decreases shift
  {
    MulMonotone(1, Pow(2, shift), f);
    if shift > 0 {
      MulAssociate(f, 2, Pow(2, shift - 1));
      MulMonotone(1, Pow(2, shift - 1), 2 * f);
      ShiftUnique(2 * f, shift - 1);
    }
  }

  lemma {:induction false} NormalRange(f: nat)
    requires 0 < f < TWO64
    ensures 0x8000_0000_0000_0000 <= f * Pow(2, NormalShift(f)) < TWO64
    decreases TWO64 - f
  {
    if f < 0x8000_0000_0000_0000 {
      NormalRange(2 * f);
      MulSwap(f, 2, Pow(2, NormalShift(2 * f)));
    }
  }

  /** A double shifted up to 64 bits. */
  ghost function NormalOf(value: Fp): (r: Fp)
    requires IsDouble(value)
    ensures r.f >= 0x8000_0000_0000_0000
  {
    NormalRange(value.f);
    Fp(value.f * Pow(2, NormalShift(value.f)), value.e - NormalShift(value.f))
  }

  lemma IsNormalOf(value: Fp, r: Fp, shift: nat)
    requires IsDouble(value) && r.f >= 0x8000_0000_0000_0000
    requires r.f == value.f * Pow(2, shift) && r.e == value.e - shift
    ensures r == NormalOf(value)
  {
    ShiftUnique(value.f, shift);
  }

  /** Shifts the significand up to 64 bits. */
  method Normalize(value: Fp) returns (r: Fp, ghost shift: nat)
    requires 0 < value.f < 2 * IMPLICIT_BIT
    ensures r.f >= 0x8000_0000_0000_0000 && r.f % 2048 == 0 && 11 <= shift <= 63
    ensures r.f == value.f * Pow(2, shift) && r.e == value.e - shift
  {
    var f: u64, e := value.f, value.e;
    shift := 0;
    while (f / IMPLICIT_BIT) % 2 == 0
      invariant 0 < f < 2 * IMPLICIT_BIT && e == value.e - shift
      invariant f == value.f * Pow(2, shift) && shift <= 52
      decreases 2 * IMPLICIT_BIT - f
    {
      ShiftOne(value.f, shift, f);
      f, e, shift := f * 2, e - 1, shift + 1;
    }
    ShiftEleven(value.f, shift, f);
    f, e, shift := f * 2048, e - 11, shift + 11;
    r := Fp(f, e);
  }

  lemma ShiftEleven(start: nat, shift: nat, f: nat)
    requires f == start * Pow(2, shift)
    ensures f * 2048 == start * Pow(2, shift + 11) && (f * 2048) % 2048 == 0
  {
    PowAdd(2, shift, 11);
    assert Pow(2, 11) == 2048;
    MulAssociate(start, Pow(2, shift), 2048);
  }

  lemma ShiftOne(start: nat, shift: nat, f: nat)
    requires 0 < start && f == start * Pow(2, shift) && f < IMPLICIT_BIT
    ensures f * 2 == start * Pow(2, shift + 1) && shift < 52
  {
    MulSwap(start, 2, Pow(2, shift));
    if shift >= 52 {
      TwoTo52();
      PowMonotone(2, 52, shift);
      MulMonotone(1, start, Pow(2, shift));
      assert false;
    }
  }
}
