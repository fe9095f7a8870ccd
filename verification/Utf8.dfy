/**
  Transcoding UTF-8 to UTF-16 with a decoder that always reads four bytes, against
  the byte sequences of section 4 of RFC 3629 and the UTF-16 of section 2.1 of
  RFC 2781.
 */
module Utf8 {
  type byte = x: nat | x < 256

  // ------------------------------------------------------------- the standard

  /** A code point that is not a surrogate. */
  predicate IsScalar(cp: nat) { cp < 0xD800 || 0xE000 <= cp <= 0x10FFFF }

  type scalar = cp: nat | cp < 0xD800 || 0xE000 <= cp <= 0x10FFFF

  predicate IsTail(b: byte) { 0x80 <= b < 0xC0 }

  /** The length of the well-formed sequence that s starts with, or zero. */
  function WellFormed(s: seq<byte>): (n: nat)
    ensures n <= |s| && n <= 4
  {
    if s == [] then 0
    else if s[0] < 0x80 then 1
    else if 0xC2 <= s[0] <= 0xDF && |s| >= 2 && IsTail(s[1]) then 2
    else if |s| >= 3 && IsTail(s[2]) && Three(s[0], s[1]) then 3
    else if |s| >= 4 && IsTail(s[2]) && IsTail(s[3]) && Four(s[0], s[1]) then 4
    else 0
  }

  predicate Three(b0: byte, b1: byte)
  {
    || (b0 == 0xE0 && 0xA0 <= b1 <= 0xBF)
    || (0xE1 <= b0 <= 0xEC && IsTail(b1))
    || (b0 == 0xED && 0x80 <= b1 <= 0x9F)
    || (0xEE <= b0 <= 0xEF && IsTail(b1))
  }

  predicate Four(b0: byte, b1: byte)
  {
    || (b0 == 0xF0 && 0x90 <= b1 <= 0xBF)
    || (0xF1 <= b0 <= 0xF3 && IsTail(b1))
    || (b0 == 0xF4 && 0x80 <= b1 <= 0x8F)
  }

  /** The UTF-8 sequence of a scalar value. */
  function Encode(cp: scalar): (s: seq<byte>)
    ensures 1 <= |s| <= 4
  {
    if cp < 0x80 then [cp]
    else if cp < 0x800 then [0xC0 + cp / 64, 0x80 + cp % 64]
    else if cp < 0x10000 then [0xE0 + cp / 4096, 0x80 + cp / 64 % 64, 0x80 + cp % 64]
    else [0xF0 + cp / 262144, 0x80 + cp / 4096 % 64, 0x80 + cp / 64 % 64, 0x80 + cp % 64]
  }

  /** The scalar value of a well-formed sequence; of a lone byte, its low seven bits. */
  function CodePoint(t: seq<byte>): nat
    requires 1 <= |t| <= 4
  {
    if |t| == 1 then t[0] % 0x80
    else if |t| == 2 then Join(0, 0, t[0] % 0x20, t[1] % 64)
    else if |t| == 3 then Join(0, t[0] % 0x10, t[1] % 64, t[2] % 64)
    else Join(t[0] % 0x08, t[1] % 64, t[2] % 64, t[3] % 64)
  }

  function Join(x0: nat, x1: nat, x2: nat, x3: nat): nat
  {
    x0 * 262144 + x1 * 4096 + x2 * 64 + x3
  }

  lemma JoinSplit(cp: nat)
    ensures cp == Join(cp / 262144, cp / 4096 % 64, cp / 64 % 64, cp % 64)
    ensures cp < 0x10000 ==> cp == Join(0, cp / 4096, cp / 64 % 64, cp % 64)
    ensures cp < 0x800 ==> cp == Join(0, 0, cp / 64, cp % 64)
  {
    assert cp / 64 / 64 == cp / 4096 && cp / 4096 / 64 == cp / 262144;
    assert cp == cp / 64 * 64 + cp % 64 && cp / 64 == cp / 4096 * 64 + cp / 64 % 64;
    assert cp / 4096 == cp / 262144 * 64 + cp / 4096 % 64;
  }

  /** Encoding and reading the scalar value are inverse to each other. */
  lemma CodePointOfEncode(cp: scalar)
    ensures CodePoint(Encode(cp)) == cp
  {
    JoinSplit(cp);
    if cp >= 0x10000 {
      ReadFour(cp / 262144, cp / 4096 % 64, cp / 64 % 64, cp % 64);
    } else if cp >= 0x800 {
      ReadThree(cp / 4096, cp / 64 % 64, cp % 64);
    } else if cp >= 0x80 {
      ReadTwo(cp / 64, cp % 64);
    }
  }

  lemma ReadTwo(x0: nat, x1: nat)
    requires x0 < 32 && x1 < 64
    ensures CodePoint([0xC0 + x0, 0x80 + x1]) == Join(0, 0, x0, x1)
  {
    assert (0xC0 + x0) % 0x20 == x0 && (0x80 + x1) % 64 == x1;
  }

  lemma ReadThree(x0: nat, x1: nat, x2: nat)
    requires x0 < 16 && x1 < 64 && x2 < 64
    ensures CodePoint([0xE0 + x0, 0x80 + x1, 0x80 + x2]) == Join(0, x0, x1, x2)
  {
    assert (0xE0 + x0) % 0x10 == x0 && (0x80 + x1) % 64 == x1 && (0x80 + x2) % 64 == x2;
  }

  lemma ReadFour(x0: nat, x1: nat, x2: nat, x3: nat)
    requires x0 < 8 && x1 < 64 && x2 < 64 && x3 < 64
    ensures CodePoint([0xF0 + x0, 0x80 + x1, 0x80 + x2, 0x80 + x3]) == Join(x0, x1, x2, x3)
  {
    assert (0xF0 + x0) % 0x08 == x0 && (0x80 + x1) % 64 == x1 && (0x80 + x2) % 64 == x2 && (0x80 + x3) % 64 == x3;
  }

  lemma EncodeOfCodePoint(t: seq<byte>)
    requires t != [] && WellFormed(t) == |t|
    ensures IsScalar(CodePoint(t)) && Encode(CodePoint(t)) == t
  {
    if |t| == 2 {
      EncodeTwoBytes(t[0], t[1]);
      assert t == [t[0], t[1]];
    } else if |t| == 3 {
      EncodeThreeBytes(t[0], t[1], t[2]);
      assert t == [t[0], t[1], t[2]];
    } else if |t| == 4 {
      EncodeFourBytes(t[0], t[1], t[2], t[3]);
      assert t == [t[0], t[1], t[2], t[3]];
    }
  }

  lemma EncodeTwoBytes(b0: byte, b1: byte)
    requires 0xC2 <= b0 <= 0xDF && IsTail(b1)
    ensures
      var cp := Join(0, 0, b0 % 0x20, b1 % 64);
      IsScalar(cp) && Encode(cp) == [b0, b1]
  {
    Payload(b0);
    Payload(b1);
    var cp := Join(0, 0, b0 % 0x20, b1 % 64);
    assert 0x80 <= cp < 0x800 && cp / 64 == b0 % 0x20 && cp % 64 == b1 % 64;
  }

  lemma EncodeThreeBytes(b0: byte, b1: byte, b2: byte)
    requires Three(b0, b1) && IsTail(b2)
    ensures
      var cp := Join(0, b0 % 0x10, b1 % 64, b2 % 64);
      IsScalar(cp) && Encode(cp) == [b0, b1, b2]
  {
    Payload(b0);
    Payload(b1);
    Payload(b2);
    EncodeThree(b0 % 0x10, b1 % 64, b2 % 64);
    var cp := Join(0, b0 % 0x10, b1 % 64, b2 % 64);
    assert 0x800 <= cp < 0x10000 && !(0xD800 <= cp < 0xE000);
  }

  lemma EncodeFourBytes(b0: byte, b1: byte, b2: byte, b3: byte)
    requires Four(b0, b1) && IsTail(b2) && IsTail(b3)
    ensures
      var cp := Join(b0 % 0x08, b1 % 64, b2 % 64, b3 % 64);
      IsScalar(cp) && Encode(cp) == [b0, b1, b2, b3]
  {
    Payload(b0);
    Payload(b1);
    Payload(b2);
    Payload(b3);
    EncodeFour(b0 % 0x08, b1 % 64, b2 % 64, b3 % 64);
    var cp := Join(b0 % 0x08, b1 % 64, b2 % 64, b3 % 64);
    assert 0x10000 <= cp <= 0x10FFFF;
  }

  /** The codes of several scalar values, one after the other. */
  function Concat<T>(code: scalar -> seq<T>, cps: seq<scalar>): seq<T>
  {
    if cps == [] then [] else code(cps[0]) + Concat(code, cps[1..])
  }

  function EncodeAll(cps: seq<scalar>): seq<byte> { Concat((cp: scalar) => Encode(cp), cps) }

  /** The UTF-16 code units of a scalar value. */
  function Utf16(cp: nat): (s: seq<nat>)
    requires cp <= 0x10FFFF
    ensures forall i :: 0 <= i < |s| ==> s[i] <= 0xFFFF
  {
    if cp <= 0xFFFF then [cp] else [0xD800 + (cp - 0x10000) / 1024, 0xDC00 + (cp - 0x10000) % 1024]
  }

  function Utf16All(cps: seq<scalar>): seq<nat> { Concat((cp: scalar) => Utf16(cp), cps) }

  datatype Read = Scalars(cps: seq<scalar>) | Malformed

  function Followed(cp: scalar, rest: Read): Read
  {
    if rest.Scalars? then Scalars([cp] + rest.cps) else Malformed
  }

  /**
    Reads UTF-16: a unit outside the surrogates is a scalar value, a high surrogate
    and a low one after it hold the upper and lower ten bits of one above 0xFFFF, and
    no other surrogate is read.
   */
  function ReadUtf16(units: seq<nat>): Read
  {
    if units == [] then Scalars([])
    else if units[0] < 0xD800 || 0xE000 <= units[0] <= 0xFFFF then Followed(units[0], ReadUtf16(units[1..]))
    else if |units| >= 2 && 0xD800 <= units[0] <= 0xDBFF && 0xDC00 <= units[1] <= 0xDFFF then
      Followed(0x10000 + (units[0] - 0xD800) * 1024 + (units[1] - 0xDC00), ReadUtf16(units[2..]))
    else Malformed
  }

  lemma ReadFirst(cp: scalar, rest: seq<nat>)
    ensures ReadUtf16(Utf16(cp) + rest) == Followed(cp, ReadUtf16(rest))
  {
    var u := Utf16(cp) + rest;
    assert u[|Utf16(cp)|..] == rest;
  }

  /** What is read is read from the units of the same scalar values, and from nothing else. */
  lemma ReadBack(cps: seq<scalar>)
    ensures ReadUtf16(Utf16All(cps)) == Scalars(cps)
  {
    ReadCodes((cp: scalar) => Utf16(cp), cps);
  }

  lemma {:induction false} ReadCodes(code: scalar -> seq<nat>, cps: seq<scalar>)
    requires forall cp: scalar :: code(cp) == Utf16(cp)
    ensures ReadUtf16(Concat(code, cps)) == Scalars(cps)
  {
    if cps != [] {
      ReadCodes(code, cps[1..]);
      assert code(cps[0]) == Utf16(cps[0]);
      ReadFirst(cps[0], Concat(code, cps[1..]));
      assert cps == [cps[0]] + cps[1..];
    }
  }

  lemma ReadOnce(units: seq<nat>)
    requires ReadUtf16(units).Scalars?
    ensures units == Utf16All(ReadUtf16(units).cps)
  {
    ReadOnceCodes((cp: scalar) => Utf16(cp), units);
  }

  lemma {:induction false} ReadOnceCodes(code: scalar -> seq<nat>, units: seq<nat>)
    requires ReadUtf16(units).Scalars? && forall cp: scalar :: code(cp) == Utf16(cp)
    ensures units == Concat(code, ReadUtf16(units).cps)
  {
    if units != [] {
      var cps := ReadUtf16(units).cps;
      var n := |Utf16(cps[0])|;
      assert code(cps[0]) == Utf16(cps[0]) == units[..n];
      assert cps[1..] == ReadUtf16(units[n..]).cps;
      ReadOnceCodes(code, units[n..]);
      assert units == units[..n] + units[n..];
    }
  }

  /** Examples of section 7 of RFC 3629, one of each length, and the surrogates of the last. */
  lemma Examples()
    ensures Encode(0x41) == [0x41] && Encode(0x391) == [0xCE, 0x91] && Encode(0x2262) == [0xE2, 0x89, 0xA2]
    ensures Encode(0x233B4) == [0xF0, 0xA3, 0x8E, 0xB4] && Utf16(0x233B4) == [0xD84C, 0xDFB4]
  {
  }

  // -------------------------------------------------------------- the decoder

  /** The sequence length that a lead byte announces; a byte that leads nothing counts as one. */
  function CodePointLength(b: byte): (n: nat)
    ensures 1 <= n <= 4
  {
    if 0xC0 <= b < 0xE0 then 2 else if 0xE0 <= b < 0xF0 then 3 else if 0xF0 <= b < 0xF8 then 4 else 1
  }

  datatype Decoded = Decoded(cp: nat, error: nat, length: nat)

  /** Four bytes put together as if all of them counted, then cut to the announced length. */
  function Decode(b0: byte, b1: byte, b2: byte, b3: byte): Decoded
  {
    var length := CodePointLength(b0);
    var mask, min, shiftC, shiftE :=
      match length
      case 1 => 0x80 case 2 => 0x20 case 3 => 0x10 case _ => 0x08,
      match length
      case 1 => 0 case 2 => 0x80 case 3 => 0x800 case _ => 0x10000,
      match length
      case 1 => 0x40000 case 2 => 0x1000 case 3 => 0x40 case _ => 1,
      match length
      case 1 => 64 case 2 => 16 case 3 => 4 case _ => 1;
    var cp := ((b0 % mask) * 0x40000 + (b1 % 64) * 0x1000 + (b2 % 64) * 0x40 + b3 % 64) / shiftC;
    Decoded(cp, ErrorBits(cp, min, b1, b2, b3) / shiftE, length)
  }

  /** Bits 6 to 8 for the code point, and two bits for each byte that are zero if it is a tail byte. */
  function ErrorBits(cp: nat, min: nat, b1: byte, b2: byte, b3: byte): nat
  {
    (if cp < min then 64 else 0) + (if cp / 2048 == 0x1B then 128 else 0) + (if cp > 0x10FFFF then 256 else 0)
    + TopBits(b1) * 16 + TopBits(b2) * 4 + TopBits(b3)
  }

  /** The top two bits of a byte, with the upper one flipped. */
  function TopBits(b: byte): (t: nat)
    ensures t < 4 && (t == 0 <==> IsTail(b))
  {
    (b / 64 + 2) % 4
  }

  /** A byte that cannot start a sequence. */
  predicate IsStray(b: byte) { 0x80 <= b < 0xC0 || 0xF8 <= b }

  lemma DecodeOne(b0: byte, b1: byte, b2: byte, b3: byte)
    requires CodePointLength(b0) == 1
    ensures Decode(b0, b1, b2, b3) == Decoded(b0 % 0x80, 0, 1)
  {
    var rest := (b1 % 64) * 0x1000 + (b2 % 64) * 0x40 + b3 % 64;
    assert rest < 0x40000;
    assert ((b0 % 0x80) * 0x40000 + rest) / 0x40000 == b0 % 0x80;
  }

  lemma DecodeTwo(b0: byte, b1: byte, b2: byte, b3: byte)
    requires CodePointLength(b0) == 2
    ensures
      var d := Decode(b0, b1, b2, b3);
      && d.length == 2
      && (d.error == 0 <==> b0 >= 0xC2 && IsTail(b1))
      && d.cp == CodePoint([b0, b1])
  {
    var rest := (b2 % 64) * 0x40 + b3 % 64;
    assert rest < 0x1000;
    var cp := (b0 % 0x20) * 64 + b1 % 64;
    assert ((b0 % 0x20) * 0x40000 + (b1 % 64) * 0x1000 + rest) / 0x1000 == cp;
    assert Decode(b0, b1, b2, b3).cp == cp;
  }

  lemma EncodeThree(x0: nat, x1: nat, x2: nat)
    requires x0 < 16 && x1 < 64 && x2 < 64
    ensures
      var cp := x0 * 4096 + x1 * 64 + x2;
      && (cp < 0x800 <==> x0 == 0 && x1 < 32) && (cp / 2048 == 0x1B <==> x0 == 13 && x1 >= 32)
      && cp / 4096 == x0 && cp / 64 % 64 == x1 && cp % 64 == x2
  {
    var cp := x0 * 4096 + x1 * 64 + x2;
    assert cp / 64 == x0 * 64 + x1;
  }

  lemma CutThree(x0: nat, x1: nat, x2: nat, x3: nat)
    requires x3 < 64
    ensures (x0 * 0x40000 + x1 * 0x1000 + x2 * 0x40 + x3) / 0x40 == x0 * 4096 + x1 * 64 + x2
  {
  }

  /** A tail byte, or a lead byte, from its payload. */
  lemma Payload(b: byte)
    ensures IsTail(b) ==> b == 0x80 + b % 64
    ensures CodePointLength(b) == 2 ==> b == 0xC0 + b % 0x20
    ensures CodePointLength(b) == 3 ==> b == 0xE0 + b % 0x10
    ensures CodePointLength(b) == 4 ==> b == 0xF0 + b % 0x08
  {
  }

  lemma DecodeThree(b0: byte, b1: byte, b2: byte, b3: byte)
    requires CodePointLength(b0) == 3
    ensures
      var d := Decode(b0, b1, b2, b3);
      && d.length == 3
      && (d.error == 0 <==> IsTail(b2) && Three(b0, b1))
      && d.cp == CodePoint([b0, b1, b2])
  {
    var x0, x1, x2 := b0 % 0x10, b1 % 64, b2 % 64;
    CutThree(x0, x1, x2, b3 % 64);
    EncodeThree(x0, x1, x2);
    Payload(b0);
    Payload(b1);
    Payload(b2);
    ErrorOf(x0 * 4096 + x1 * 64 + x2, 0x800, b1, b2, b3);
  }

  /** Which error bits are left after the shift. */
  lemma ErrorOf(cp: nat, min: nat, b1: byte, b2: byte, b3: byte)
    ensures
      var good := cp >= min && cp / 2048 != 0x1B && cp <= 0x10FFFF;
      var e := ErrorBits(cp, min, b1, b2, b3);
      && (e / 4 == 0 <==> good && IsTail(b1) && IsTail(b2))
      && (e == 0 <==> good && IsTail(b1) && IsTail(b2) && IsTail(b3))
  {
  }

  lemma EncodeFour(x0: nat, x1: nat, x2: nat, x3: nat)
    requires x0 < 8 && x1 < 64 && x2 < 64 && x3 < 64
    ensures
      var cp := x0 * 262144 + x1 * 4096 + x2 * 64 + x3;
      && (cp < 0x10000 <==> x0 == 0 && x1 < 16) && (cp > 0x10FFFF <==> x0 > 4 || (x0 == 4 && x1 >= 16))
      && cp / 262144 == x0 && cp / 4096 % 64 == x1 && cp / 64 % 64 == x2 && cp % 64 == x3
  {
    var cp := x0 * 262144 + x1 * 4096 + x2 * 64 + x3;
    assert cp / 64 == x0 * 4096 + x1 * 64 + x2;
    assert cp / 4096 == x0 * 64 + x1;
  }

  lemma DecodeFour(b0: byte, b1: byte, b2: byte, b3: byte)
    requires CodePointLength(b0) == 4
    ensures
      var d := Decode(b0, b1, b2, b3);
      && d.length == 4
      && (d.error == 0 <==> IsTail(b2) && IsTail(b3) && Four(b0, b1))
      && d.cp == CodePoint([b0, b1, b2, b3])
  {
    var x0, x1, x2, x3 := b0 % 0x08, b1 % 64, b2 % 64, b3 % 64;
    EncodeFour(x0, x1, x2, x3);
    Payload(b0);
    Payload(b1);
    Payload(b2);
    Payload(b3);
    ErrorOf(x0 * 262144 + x1 * 4096 + x2 * 64 + x3, 0x10000, b1, b2, b3);
  }

  // ------------------------------------------------------------ one position

  /** The byte at a position; zeros follow the string. */
  function At(s: seq<byte>, i: nat): byte { if i < |s| then s[i] else 0 }

  function DecodeAt(s: seq<byte>, p: nat): Decoded
  {
    Decode(At(s, p), At(s, p + 1), At(s, p + 2), At(s, p + 3))
  }

  /** What the decoder takes: a well-formed sequence, or one byte that cannot start any. */
  function Taken(s: seq<byte>, p: nat): (n: nat)
    requires p < |s|
    ensures p + n <= |s|
  {
    if IsStray(s[p]) then 1 else WellFormed(s[p..])
  }

  /** No error is reported exactly for what is taken, and then the code point is the right one. */
  lemma DecodeExact(s: seq<byte>, p: nat)
    requires p < |s|
    ensures
      var d, n := DecodeAt(s, p), Taken(s, p);
      && (d.error == 0 <==> n > 0)
      && (n > 0 ==> n <= 4 && d.length == n && d.cp == CodePoint(s[p..p + n]))
  {
    var b0, b1, b2, b3 := At(s, p), At(s, p + 1), At(s, p + 2), At(s, p + 3);
    var n := Taken(s, p);
    if CodePointLength(b0) == 1 {
      DecodeOne(b0, b1, b2, b3);
    } else if CodePointLength(b0) == 2 {
      DecodeTwo(b0, b1, b2, b3);
      assert n == 2 ==> s[p..p + n] == [b0, b1];
    } else if CodePointLength(b0) == 3 {
      DecodeThree(b0, b1, b2, b3);
      assert n == 3 ==> s[p..p + n] == [b0, b1, b2];
    } else {
      DecodeFour(b0, b1, b2, b3);
      assert n == 4 ==> s[p..p + n] == [b0, b1, b2, b3];
    }
  }

  lemma TakenIsCodePoint(s: seq<byte>, p: nat)
    requires p < |s| && Taken(s, p) > 0
    ensures
      var n := Taken(s, p);
      && n <= 4 && CodePoint(s[p..p + n]) <= 0x10FFFF
      && (!IsStray(s[p]) ==> IsScalar(CodePoint(s[p..p + n])) && Encode(CodePoint(s[p..p + n])) == s[p..p + n])
  {
    var n := Taken(s, p);
    var t := s[p..p + n];
    if !IsStray(s[p]) {
      assert forall k :: 0 <= k < n ==> t[k] == s[p..][k];
      EncodeOfCodePoint(t);
    }
  }

  // ----------------------------------------------------------- whole strings

  datatype Transcoded = Units(units: seq<nat>) | InvalidUtf8

  function Prefixed(units: seq<nat>, rest: Transcoded): Transcoded
  {
    if rest.Units? then Units(units + rest.units) else InvalidUtf8
  }

  /** The code units of s from p on: those of each sequence taken, one after the other. */
  function Transcode(s: seq<byte>, p: nat): Transcoded
    decreases |s| - p
  {
    if p >= |s| then Units([])
    else
      var n := Taken(s, p);
      if n == 0 then InvalidUtf8
      else
        TakenIsCodePoint(s, p);
        Prefixed(Utf16(CodePoint(s[p..p + n])), Transcode(s, p + n))
  }

  lemma PrefixedTwice(a: seq<nat>, b: seq<nat>, rest: Transcoded)
    ensures Prefixed(a, Prefixed(b, rest)) == Prefixed(a + b, rest)
  {
    if rest.Units? {
      assert a + (b + rest.units) == (a + b) + rest.units;
    }
  }

  /** The units that a decoded code point adds, unless there was an error. */
  method Append(units: seq<nat>, d: Decoded) returns (r: seq<nat>)
    requires d.cp <= 0x10FFFF
    ensures r == units + Utf16(d.cp)
  {
    if d.cp <= 0xFFFF {
      r := units + [d.cp];
    } else {
      var cp := d.cp - 0x10000;
      r := units + [0xD800 + cp / 1024] + [0xDC00 + cp % 1024];
    }
  }

  /** One step of transcoding, from the four bytes read at p. */
  method Step(s: seq<byte>, p: nat, four: seq<byte>, units: seq<nat>) returns (ok: bool, next: nat, r: seq<nat>)
    requires p < |s| && |four| == 4 && forall k :: 0 <= k < 4 ==> four[k] == At(s, p + k)
    ensures ok <==> DecodeAt(s, p).error == 0
    ensures ok ==> p < next <= |s| && Prefixed(units, Transcode(s, p)) == Prefixed(r, Transcode(s, next))
    ensures !ok ==> Transcode(s, p).InvalidUtf8?
  {
    DecodeExact(s, p);
    if Taken(s, p) > 0 {
      TakenIsCodePoint(s, p);
    }
    var d := Decode(four[0], four[1], four[2], four[3]);
    assert d == DecodeAt(s, p);
    ok, next, r := d.error == 0, p + d.length, units;
    if ok {
      r := Append(units, d);
      PrefixedTwice(units, Utf16(d.cp), Transcode(s, next));
    }
  }

  /**
    Transcodes a whole string.  The result, read as UTF-16 up to its terminator, gives
    the scalar values the string stands for.
   */
  method Utf8ToUtf16(s: seq<byte>) returns (r: Transcoded, ghost cps: seq<scalar>)
    ensures r.Units? <==> Accepted(s, 0)
    ensures r.Units? ==>
      && r.units != [] && r.units[|r.units| - 1] == 0
      && ReadUtf16(r.units[..|r.units| - 1]) == Scalars(cps) && StandsFor(s, 0, cps)
    ensures AllWellFormed(s, 0) ==> r.Units? && EncodeAll(cps) == s
  {
    TranscodesAccepted(s, 0);
    r := TranscodeAll(s);
    cps := [];
    if r.Units? {
      cps := TranscodeReads(s);
      assert r.units[..|r.units| - 1] == Transcode(s, 0).units;
    }
    if AllWellFormed(s, 0) {
      var encoded := WellFormedTranscodes(s, 0);
      ReadBack(encoded);
      assert s[0..] == s;
    }
  }

  /** The loops: the last three bytes are read from a zero-padded copy. */
  method TranscodeAll(s: seq<byte>) returns (r: Transcoded)
    ensures r == match Transcode(s, 0) case InvalidUtf8 => InvalidUtf8 case Units(units) => Units(units + [0])
  {
    var p, units, ok := 0, [], true;
    assert Transcode(s, 0).Units? ==> [] + Transcode(s, 0).units == Transcode(s, 0).units;
    while p + 3 < |s|
      invariant 0 <= p <= |s| && Transcode(s, 0) == Prefixed(units, Transcode(s, p))
      decreases |s| - p
    {
      ok, p, units := Step(s, p, s[p..p + 4], units);
      if !ok {
        return InvalidUtf8;
      }
    }
    if p != |s| {
      ok, units := Tail(s, p, units);
      if !ok {
        return InvalidUtf8;
      }
    }
    r := Units(units + [0]);
  }

  /** The last one to three bytes, copied to a buffer of seven. */
  method Tail(s: seq<byte>, start: nat, unitsIn: seq<nat>) returns (ok: bool, units: seq<nat>)
    requires start < |s| <= start + 3
    ensures ok <==> Transcode(s, start).Units?
    ensures ok ==> Prefixed(unitsIn, Transcode(s, start)) == Units(units)
  {
    var left := |s| - start;
    var buffer: seq<byte> := s[start..] + seq(7 - left, _ => 0);
    var p := start;
    units, ok := unitsIn, true;
    var first := true;
    while first || p - start < left
      invariant start <= p <= |s| && (first ==> p < |s|)
      invariant Prefixed(unitsIn, Transcode(s, start)) == Prefixed(units, Transcode(s, p))
      decreases |s| - p, first
    {
      first := false;
      var q := p - start;
      var four := buffer[q..q + 4];
      Window(s, start, buffer, q, four);
      ok, p, units := Step(s, p, four, units);
      if !ok {
        return;
      }
    }
  }

  /** The padded copy holds what follows the string in the model: zeros. */
  lemma Window(s: seq<byte>, start: nat, buffer: seq<byte>, q: nat, four: seq<byte>)
    requires start + q < |s| <= start + 3 && |buffer| == 7 && four == buffer[q..q + 4]
    requires buffer == s[start..] + seq(7 - (|s| - start), _ => 0)
    ensures forall k :: 0 <= k < 4 ==> four[k] == At(s, start + q + k)
  {
  }

  // ----------------------------------------------------------- what it means

  /** s[p..] is a sequence of well-formed sequences. */
  ghost predicate AllWellFormed(s: seq<byte>, p: nat)
    requires p <= |s|
    decreases |s| - p
  {
    p == |s| || (WellFormed(s[p..]) > 0 && AllWellFormed(s, p + WellFormed(s[p..])))
  }

  /** s[p..] is that, with stray bytes in between. */
  ghost predicate Accepted(s: seq<byte>, p: nat)
    requires p <= |s|
    decreases |s| - p
  {
    p == |s| || (Taken(s, p) > 0 && Accepted(s, p + Taken(s, p)))
  }

  /** Transcoding succeeds exactly for those strings. */
  lemma {:induction false} TranscodesAccepted(s: seq<byte>, p: nat)
    requires p <= |s|
    ensures Transcode(s, p).Units? <==> Accepted(s, p)
    decreases |s| - p
  {
    if p < |s| && Taken(s, p) > 0 {
      TranscodesAccepted(s, p + Taken(s, p));
    }
  }

  /** The scalar value that a sequence of bytes stands for: its own, or the low seven bits of a stray byte. */
  ghost predicate Represents(t: seq<byte>, cp: scalar)
  {
    t == Encode(cp) || (|t| == 1 && IsStray(t[0]) && cp == t[0] % 0x80)
  }

  /** s[p..] is taken apart into sequences that stand for cps. */
  ghost predicate StandsFor(s: seq<byte>, p: nat, cps: seq<scalar>)
    requires p <= |s|
    decreases |s| - p
  {
    if p == |s| then cps == []
    else
      var n := Taken(s, p);
      n > 0 && cps != [] && Represents(s[p..p + n], cps[0]) && StandsFor(s, p + n, cps[1..])
  }

  /** Reading the transcoding gives what the string stands for. */
  lemma TranscodeReads(s: seq<byte>) returns (cps: seq<scalar>)
    requires Transcode(s, 0).Units?
    ensures StandsFor(s, 0, cps) && ReadUtf16(Transcode(s, 0).units) == Scalars(cps)
  {
    forall q: nat | q < |s| && WalkOver(s).transcoded(q).Units?
      ensures CanWalk(WalkOver(s), |s|, q)
    {
      WalksOn(s, q);
    }
    cps := WalkOn(WalkOver(s), |s|, 0);
  }

  /** The transcoding from a position, reading it, and what the string stands for from there. */
  datatype Walk = Walk(transcoded: nat -> Transcoded, read: seq<nat> -> Read, stands: (nat, seq<scalar>) -> bool)

  ghost function WalkOver(s: seq<byte>): Walk
  {
    Walk((q: nat) => Transcode(s, q), (units: seq<nat>) => ReadUtf16(units),
         (q: nat, cps: seq<scalar>) => q <= |s| && StandsFor(s, q, cps))
  }

  ghost predicate ReadsAs(w: Walk, units: seq<nat>, cp: scalar, rest: seq<nat>)
  {
    w.read(units + rest) == Followed(cp, w.read(rest))
  }

  ghost predicate StandsAs(w: Walk, q: nat, n: nat, cp: scalar, cps: seq<scalar>)
  {
    w.stands(q + n, cps) ==> w.stands(q, [cp] + cps)
  }

  ghost predicate Walks(w: Walk, end: nat, q: nat, n: nat, units: seq<nat>, cp: scalar)
  {
    && 1 <= n && q + n <= end && w.transcoded(q) == Prefixed(units, w.transcoded(q + n))
    && (forall rest :: ReadsAs(w, units, cp, rest)) && (forall cps :: StandsAs(w, q, n, cp, cps))
  }

  ghost predicate CanWalk(w: Walk, end: nat, q: nat)
  {
    exists n: nat, units, cp :: Walks(w, end, q, n, units, cp)
  }

  lemma {:induction false} WalkOn(w: Walk, end: nat, p: nat) returns (cps: seq<scalar>)
    requires p <= end && w.transcoded(p).Units?
    requires w.transcoded(end) == Units([]) && w.read([]) == Scalars([]) && w.stands(end, [])
    requires forall q: nat :: q < end && w.transcoded(q).Units? ==> CanWalk(w, end, q)
    ensures w.stands(p, cps) && w.read(w.transcoded(p).units) == Scalars(cps)
    decreases end - p
  {
    if p == end {
      cps := [];
    } else {
      assert CanWalk(w, end, p);
      var n: nat, units, cp :| Walks(w, end, p, n, units, cp);
      var rest := WalkOn(w, end, p + n);
      assert ReadsAs(w, units, cp, w.transcoded(p + n).units) && StandsAs(w, p, n, cp, rest);
      cps := [cp] + rest;
    }
  }

  lemma WalksOn(s: seq<byte>, q: nat)
    requires q < |s| && Transcode(s, q).Units?
    ensures CanWalk(WalkOver(s), |s|, q)
  {
    var cp := TakenStandsFor(s, q);
    var n := Taken(s, q);
    ReadsCode(s, cp);
    StandsWith(s, q, n, cp);
    MakeWalks(WalkOver(s), |s|, q, n, Utf16(cp), cp);
  }

  lemma MakeWalks(w: Walk, end: nat, q: nat, n: nat, units: seq<nat>, cp: scalar)
    requires 1 <= n && q + n <= end && w.transcoded(q) == Prefixed(units, w.transcoded(q + n))
    requires (forall rest :: ReadsAs(w, units, cp, rest)) && (forall cps :: StandsAs(w, q, n, cp, cps))
    ensures CanWalk(w, end, q)
  {
    assert Walks(w, end, q, n, units, cp);
  }

  lemma ReadsCode(s: seq<byte>, cp: scalar)
    ensures forall rest :: ReadsAs(WalkOver(s), Utf16(cp), cp, rest)
  {
    forall rest
      ensures ReadsAs(WalkOver(s), Utf16(cp), cp, rest)
    {
      ReadFirst(cp, rest);
    }
  }

  lemma StandsWith(s: seq<byte>, q: nat, n: nat, cp: scalar)
    requires q < |s| && 0 < n == Taken(s, q) && Represents(s[q..q + n], cp)
    ensures forall cps :: StandsAs(WalkOver(s), q, n, cp, cps)
  {
    forall cps
      ensures StandsAs(WalkOver(s), q, n, cp, cps)
    {
      StandsOn(s, q, n, cp, cps);
    }
  }

  lemma StandsOn(s: seq<byte>, q: nat, n: nat, cp: scalar, cps: seq<scalar>)
    requires q < |s| && 0 < n == Taken(s, q) && Represents(s[q..q + n], cp)
    ensures StandsAs(WalkOver(s), q, n, cp, cps)
  {
    assert ([cp] + cps)[1..] == cps;
  }

  lemma TakenStandsFor(s: seq<byte>, p: nat) returns (cp: scalar)
    requires p < |s| && Taken(s, p) > 0
    ensures
      var n := Taken(s, p);
      n <= 4 && Represents(s[p..p + n], cp) && Transcode(s, p) == Prefixed(Utf16(cp), Transcode(s, p + n))
  {
    TakenIsCodePoint(s, p);
    cp := CodePoint(s[p..p + Taken(s, p)]);
  }

  /** A well-formed string is the UTF-8 of some scalar values, and its transcoding is their UTF-16. */
  lemma WellFormedTranscodes(s: seq<byte>, p: nat) returns (cps: seq<scalar>)
    requires p <= |s| && AllWellFormed(s, p)
    ensures EncodeAll(cps) == s[p..] && Transcode(s, p) == Units(Utf16All(cps))
  {
    forall q: nat | q < |s| && ReaderOf(s).holds(q)
      ensures CanRead(ReaderOf(s), s, q)
    {
      ReadsWellFormed(s, q);
    }
    cps := ReadAll(ReaderOf(s), s, p);
  }

  ghost function ReaderOf(s: seq<byte>): Reader
  {
    Reader((q: nat) => q <= |s| && AllWellFormed(s, q), (q: nat) => Transcode(s, q),
           (cp: scalar) => Encode(cp), (cp: scalar) => Utf16(cp))
  }

  lemma ReadsWellFormed(s: seq<byte>, q: nat)
    requires q < |s| && AllWellFormed(s, q)
    ensures CanRead(ReaderOf(s), s, q)
  {
    var n, cp := FirstScalar(s, q);
    GoesOn(s, q, n, cp);
    CodeOf(s, q, n, cp);
    MakeReads(ReaderOf(s), s, q, n, cp);
  }

  /** Where the first sequence ends, and the scalar value it encodes. */
  lemma FirstScalar(s: seq<byte>, p: nat) returns (n: nat, cp: scalar)
    requires p < |s| && WellFormed(s[p..]) > 0
    ensures n == WellFormed(s[p..]) == Taken(s, p) <= 4 && p + n <= |s|
    ensures cp == CodePoint(s[p..p + n]) && Encode(cp) == s[p..p + n]
  {
    n := WellFormed(s[p..]);
    NotStray(s[p..]);
    TakenIsCodePoint(s, p);
    cp := CodePoint(s[p..p + n]);
  }

  lemma GoesOn(s: seq<byte>, q: nat, n: nat, cp: scalar)
    requires q < |s| && AllWellFormed(s, q) && 0 < n == WellFormed(s[q..]) == Taken(s, q) <= 4
    requires cp == CodePoint(s[q..q + n])
    ensures
      var r := ReaderOf(s);
      r.holds(q + n) && r.transcoded(q) == Prefixed(r.units(cp), r.transcoded(q + n))
  {
  }

  lemma CodeOf(s: seq<byte>, q: nat, n: nat, cp: scalar)
    requires q + n <= |s| && Encode(cp) == s[q..q + n]
    ensures ReaderOf(s).code(cp) == s[q..q + n]
  {
  }

  lemma MakeReads(r: Reader, s: seq<byte>, q: nat, n: nat, cp: scalar)
    requires 1 <= n && q + n <= |s| && r.holds(q + n) && r.code(cp) == s[q..q + n]
    requires r.transcoded(q) == Prefixed(r.units(cp), r.transcoded(q + n))
    ensures CanRead(r, s, q)
  {
    assert Reads(r, s, q, n, cp);
  }

  /** A property of positions that lets one code be read, the transcoding, and the two codes of a scalar value. */
  datatype Reader = Reader(holds: nat -> bool, transcoded: nat -> Transcoded,
                           code: scalar -> seq<byte>, units: scalar -> seq<nat>)

  ghost predicate Reads(r: Reader, s: seq<byte>, q: nat, n: nat, cp: scalar)
  {
    && 1 <= n && q + n <= |s| && r.holds(q + n) && r.code(cp) == s[q..q + n]
    && r.transcoded(q) == Prefixed(r.units(cp), r.transcoded(q + n))
  }

  ghost predicate CanRead(r: Reader, s: seq<byte>, q: nat)
  {
    exists n: nat, cp: scalar :: Reads(r, s, q, n, cp)
  }

  /** Reading code after code to the end. */
  lemma {:induction false} ReadAll(r: Reader, s: seq<byte>, p: nat) returns (cps: seq<scalar>)
    requires p <= |s| && r.holds(p) && r.transcoded(|s|) == Units([])
    requires forall q: nat :: q < |s| && r.holds(q) ==> CanRead(r, s, q)
    ensures Concat(r.code, cps) == s[p..] && r.transcoded(p) == Units(Concat(r.units, cps))
    decreases |s| - p
  {
    if p == |s| {
      cps := [];
    } else {
      assert CanRead(r, s, p);
      var n: nat, cp: scalar :| Reads(r, s, p, n, cp);
      var rest := ReadAll(r, s, p + n);
      cps := [cp] + rest;
      assert cps[0] == cp && cps[1..] == rest;
      assert s[p..p + n] + s[p + n..] == s[p..];
    }
  }

  lemma NotStray(s: seq<byte>)
    requires WellFormed(s) > 0
    ensures !IsStray(s[0])
  {
  }

  /** And the UTF-8 of any scalar values is well-formed and transcodes to their UTF-16. */
  lemma EncodedIsWellFormed(cps: seq<scalar>, s: seq<byte>, p: nat)
    requires p <= |s| && s[p..] == EncodeAll(cps)
    ensures AllWellFormed(s, p) && Transcode(s, p) == Units(Utf16All(cps))
  {
    forall cp: scalar, q: nat | q <= |s| && Encode(cp) <= s[q..]
      ensures AllWellFormed(s, q + |Encode(cp)|) ==> AllWellFormed(s, q)
    {
      EncodeWellFormed(cp, s[q..]);
    }
    WellFormedConcat((q: nat) => q <= |s| && AllWellFormed(s, q), (cp: scalar) => Encode(cp), cps, s, p);
    var found := WellFormedTranscodes(s, p);
    SameScalars(found, cps);
  }

  /** A property that every code carries to its start holds at the start of a concatenation of codes. */
  lemma {:induction false} WellFormedConcat(holds: nat -> bool, code: scalar -> seq<byte>, cps: seq<scalar>,
                                            s: seq<byte>, p: nat)
    requires p <= |s| && s[p..] == Concat(code, cps) && holds(|s|)
    requires forall cp: scalar, q: nat :: q <= |s| && code(cp) <= s[q..] && holds(q + |code(cp)|) ==> holds(q)
    ensures holds(p)
    decreases |cps|
  {
    if cps != [] {
      SplitOff(s, p, code(cps[0]), Concat(code, cps[1..]));
      WellFormedConcat(holds, code, cps[1..], s, p + |code(cps[0])|);
    }
  }

  /** The scalar values can be read back from their UTF-8. */
  lemma SameScalars(a: seq<scalar>, b: seq<scalar>)
    requires EncodeAll(a) == EncodeAll(b)
    ensures a == b
  {
    forall x: scalar, y: scalar, u: seq<byte>, v: seq<byte> | Encode(x) + u == Encode(y) + v
      ensures x == y
    {
      PrefixFree(x, y, u, v);
    }
    CodesDecide((cp: scalar) => Encode(cp), a, b);
  }

  lemma PrefixFree(x: scalar, y: scalar, u: seq<byte>, v: seq<byte>)
    requires Encode(x) + u == Encode(y) + v
    ensures x == y
  {
    EncodeWellFormed(x, Encode(x) + u);
    EncodeWellFormed(y, Encode(y) + v);
    assert (Encode(x) + u)[..|Encode(x)|] == Encode(x) && (Encode(y) + v)[..|Encode(y)|] == Encode(y);
    CodePointOfEncode(x);
    CodePointOfEncode(y);
  }

  lemma {:induction false} CodesDecide(code: scalar -> seq<byte>, a: seq<scalar>, b: seq<scalar>)
    requires Concat(code, a) == Concat(code, b) && forall x :: code(x) != []
    requires forall x: scalar, y: scalar, u: seq<byte>, v: seq<byte> :: code(x) + u == code(y) + v ==> x == y
    ensures a == b
    decreases |a|
  {
    if a != [] && b != [] {
      assert a[0] == b[0];
      assert Concat(code, a)[|code(a[0])|..] == Concat(code, a[1..]);
      assert Concat(code, b)[|code(b[0])|..] == Concat(code, b[1..]);
      CodesDecide(code, a[1..], b[1..]);
      assert a == [a[0]] + a[1..] && b == [b[0]] + b[1..];
    }
  }

  lemma SplitOff(s: seq<byte>, p: nat, first: seq<byte>, rest: seq<byte>)
    requires p <= |s| && s[p..] == first + rest
    ensures p + |first| <= |s| && s[p..p + |first|] == first && s[p + |first|..] == rest && first <= s[p..]
  {
    assert s[p..][..|first|] == first && s[p..][|first|..] == rest;
  }

  lemma EncodeWellFormed(cp: scalar, s: seq<byte>)
    requires Encode(cp) <= s
    ensures WellFormed(s) == |Encode(cp)| && !IsStray(s[0])
  {
    var e := Encode(cp);
    assert s[0] == e[0] && (|e| > 1 ==> s[1] == e[1]) && (|e| > 2 ==> s[2] == e[2]) && (|e| > 3 ==> s[3] == e[3]);
    if 0x800 <= cp < 0x10000 {
      ThreeBytes(cp);
    } else if cp >= 0x10000 {
      FourBytes(cp);
    }
  }

  lemma ThreeBytes(cp: nat)
    requires 0x800 <= cp < 0x10000 && IsScalar(cp)
    ensures Three(0xE0 + cp / 4096, 0x80 + cp / 64 % 64)
  {
    assert cp / 64 == cp / 4096 * 64 + cp / 64 % 64;
  }

  lemma FourBytes(cp: nat)
    requires 0x10000 <= cp <= 0x10FFFF
    ensures Four(0xF0 + cp / 262144, 0x80 + cp / 4096 % 64)
  {
    assert cp / 4096 == cp / 262144 * 64 + cp / 4096 % 64;
  }

  /** A byte that cannot start a sequence is not rejected but read as its low seven bits. */
  lemma StrayBytesPass(b: byte)
    requires IsStray(b)
    ensures !AllWellFormed([b], 0) && Transcode([b], 0) == Units([b % 0x80])
  {
    assert [b][0..] == [b] && [b][0..1] == [b];
    assert Transcode([b], 1) == Units([]);
  }
}
