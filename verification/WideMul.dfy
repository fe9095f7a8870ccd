/**
  Wide multiplication from 32-bit halves, for platforms without a 128-bit integer.
  Every intermediate word is proved to fit in 64 bits, except where the program
  lets one wrap, which is written as a remainder.
 */
module WideMul {
  import opened Words
  import opened Powers

  datatype Uint128 = Uint128(high: u64, low: u64) {
    function Value(): nat { high * TWO64 + low }
  }

  /** The four partial products of the 32-bit halves. */
  lemma Halves(x: u64, y: u64)
    ensures
      var a, b, c, d := x / TWO32, x % TWO32, y / TWO32, y % TWO32;
      && 0 <= a * c <= 0xFFFF_FFFE_0000_0001 && 0 <= b * c <= 0xFFFF_FFFE_0000_0001
      && 0 <= a * d <= 0xFFFF_FFFE_0000_0001 && 0 <= b * d <= 0xFFFF_FFFE_0000_0001
      && x * y == TWO64 * (a * c) + TWO32 * (a * d) + TWO32 * (b * c) + b * d
  {
    var a, b, c, d := x / TWO32, x % TWO32, y / TWO32, y % TWO32;
    HalfProduct(a, c);
    HalfProduct(b, c);
    HalfProduct(a, d);
    HalfProduct(b, d);
    Expand(a, b, c, d);
  }

  lemma HalfProduct(x: u32, y: u32)
    ensures 0 <= x * y <= 0xFFFF_FFFE_0000_0001
  {
    MulBound(x, 0xFFFF_FFFF, y, 0xFFFF_FFFF);
  }

  lemma Expand(a: nat, b: nat, c: nat, d: nat)
    ensures (TWO32 * a + b) * (TWO32 * c + d)
         == TWO64 * (a * c) + TWO32 * (a * d) + TWO32 * (b * c) + b * d
  {
    MulDistribute(TWO32 * a, b, TWO32 * c + d);
    assert (TWO32 * a) * (TWO32 * c + d) == TWO64 * (a * c) + TWO32 * (a * d);
    assert b * (TWO32 * c + d) == TWO32 * (b * c) + b * d;
  }

  /** The high 64 bits of the product, rounded half up. */
  function Multiply(lhs: u64, rhs: u64): (r: u64)
    ensures r == (lhs * rhs + 0x8000_0000_0000_0000) / TWO64
  {
    Halves(lhs, rhs);
    var a, b, c, d := lhs / TWO32, lhs % TWO32, rhs / TWO32, rhs % TWO32;
    var ac: u64, bc: u64, ad: u64, bd: u64 := a * c, b * c, a * d, b * d;
    RoundedHigh(ac, bc, ad, bd, lhs * rhs);
    var mid: u64 := bd / TWO32 + ad % TWO32 + bc % TWO32 + 0x8000_0000;
    ac + ad / TWO32 + bc / TWO32 + mid / TWO32
  }

  lemma RoundedHigh(ac: nat, bc: nat, ad: nat, bd: nat, product: nat)
    requires ac <= 0xFFFF_FFFE_0000_0001 && bc <= 0xFFFF_FFFE_0000_0001
    requires ad <= 0xFFFF_FFFE_0000_0001 && bd <= 0xFFFF_FFFE_0000_0001
    requires product == TWO64 * ac + TWO32 * ad + TWO32 * bc + bd
    ensures
      var mid := bd / TWO32 + ad % TWO32 + bc % TWO32 + 0x8000_0000;
      var r := ac + ad / TWO32 + bc / TWO32 + mid / TWO32;
      mid < TWO64 && r < TWO64 && r == (product + 0x8000_0000_0000_0000) / TWO64
  {
  }

  /** The full 128-bit product. */
  function Umul128(x: u64, y: u64): (r: Uint128)
    ensures r.Value() == x * y
  {
    Halves(x, y);
    var a, b, c, d := x / TWO32, x % TWO32, y / TWO32, y % TWO32;
    var ac: u64, bc: u64, ad: u64, bd: u64 := a * c, b * c, a * d, b * d;
    FullProduct(ac, bc, ad, bd, x * y);
    var intermediate: u64 := bd / TWO32 + ad % TWO32 + bc % TWO32;
    Uint128(ac + intermediate / TWO32 + ad / TWO32 + bc / TWO32,
            (intermediate * TWO32) % TWO64 + bd % TWO32)
  }

  lemma FullProduct(ac: nat, bc: nat, ad: nat, bd: nat, product: nat)
    requires ac <= 0xFFFF_FFFE_0000_0001 && bc <= 0xFFFF_FFFE_0000_0001
    requires ad <= 0xFFFF_FFFE_0000_0001 && bd <= 0xFFFF_FFFE_0000_0001
    requires product == TWO64 * ac + TWO32 * ad + TWO32 * bc + bd
    ensures
      var mid := bd / TWO32 + ad % TWO32 + bc % TWO32;
      var high := ac + mid / TWO32 + ad / TWO32 + bc / TWO32;
      var low := (mid * TWO32) % TWO64 + bd % TWO32;
      mid < TWO64 && low < TWO64 && high * TWO64 + low == product && high < TWO64
  {
  }

  /** Adds a word to a 128-bit number, wrapping at 2^128. */
  function AddWord(x: Uint128, n: u64): (r: Uint128)
    ensures r.Value() == (x.Value() + n) % TWO128
  {
    assert x.low + n < TWO64 ==> (x.low + n) % TWO64 == x.low + n;
    assert x.low + n >= TWO64 ==> (x.low + n) % TWO64 == x.low + n - TWO64 < x.low;
    var sum: u64 := (x.low + n) % TWO64;
    Uint128((x.high + if sum < x.low then 1 else 0) % TWO64, sum)
  }

  function Umul128Upper64(x: u64, y: u64): (r: u64)
    ensures r == (x * y) / TWO64
  {
    Umul128(x, y).high
  }

  /** The top 64 of the 192 bits of x * y. */
  function Umul192Upper64(x: u64, y: Uint128): (r: u64)
    ensures r == (x * y.Value()) / TWO128
  {
    var g := Umul128(x, y.high);
    var t := Umul128Upper64(x, y.low);
    UpperWord(x, y.high, y.low, t);
    var sum := AddWord(g, t);
    HighWord(sum, x * y.high + t);
    sum.high
  }

  lemma HighWord(x: Uint128, v: nat)
    requires v < TWO128 && x.Value() == v % TWO128
    ensures x.high == v / TWO64
  {
  }

  lemma UpperWord(x: u64, high: u64, low: u64, t: nat)
    requires t == (x * low) / TWO64
    ensures x * high + t < TWO128
    ensures (x * high + t) / TWO64 == (x * (high * TWO64 + low)) / TWO128
  {
    MulBound(x, 0xFFFF_FFFF_FFFF_FFFF, high, 0xFFFF_FFFF_FFFF_FFFF);
    MulBound(x, 0xFFFF_FFFF_FFFF_FFFF, low, 0xFFFF_FFFF_FFFF_FFFF);
    WideProduct(x, high, low);
    WordCut(x * high, x * low);
  }

  lemma WordCut(p: nat, q: nat)
    ensures (p + q / TWO64) / TWO64 == (TWO64 * p + q) / TWO128
    ensures (p + q / TWO64) % TWO64 == ((TWO64 * p + q) / TWO64) % TWO64
  {
  }

  /** The middle 64 of the 192 bits of x * y; both words wrap. */
  function Umul192Middle64(x: u64, y: Uint128): (r: u64)
    ensures r == ((x * y.Value()) / TWO64) % TWO64
  {
    var g01: u64 := (x * y.high) % TWO64;
    var g10 := Umul128Upper64(x, y.low);
    MiddleWord(x, y.high, y.low, g10);
    (g01 + g10) % TWO64
  }

  lemma MiddleWord(x: u64, high: u64, low: u64, t: nat)
    requires t == (x * low) / TWO64
    ensures 0 <= x * high
    ensures ((x * high) % TWO64 + t) % TWO64 == ((x * (high * TWO64 + low)) / TWO64) % TWO64
  {
    MulNonNegative(x, high);
    MulNonNegative(x, low);
    WideProduct(x, high, low);
    WordCut(x * high, x * low);
    WrapTwice(x * high, t);
  }

  lemma WideProduct(x: nat, high: nat, low: nat)
    ensures x * (high * TWO64 + low) == TWO64 * (x * high) + x * low
  {
  }

  lemma WrapTwice(p: nat, t: nat)
    ensures (p % TWO64 + t) % TWO64 == (p + t) % TWO64
  {
  }

  const RECIPROCAL_1000: nat := 0x83126e978d4fdf3c

  /** Division by 1000 as a multiplication by a rounded-up reciprocal and a shift. */
  function DivideBy1000(n: u64): (r: nat)
    ensures r == n / 1000 <==> (n % 1000) * 0x200_0000_0000_0000_0000 + 608 * n < 1000 * 0x200_0000_0000_0000_0000
  {
    ReciprocalShift(n);
    Umul128Upper64(n, RECIPROCAL_1000) / 512
  }

  lemma ReciprocalShift(n: u64)
    ensures
      var r := ((n * RECIPROCAL_1000) / TWO64) / 512;
      r == n / 1000 <==> (n % 1000) * 0x200_0000_0000_0000_0000 + 608 * n < 1000 * 0x200_0000_0000_0000_0000
  {
    assert RECIPROCAL_1000 * 1000 == 0x200_0000_0000_0000_0000 + 608;
  }

  /** In particular it is exact on every n below 2^73 / 608, about 1.55e19. */
  lemma DivideBy1000Exact(n: u64)
    requires 608 * n < 0x200_0000_0000_0000_0000
    ensures DivideBy1000(n) == n / 1000
  {
  }
}
