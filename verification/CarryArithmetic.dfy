/**
  The one-bigit steps of the carry and borrow loops, as plain arithmetic.
 */
module CarryArithmetic {
  import opened Words
  import opened Powers
  import opened Bigits
  import opened BigitOrder
  import opened Convolution

  /** One step of a multiply-by-m loop: bigits so far, carry, and the next bigit d. */
  lemma CarryStep(done: nat, carry: nat, w: nat, low: nat, m: nat, d: nat, out: nat, next: nat)
    requires done + carry * w == low * m
    requires out + BASE * next == d * m + carry
    ensures (done + out * w) + next * (BASE * w) == (low + d * w) * m
  {
    calc {
      (done + out * w) + next * (BASE * w);
      { assert next * (BASE * w) == (BASE * next) * w; }
      done + out * w + (BASE * next) * w;
      { assert (out + BASE * next) * w == out * w + (BASE * next) * w; }
      done + (d * m + carry) * w;
      { assert (d * m + carry) * w == (d * m) * w + carry * w; }
      low * m + (d * m) * w;
      { assert (d * m) * w == (d * w) * m; }
      (low + d * w) * m;
    }
  }

  /** The same step on a sequence being rewritten in place from `was`. */
  lemma ProductStep(was: seq<bigit>, now: seq<bigit>, i: nat, m: nat, carry: nat, out: bigit, next: nat)
    requires |was| == |now| && i < |was|
    requires Val(now[..i]) + carry * Weight(i) == Val(was[..i]) * m
    requires out + BASE * next == was[i] * m + carry
    ensures Val(now[i := out][..i + 1]) + next * Weight(i + 1) == Val(was[..i + 1]) * m
  {
    var after := now[i := out];
    ValPrefix(was, i);
    ValPrefix(after, i);
    assert after[..i] == now[..i];
    CarryStep(Val(now[..i]), carry, Weight(i), Val(was[..i]), m, was[i], out, next);
  }

  /** Appending the low bigit of the carry keeps the total. */
  lemma PushStep(carry: nat, w: nat)
    ensures carry * w == (carry % TWO32) * w + (carry / TWO32) * (BASE * w)
  {
    var q, r := carry / TWO32, carry % TWO32;
    assert carry == q * TWO32 + r;
    assert (q * TWO32 + r) * w == (q * TWO32) * w + r * w;
    assert q * (BASE * w) == (q * BASE) * w;
  }

  lemma WordProduct(b: bigit, value: u32, carry: u32)
    ensures 0 <= b * value + carry < TWO64
    ensures (b * value + carry) / BASE < TWO32
  {
    MulBound(b, BASE - 1, value, TWO32 - 1);
    QuotientBound(b * value, carry);
  }

  lemma QuotientBound(p: nat, carry: u32)
    requires p <= (BASE - 1) * (TWO32 - 1)
    ensures p + carry < TWO64 && (p + carry) / BASE < TWO32
  {
  }

  /**
    The 64-bit multiplication step: the carry expression never exceeds the
    multiplier, so it cannot wrap; and it is the exact high part.
   */
  lemma WideProduct(b: bigit, value: u64, carry: u64)
    requires carry <= value
    ensures
      var result := b * (value % TWO32) + carry % TWO32;
      var next := b * (value / TWO32) + result / TWO32 + carry / TWO32;
      && 0 <= result < TWO64
      && 0 <= next <= value
      && result % TWO32 + BASE * next == b * value + carry
  {
    var l, u := value % TWO32, value / TWO32;
    WordProduct(b, l, carry % TWO32);
    Distribute(b, u, l);
    MulMonotone(b, BASE - 1, value);
    WideParts(b * l, b * u, b * value, value, carry);
  }

  lemma Distribute(b: nat, u: nat, l: nat)
    ensures b * (TWO32 * u + l) == TWO32 * (b * u) + b * l
    ensures b * u >= 0 && b * l >= 0
  {
  }

  lemma WideParts(bl: nat, bu: nat, product: nat, value: u64, carry: u64)
    requires product == TWO32 * bu + bl && product <= (BASE - 1) * value && carry <= value
    ensures
      var result := bl + carry % TWO32;
      var next := bu + result / TWO32 + carry / TWO32;
      next <= value && result % TWO32 + BASE * next == product + carry
  {
  }

  lemma ScaleValue(v: nat, m: nat, w: nat)
    ensures (v * m) * w == (v * w) * m
  {
  }

  /** Multiplying by a positive number without growing keeps the top bigit non-zero. */
  lemma KeepsTop(was: seq<bigit>, now: seq<bigit>, m: nat)
    requires |was| <= |now| && Val(now) == Val(was) * m
    requires |now| > |was| ==> TopNonZero(now)
    ensures TopNonZero(was) && m > 0 ==> TopNonZero(now)
  {
    if TopNonZero(was) && m > 0 && |now| == |was| {
      ValTop(was);
      ValTop(now);
      Grows(Val(was), m);
    }
  }

  lemma Grows(v: nat, m: nat)
    requires m > 0
    ensures v <= v * m
  {
  }

  /** Shifting one bigit left by s bits. */
  lemma BigitShift(b: bigit, s: nat, p: nat, q: nat)
    requires 0 < s < 32 && p == Pow(2, s) && q == Pow(2, 32 - s)
    ensures b / q < p
    ensures (b * p) % BASE + BASE * (b / q) == b * p
    ensures (b * p) % BASE + p <= BASE
  {
    assert p * q == BASE by {
      PowAdd(2, s, 32 - s);
      TwoTo32();
    }
    ShiftParts(b, p, q, BASE);
  }

  lemma ShiftParts(b: nat, p: nat, q: nat, base: nat)
    requires p > 0 && q > 0 && p * q == base && b < base
    ensures b / q < p
    ensures (b * p) % base + base * (b / q) == b * p
    ensures (b * p) % base + p <= base
  {
    ShiftSplit(b, p, q, base, b / q, b % q);
  }

  lemma ShiftSplit(b: nat, p: nat, q: nat, base: nat, hi: nat, lo: nat)
    requires p > 0 && q > 0 && p * q == base && b < base && b == hi * q + lo && lo < q
    ensures hi < p && (b * p) % base + base * hi == b * p && (b * p) % base + p <= base
  {
    if hi >= p {
      MulMonotone(p, hi, q);
      assert false;
    }
    ShiftProduct(hi, q, lo, p);
    MulMonotone(lo + 1, q, p);
    MulDistribute(lo, 1, p);
    MulNonNegative(lo, p);
    DivModUnique(b * p, base, hi, lo * p);
  }

  /** One bigit of a shift, carry included. */
  lemma ShiftStep(was: seq<bigit>, now: seq<bigit>, i: nat, s: nat, up: nat, down: nat, carry: nat)
    requires |was| == |now| && i < |was| && now[i..] == was[i..] && carry < up
    requires 0 < s < 32 && up == Pow(2, s) && down == Pow(2, 32 - s)
    requires Val(now[..i]) + carry * Weight(i) == Val(was[..i]) * up
    ensures
      var c, moved := now[i] / down, (now[i] * up) % BASE + carry;
      && 0 <= c < up && 0 <= moved < BASE && c < BASE
      && Val(now[i := moved][..i + 1]) + c * Weight(i + 1) == Val(was[..i + 1]) * up
  {
    BigitShift(now[i], s, up, down);
    ProductStep(was, now, i, up, carry, (now[i] * up) % BASE + carry, now[i] / down);
  }

  lemma ShiftProduct(hi: nat, q: nat, lo: nat, p: nat)
    ensures (hi * q + lo) * p == hi * (p * q) + lo * p
  {
    assert (hi * q) * p == hi * (p * q);
  }

  /** Splitting a shift into whole bigits and the rest. */
  lemma ShiftWeight(v: nat, e: nat, shift: nat, p: nat, t: nat)
    requires p == Pow(2, shift % 32) && t == Pow(2, shift)
    ensures (v * p) * Weight(e + shift / 32) == (v * Weight(e)) * t
  {
    var k, s := shift / 32, shift % 32;
    assert Weight(e + k) == Weight(e) * Weight(k) by {
      PowAdd(BASE, e, k);
    }
    assert t == Weight(k) * p by {
      PowAdd(2, 32 * k, s);
      PowPow(2, 32, k);
      TwoTo32();
    }
    FourFactors(v, p, Weight(e), Weight(k));
  }

  lemma FourFactors(v: nat, p: nat, w: nat, u: nat)
    ensures (v * p) * (w * u) == (v * w) * (u * p)
  {
    assert p * (w * u) == w * (u * p);
  }

  /** Adding one more product to the running sum stays inside 128 bits. */
  lemma SumStep(n: seq<bigit>, k: nat, i: nat, carry: nat)
    requires i < |n| < 0x4000_0000 && 0 <= k - i < |n| && carry <= |n| * BASE
    ensures Mul(n[i], n[k - i]) < TWO64
    ensures Diagonal(n, k, i + 1) == Diagonal(n, k, i) + Mul(n[i], n[k - i])
    ensures (carry + Diagonal(n, k, i) + Mul(n[i], n[k - i])) % TWO128 == carry + Diagonal(n, k, i + 1)
  {
    ProductBound(n[i], n[k - i]);
    DiagonalBound(n, k, i + 1);
  }

  lemma SquareValue(was: seq<bigit>, now: seq<bigit>, e: nat)
    requires Val(now) == Val(was) * Val(was) && (|now| > 1 ==> TopNonZero(now))
    requires was != [] ==> now != []
    ensures ValueOf(now, e * 2) == ValueOf(was, e) * ValueOf(was, e)
    ensures TopNonZero(was) ==> TopNonZero(now)
  {
    PowAdd(BASE, e, e);
    FourFactors(Val(was), Val(was), Weight(e), Weight(e));
    if TopNonZero(was) && |now| == 1 {
      ValTop(was);
      ValTop(now);
      Grows(Val(was), Val(was));
      assert Weight(0) == 1;
    }
  }

  // --------------------------------------------------------- power of ten

  lemma TopBit(e: nat, m: nat)
    requires m > 0 && m <= e < 2 * m
    ensures e / m == 1
  {
    DivModUnique(e, m, 1, e - m);
  }

  /** Moving one bit down: the consumed bits double and take the next bit. */
  lemma NextBit(e: nat, mask: nat, t: int)
    requires t >= 0 && mask == Pow(2, t) && mask / 2 != 0
    ensures t >= 1 && mask / 2 == Pow(2, t - 1) && mask == 2 * (mask / 2)
    ensures e / (mask / 2) == 2 * (e / mask) + (e / (mask / 2)) % 2
  {
    var h := mask / 2;
    var q, r := e / h, e % h;
    assert e == q * h + r;
    assert q == 2 * (q / 2) + q % 2;
    var b := q % 2;
    assert e == (q / 2) * mask + (b * h + r) by {
      assert (2 * (q / 2) + b) * h == (q / 2) * (2 * h) + b * h;
    }
    assert 0 <= b * h + r < mask;
    DivModUnique(e, mask, q / 2, b * h + r);
  }

  lemma QuotientAtMost(e: nat, m: nat)
    requires m > 0
    ensures e / m <= e
  {
    MulMonotone(1, m, e / m);
  }

  /** Squaring and taking the next bit extends the power of five by one bit of e. */
  lemma FiveStep(e: nat, mask: nat, t: int, consumed: nat, five: nat)
    requires t >= 0 && mask == Pow(2, t) && mask / 2 != 0
    requires consumed == e / mask && five == Pow(5, consumed)
    ensures t >= 1 && mask / 2 == Pow(2, t - 1) && consumed <= e
    ensures
      var next := e / (mask / 2);
      Pow(5, next) == if next % 2 != 0 then (five * five) * 5 else five * five
  {
    QuotientAtMost(e, mask);
    NextBit(e, mask, t);
    PowAdd(5, consumed, consumed);
  }

  /** A trimmed power of five with a 30-bit exponent has few enough bigits to square. */
  lemma FiveSize(b: seq<bigit>, k: nat)
    requires k < 0x4000_0000 && TopNonZero(b) && ValueOf(b, 0) == Pow(5, k)
    ensures |b| < 0x4000_0000
  {
    var n := |b| - 1;
    ValueAtLeast(b, 0);
    TwoTo32();
    PowPow(2, 32, n);
    PowPow(2, 3, k);
    PowBaseMonotone(5, 8, k);
    assert Pow(2, 3) == 8;
    if 3 * k < 32 * n {
      PowStrict(2, 3 * k, 32 * n);
      assert false;
    }
  }

  // ---------------------------------------------------------- subtraction

  /** One bigit of an aligned subtraction: the subtrahend starts at bigit d. */
  lemma BorrowStep(was: seq<bigit>, now: seq<bigit>, other: seq<bigit>, d: nat, j: nat,
                   borrow: nat, out: bigit, next: nat)
    requires |was| == |now| && j < |other| && d + j < |was|
    requires Val(now[..d + j]) + AlignedTo(other[..j], d) == Val(was[..d + j]) + borrow * Weight(d + j)
    requires out + other[j] + borrow == was[d + j] + BASE * next
    ensures Val(now[d + j := out][..d + j + 1]) + AlignedTo(other[..j + 1], d)
         == Val(was[..d + j + 1]) + next * Weight(d + j + 1)
  {
    var i := d + j;
    var after := now[i := out];
    assert after[..i] == now[..i];
    ValPrefix(after, i);
    ValPrefix(was, i);
    ValPrefix(other, j);
    PowAdd(BASE, d, j);
    BorrowAlgebra(out, other[j], borrow, was[i], next, Weight(d), Val(other[..j]), Weight(j));
  }

  lemma BorrowAlgebra(out: nat, o: nat, borrow: nat, b: nat, next: nat, wd: nat, v: nat, wj: nat)
    requires out + o + borrow == b + BASE * next
    ensures out * (wd * wj) + wd * (v + o * wj) + borrow * (wd * wj)
         == wd * v + b * (wd * wj) + next * (BASE * (wd * wj))
  {
    var w := wd * wj;
    assert wd * (o * wj) == o * w;
    assert wd * (v + o * wj) == wd * v + wd * (o * wj);
    assert next * (BASE * w) == (BASE * next) * w;
    MulDistribute(out + o, borrow, w);
    MulDistribute(out, o, w);
    MulDistribute(b, BASE * next, w);
  }

  /** The effect of writing x over bigit n once the low part has borrowed from it. */
  lemma BorrowSettled(was: seq<bigit>, now: seq<bigit>, n: nat, x: bigit, s: nat)
    requires |was| == |now| && n < |was| && now[n..] == was[n..]
    requires Val(now[..n]) + s == Val(was[..n]) + Weight(n)
    ensures Val(now[n := x]) + s == Val(was) + (1 + x - was[n]) * Weight(n)
  {
    ReplaceBigit(now, n, x);
    ReplaceBigit(was, n, was[n]);
    assert was[n := was[n]] == was;
    assert now[n + 1..] == was[n + 1..];
    SettleAlgebra(x, was[n], Weight(n));
  }

  lemma ReplaceBigit(s: seq<bigit>, n: nat, x: bigit)
    requires n < |s|
    ensures Val(s[n := x]) == Val(s[..n]) + x * Weight(n) + Weight(n + 1) * Val(s[n + 1..])
  {
    var after := s[n := x];
    assert after[..n] == s[..n] && after[n + 1..] == s[n + 1..];
    ValSplit(after, n + 1);
    ValPrefix(after, n);
  }

  lemma SettleAlgebra(x: int, y: int, w: int)
    ensures (1 + x - y) * w == w + x * w - y * w
  {
  }

  /** The bigits of a subtrahend that starts at bigit d. */
  ghost function AlignedTo(other: seq<bigit>, d: nat): nat
  {
    Weight(d) * Val(other)
  }

  /** An aligned subtrahend, scaled by the common weight. */
  lemma AlignedValue(other: seq<bigit>, f: nat, e: nat)
    requires e <= f
    ensures ValueOf(other, f) == AlignedTo(other, f - e) * Weight(e)
  {
    PowAdd(BASE, f - e, e);
    Regroup(Val(other), Weight(f - e), Weight(e));
  }

  lemma ScaledDifference(x: int, y: int, z: int, w: int)
    requires w > 0
    ensures x == y - z <==> x * w == y * w - z * w
  {
    assert (y - z) * w == y * w - z * w;
    if x < y - z { MulStrict(x, y - z, w); } else if x > y - z { MulStrict(y - z, x, w); }
  }

  /** The borrow out of the low part says whether it is smaller than the subtrahend. */
  lemma BorrowNeeded(was: seq<bigit>, low: seq<bigit>, n: nat, borrow: nat, s: nat, w: nat)
    requires |was| == |low| && n <= |was| && borrow <= 1 && w > 0
    requires Val(low[..n]) + s == Val(was[..n]) + borrow * Weight(n)
    requires s * w <= Val(was) * w
    ensures borrow == if Val(was[..n]) < s then 1 else 0
    ensures borrow == 1 ==> n < |was|
  {
    ValBound(low[..n]);
    if borrow == 1 && n == |was| {
      assert was[..n] == was;
      MulStrict(Val(was), s, w);
      assert false;
    }
  }

  /** The bigit the borrow loop leaves at the position it keeps decrementing. */
  function AfterBorrow(b: bigit): bigit
  {
    if b == 0 then 0xFFFF_FFFE else b - 1
  }

  /** What the borrow loop leaves behind, against the true difference. */
  lemma SubtractOutcome(was: seq<bigit>, low: seq<bigit>, n: nat, borrow: nat, s: nat, w: nat)
    requires |was| == |low| && n <= |was| && borrow <= 1 && w > 0 && low[n..] == was[n..]
    requires Val(low[..n]) + s == Val(was[..n]) + borrow * Weight(n)
    requires s * w <= Val(was) * w
    ensures borrow == 1 ==> n < |was|
    ensures
      var now := if borrow == 0 then low else low[n := AfterBorrow(was[n])];
      Val(now) * w == Val(was) * w - s * w <==> !(n < |was| && was[n] == 0 && Val(was[..n]) < s)
  {
    BorrowNeeded(was, low, n, borrow, s, w);
    if borrow == 0 {
      NoBorrowOutcome(was, low, n, s);
      ScaledDifference(Val(low), Val(was), s, w);
    } else {
      BorrowOutcome(was, low, n, s);
      ScaledDifference(Val(low[n := AfterBorrow(was[n])]), Val(was), s, w);
    }
  }

  lemma BorrowOutcome(was: seq<bigit>, low: seq<bigit>, n: nat, s: nat)
    requires |was| == |low| && n < |was| && low[n..] == was[n..]
    requires Val(low[..n]) + s == Val(was[..n]) + Weight(n)
    ensures Val(low[n := AfterBorrow(was[n])]) == Val(was) - s <==> was[n] != 0
  {
    var x := AfterBorrow(was[n]);
    BorrowSettled(was, low, n, x, s);
    var k: int := 1 + x - was[n];
    assert k == (if was[n] == 0 then 0xFFFF_FFFF else 0);
    MulStrict(0, 0xFFFF_FFFF, Weight(n));
  }

  lemma NoBorrowOutcome(was: seq<bigit>, low: seq<bigit>, n: nat, s: nat)
    requires |was| == |low| && n <= |was| && low[n..] == was[n..]
    requires Val(low[..n]) + s == Val(was[..n])
    ensures Val(low) == Val(was) - s
  {
    ValSplit(low, n);
    ValSplit(was, n);
  }

  /** Inserting low zeros trades exponent for bigits. */
  lemma PadValue(b: seq<bigit>, d: nat, e: nat)
    ensures ValueOf(Pad(b, d), e) == ValueOf(b, d + e)
  {
    ValPad(b, d);
    PowAdd(BASE, d, e);
    MulAssociate(Val(b), Weight(d), Weight(e));
  }
}
