/**
  The arbitrary-precision unsigned integer behind exact floating-point output:
  a sequence of 32-bit bigits, least significant first, and an exponent counted in
  bigits.  Every operation is specified by what it does to the value
  Val(bigits) * BASE^exp.
 */
module Bigints {
  import opened Words
  import opened Powers
  import opened Bigits
  import opened BigitOrder
  import opened Convolution
  import opened CarryArithmetic
  import opened Accumulators

  class Bigint {
    var bigits: seq<bigit>
    var exp: nat

    constructor ()
      ensures bigits == [] && exp == 0
    {
      bigits, exp := [], 0;
    }

    ghost function Value(): nat
      reads this
    {
      ValueOf(bigits, exp)
    }

    function NumBigits(): nat
      reads this
    {
      |bigits| + exp
    }

    /** The representation every operation expects: the top bigit is not zero. */
    ghost predicate Trimmed()
      reads this
    {
      TopNonZero(bigits)
    }

    /**
      A usable operand next to `limit`: trimmed, or zero stored with an exponent
      that does not exceed the one of `limit`.
     */
    ghost predicate OperandFor(limit: Bigint)
      reads this, limit
    {
      Operand(bigits, exp, limit.exp)
    }

    // ------------------------------------------------------------ assignment

    method Assign(n: u64)
      modifies this
      ensures Value() == n && exp == 0
      ensures 1 <= |bigits| <= 2 && (n > 0 ==> Trimmed())
    {
      var rest: u64 := n;
      bigits := [rest % BASE];
      rest := rest / BASE;
      assert Val([n % BASE][..0]) == 0 && Val(bigits) == n % BASE;
      assert bigits[..1] == bigits;
      if rest != 0 {
        bigits := bigits + [rest % BASE];
        assert bigits[..1] == [n % BASE];
        assert Val(bigits) == n % BASE + rest * Weight(1);
        assert Weight(1) == BASE;
        rest := rest / BASE;
      }
      exp := 0;
      assert Weight(0) == 1;
    }

    // -------------------------------------------------------- multiplication

    method Multiply32(value: u32)
      modifies this
      ensures Value() == old(Value()) * value && exp == old(exp)
      ensures old(|bigits|) <= |bigits| <= old(|bigits|) + 1
      ensures old(Trimmed()) && value > 0 ==> Trimmed()
      ensures old(bigits) == [0] ==> bigits == [0]
    {
      var carry: u32 := 0;
      var n := |bigits|;
      ghost var was := bigits;
      for i := 0 to n
        invariant |bigits| == n && bigits[i..] == was[i..] && exp == old(exp)
        invariant Val(bigits[..i]) + carry * Weight(i) == Val(was[..i]) * value
        invariant was == [0] ==> bigits == [0] && carry == 0
      {
        var result: nat := bigits[i] * value + carry;
        WordProduct(bigits[i], value, carry);
        ProductStep(was, bigits, i, value, carry, result % BASE, result / BASE);
        bigits := bigits[i := result % BASE];
        carry := result / BASE;
      }
      assert bigits[..n] == bigits && was[..n] == was;
      ghost var body := bigits;
      if carry != 0 {
        bigits := bigits + [carry];
        assert bigits[..n] == body;
      }
      assert Val(bigits) == Val(was) * value;
      ScaleValue(Val(was), value, Weight(exp));
      KeepsTop(was, bigits, value);
    }

    method Multiply64(value: u64)
      modifies this
      ensures Value() == old(Value()) * value && exp == old(exp)
      ensures old(|bigits|) <= |bigits| <= old(|bigits|) + 2
      ensures old(Trimmed()) && value > 0 ==> Trimmed()
    {
      var lower: u32, upper: u32 := value % TWO32, value / TWO32;
      var carry: u64 := 0;
      var n := |bigits|;
      ghost var was := bigits;
      for i := 0 to n
        invariant |bigits| == n && bigits[i..] == was[i..] && exp == old(exp)
        invariant carry <= value
        invariant Val(bigits[..i]) + carry * Weight(i) == Val(was[..i]) * value
      {
        WideProduct(bigits[i], value, carry);
        var result: u64 := bigits[i] * lower + carry % TWO32;
        var next: u64 := bigits[i] * upper + result / TWO32 + carry / TWO32;
        ProductStep(was, bigits, i, value, carry, result % TWO32, next);
        bigits := bigits[i := result % TWO32];
        carry := next;
      }
      assert bigits[..n] == bigits && was[..n] == was;
      ghost var body := bigits;
      while carry != 0
        invariant n <= |bigits| && exp == old(exp)
        invariant |bigits| == n || (|bigits| == n + 1 && carry < TWO32) || (|bigits| == n + 2 && carry == 0)
        invariant Val(bigits) + carry * Weight(|bigits|) == Val(was) * value
        invariant |bigits| > n && carry == 0 ==> Trimmed()
        invariant |bigits| == n ==> bigits == body
      {
        ghost var prefix := bigits;
        bigits := bigits + [carry % TWO32];
        assert bigits[..|prefix|] == prefix;
        PushStep(carry, Weight(|prefix|));
        carry := carry / TWO32;
      }
      ScaleValue(Val(was), value, Weight(exp));
      KeepsTop(was, bigits, value);
    }

    // ----------------------------------------------------------------- shift

    method ShiftLeft(shift: nat)
      modifies this
      ensures Value() == old(Value()) * Pow(2, shift)
      ensures exp == old(exp) + shift / 32 && Val(bigits) == old(Val(bigits)) * Pow(2, shift % 32)
      ensures old(|bigits|) <= |bigits| <= old(|bigits|) + 1
      ensures old(Trimmed()) ==> Trimmed()
    {
      exp := exp + shift / 32;
      var s := shift % 32;
      ShiftWeight(Val(bigits), old(exp), shift, Pow(2, s), Pow(2, shift));
      if s == 0 {
        return;
      }
      ShiftBits(s, Pow(2, s), Pow(2, 32 - s));
    }

    /** The bigit-wise part of a shift by s bits: up is 2^s and down is 2^(32-s). */
    method ShiftBits(s: nat, up: nat, down: nat)
      requires 0 < s < 32 && up == Pow(2, s) && down == Pow(2, 32 - s)
      modifies this`bigits
      ensures Val(bigits) == old(Val(bigits)) * up
      ensures old(|bigits|) <= |bigits| <= old(|bigits|) + 1
      ensures TopNonZero(old(bigits)) ==> TopNonZero(bigits)
    {
      var carry: u32 := 0;
      var n := |bigits|;
      ghost var was := bigits;
      for i := 0 to n
        invariant |bigits| == n && bigits[i..] == was[i..]
        invariant carry < up
        invariant Val(bigits[..i]) + carry * Weight(i) == Val(was[..i]) * up
      {
        ShiftStep(was, bigits, i, s, up, down, carry);
        var c: u32 := bigits[i] / down;
        var moved: u32 := (bigits[i] * up) % BASE + carry;
        bigits := bigits[i := moved];
        carry := c;
      }
      assert bigits[..n] == bigits && was[..n] == was;
      ghost var body := bigits;
      if carry != 0 {
        bigits := bigits + [carry];
        assert bigits[..n] == body;
      }
      KeepsTop(was, bigits, up);
    }

    // ---------------------------------------------------------------- square

    method RemoveLeadingZeros()
      modifies this`bigits
      ensures bigits <= old(bigits) && Val(bigits) == old(Val(bigits))
      ensures old(bigits) != [] ==> bigits != []
      ensures |bigits| > 1 ==> TopNonZero(bigits)
    {
      var top := |bigits| - 1;
      ghost var was := bigits;
      assert was[..|was|] == was;
      while top > 0 && bigits[top] == 0
        invariant bigits == was && -1 <= top < |was| && (was != [] ==> top >= 0)
        invariant Val(bigits[..top + 1]) == Val(was)
      {
        ValPrefix(bigits, top);
        top := top - 1;
      }
      bigits := bigits[..top + 1];
    }

    /** Adds the products of diagonal k, in the lower half of the result, to sum. */
    static method AddLowDiagonal(n: seq<bigit>, k: nat, sum: Accumulator)
      requires k < |n| < 0x4000_0000 && sum.Value() <= |n| * BASE
      modifies sum
      ensures sum.Value() == old(sum.Value()) + Diagonal(n, k, |n|)
    {
      ghost var carry := sum.Value();
      var i, j := 0, k;
      while j >= 0
        invariant 0 <= i <= k + 1 && i + j == k
        invariant sum.Value() == carry + Diagonal(n, k, i)
      {
        SumStep(n, k, i, carry);
        var product: u64 := Mul(n[i], n[j]);
        sum.Add(product);
        i, j := i + 1, j - 1;
      }
      DiagonalGap(n, k, k + 1, |n|);
    }

    /** The same for a diagonal in the upper half, which starts at j == |n| - 1. */
    static method AddHighDiagonal(n: seq<bigit>, k: nat, sum: Accumulator)
      requires |n| <= k < 2 * |n| && |n| < 0x4000_0000 && sum.Value() <= |n| * BASE
      modifies sum
      ensures sum.Value() == old(sum.Value()) + Diagonal(n, k, |n|)
    {
      ghost var carry := sum.Value();
      var j := |n| - 1;
      var i := k - j;
      DiagonalGap(n, k, 0, i);
      while i < |n|
        invariant 0 < i <= |n| && i + j == k
        invariant sum.Value() == carry + Diagonal(n, k, i)
      {
        SumStep(n, k, i, carry);
        var product: u64 := Mul(n[i], n[j]);
        sum.Add(product);
        i, j := i + 1, j - 1;
      }
    }

    /** Squares the value; `int` counts 2 * size bigits, hence the size bound. */
    method Square()
      requires |bigits| < 0x4000_0000
      modifies this
      ensures Value() == old(Value()) * old(Value()) && exp == 2 * old(exp)
      ensures old(Trimmed()) ==> Trimmed()
    {
      var n := bigits;
      var sum := new Accumulator();
      var result := LowerHalf(n, sum);
      result := UpperHalf(n, result, sum);
      bigits := result;
      TriangleIsSquare(n);
      NoFinalCarry(n, Val(bigits), sum.Value());
      RemoveLeadingZeros();
      SquareValue(n, bigits, exp);
      exp := exp * 2;
    }

    static method LowerHalf(n: seq<bigit>, sum: Accumulator) returns (out: seq<bigit>)
      requires |n| < 0x4000_0000 && sum.Value() == 0
      modifies sum
      ensures |out| == 2 * |n| && sum.Value() <= |n| * BASE
      ensures Val(out[..|n|]) + sum.Value() * Weight(|n|) == Triangle(n, |n|, |n|)
    {
      out := seq(2 * |n|, i => 0);
      TriangleStart(n, |n|);
      for k := 0 to |n|
        invariant |out| == 2 * |n| && sum.Value() <= |n| * BASE
        invariant Val(out[..k]) + sum.Value() * Weight(k) == Triangle(n, k, |n|)
      {
        ghost var carry := sum.Value();
        AddLowDiagonal(n, k, sum);
        EmitDiagonal(n, out, k, carry, sum.Value());
        out := out[k := sum.Low32()];
        sum.ShiftRight32();
      }
    }

    static method UpperHalf(n: seq<bigit>, lower: seq<bigit>, sum: Accumulator) returns (out: seq<bigit>)
      requires |n| < 0x4000_0000 && |lower| == 2 * |n| && sum.Value() <= |n| * BASE
      requires Val(lower[..|n|]) + sum.Value() * Weight(|n|) == Triangle(n, |n|, |n|)
      modifies sum
      ensures Val(out) + sum.Value() * Weight(2 * |n|) == Triangle(n, 2 * |n|, |n|) && |out| == 2 * |n|
    {
      out := lower;
      for k := |n| to 2 * |n|
        invariant |out| == 2 * |n| && sum.Value() <= |n| * BASE
        invariant Val(out[..k]) + sum.Value() * Weight(k) == Triangle(n, k, |n|)
      {
        ghost var carry := sum.Value();
        AddHighDiagonal(n, k, sum);
        EmitDiagonal(n, out, k, carry, sum.Value());
        out := out[k := sum.Low32()];
        sum.ShiftRight32();
      }
      assert out[..2 * |n|] == out;
    }

    // ----------------------------------------------------------- power of ten

    /** Powers of five by repeated squaring from the top bit, then one shift. */
    method AssignPow10(e: nat)
      requires e < 0x4000_0000
      modifies this
      ensures Value() == Pow(10, e) && Trimmed() && exp == e / 32
    {
      if e == 0 {
        Assign(1);
        return;
      }
      var bitmask := TopBitmask(e);
      AssignPow5(e, bitmask);
      ShiftLeft(e);
      PowMulBase(5, 2, e);
    }

    static method TopBitmask(e: nat) returns (bitmask: nat)
      requires 0 < e
      ensures 0 < bitmask <= e < 2 * bitmask
      ensures exists t: nat :: bitmask == Pow(2, t)
    {
      bitmask := 1;
      ghost var t: nat := 0;
      while e >= bitmask
        invariant bitmask == Pow(2, t) && (t > 0 ==> e >= bitmask / 2)
        decreases 2 * e - bitmask
      {
        bitmask, t := bitmask * 2, t + 1;
      }
      bitmask := bitmask / 2;
      assert bitmask == Pow(2, t - 1);
    }

    /** Before each bit the value is 5 to the bits of e consumed so far. */
    method AssignPow5(e: nat, top: nat)
      requires 0 < top <= e < 2 * top && e < 0x4000_0000
      requires exists t: nat :: top == Pow(2, t)
      modifies this
      ensures Value() == Pow(5, e) && Trimmed() && exp == 0
    {
      ghost var t: nat :| top == Pow(2, t);
      TopBit(e, top);
      Assign(5);
      ghost var mask, consumed := top, 1;
      var bitmask := top / 2;
      while bitmask != 0
        invariant mask == Pow(2, t) && bitmask == mask / 2 && consumed == e / mask
        invariant exp == 0 && Trimmed() && Value() == Pow(5, consumed)
        decreases bitmask
      {
        FiveStep(e, mask, t, consumed, Value());
        FiveSize(bigits, consumed);
        Square();
        if (e / bitmask) % 2 != 0 {
          Multiply32(5);
        }
        mask, bitmask, t, consumed := bitmask, bitmask / 2, t - 1, e / bitmask;
      }
    }

    // ------------------------------------------------------------- comparison

    static method Compare(lhs: Bigint, rhs: Bigint) returns (r: int)
      ensures r == CompareResult(lhs.bigits, lhs.exp, rhs.bigits, rhs.exp)
    {
      if lhs.NumBigits() != rhs.NumBigits() {
        return if lhs.NumBigits() > rhs.NumBigits() then 1 else -1;
      }
      var i, j := |lhs.bigits| - 1, |rhs.bigits| - 1;
      var end := if i - j < 0 then 0 else i - j;
      while i >= end
        invariant -1 <= i < |lhs.bigits| && -1 <= j < |rhs.bigits|
        invariant i - j == |lhs.bigits| - |rhs.bigits| && i >= end - 1
        invariant lhs.bigits[i + 1..] == rhs.bigits[j + 1..]
      {
        if lhs.bigits[i] != rhs.bigits[j] {
          CompareStops(lhs.bigits, lhs.exp, rhs.bigits, rhs.exp, i, j);
          return if lhs.bigits[i] > rhs.bigits[j] then 1 else -1;
        }
        i, j := i - 1, j - 1;
      }
      assert lhs.bigits[0..] == lhs.bigits && rhs.bigits[0..] == rhs.bigits;
      CompareEnds(lhs.bigits, lhs.exp, rhs.bigits, rhs.exp);
      return if i > j then 1 else if i < j then -1 else 0;
    }

    /** Compares lhs1 + lhs2 with rhs without forming the sum. */
    static method AddCompare(lhs1: Bigint, lhs2: Bigint, rhs: Bigint) returns (r: int)
      ensures r == AddCompareResult(lhs1.bigits, lhs1.exp, lhs2.bigits, lhs2.exp, rhs.bigits, rhs.exp)
    {
      var most := if lhs1.NumBigits() > lhs2.NumBigits() then lhs1.NumBigits() else lhs2.NumBigits();
      var numRhs: int := rhs.NumBigits();
      if most + 1 < numRhs {
        return -1;
      }
      if most > numRhs {
        return 1;
      }
      ghost var a, d, b, e, c, f := lhs1.bigits, lhs1.exp, lhs2.bigits, lhs2.exp, rhs.bigits, rhs.exp;
      var borrow: u64 := 0;
      var least := if lhs1.exp < lhs2.exp then lhs1.exp else lhs2.exp;
      least := if rhs.exp < least then rhs.exp else least;
      SumScanIsSign(a, d, b, e, c, f, least, numRhs);
      var i: int := numRhs - 1;
      while i >= least
        invariant least - 1 <= i < numRhs && borrow <= TWO32
        invariant SumScan(a, d, b, e, c, f, least, i, borrow) == SumScan(a, d, b, e, c, f, least, numRhs - 1, 0)
      {
        var sum: u64 := BigitAt(lhs1.bigits, lhs1.exp, i) + BigitAt(lhs2.bigits, lhs2.exp, i);
        var bigit := BigitAt(rhs.bigits, rhs.exp, i);
        if sum > bigit + borrow {
          return 1;
        }
        borrow := bigit + borrow - sum;
        if borrow > 1 {
          return -1;
        }
        borrow := borrow * TWO32;
        i := i - 1;
      }
      return if borrow != 0 then -1 else 0;
    }

    // ----------------------------------------------------------- subtraction

    /** Lowers the exponent to that of `other` by inserting low zero bigits. */
    method Align(other: Bigint)
      modifies this
      ensures Value() == old(Value())
      ensures exp == if old(exp) <= old(other.exp) then old(exp) else old(other.exp)
      ensures bigits == Pad(old(bigits), old(exp) - exp)
    {
      var diff: int := exp - other.exp;
      if diff <= 0 {
        assert Pad(bigits, 0) == bigits;
        return;
      }
      bigits := InsertLowZeros(bigits, diff);
      exp := exp - diff;
      PadValue(old(bigits), diff, exp);
    }

    /** Moves the bigits up in place, from the top, and clears the low ones. */
    static method InsertLowZeros(was: seq<bigit>, diff: nat) returns (now: seq<bigit>)
      ensures now == Pad(was, diff)
    {
      var n := |was|;
      now := was + seq(diff, i => 0);
      var i: int := n - 1;
      var j := i + diff;
      while i >= 0
        invariant -1 <= i < n && j == i + diff && |now| == n + diff
        invariant forall k :: j < k < n + diff ==> now[k] == was[k - diff]
        invariant forall k :: 0 <= k <= i ==> now[k] == was[k]
      {
        now := now[j := now[i]];
        i, j := i - 1, j - 1;
      }
      for k := 0 to diff
        invariant |now| == n + diff
        invariant forall m :: 0 <= m < k ==> now[m] == 0
        invariant forall m :: diff <= m < n + diff ==> now[m] == was[m - diff]
      {
        now := now[k := 0];
      }
    }

    method SubtractBigits(index: nat, other: bigit, borrow: nat) returns (next: nat)
      requires index < |bigits| && borrow <= 1
      modifies this`bigits
      ensures next <= 1 && |bigits| == old(|bigits|)
      ensures bigits == old(bigits)[index := bigits[index]]
      ensures bigits[index] + other + borrow == old(bigits)[index] + BASE * next
    {
      var result: u64 := (bigits[index] - other - borrow) % TWO64;
      bigits := bigits[index := result % TWO32];
      next := result / 0x8000_0000_0000_0000;
    }

    /** The subtraction loop proper, from bigit d upwards; returns the borrow out. */
    method SubtractLow(other: Bigint, d: nat) returns (borrow: nat)
      requires this != other && d + |other.bigits| <= |bigits|
      modifies this`bigits
      ensures borrow <= 1 && |bigits| == old(|bigits|)
      ensures
        var n := d + |other.bigits|;
        && bigits[n..] == old(bigits)[n..]
        && Val(bigits[..n]) + AlignedTo(other.bigits, d) == Val(old(bigits)[..n]) + borrow * Weight(n)
    {
      ghost var was := bigits;
      borrow := 0;
      var i := d;
      assert Val(other.bigits[..0]) == 0;
      for j := 0 to |other.bigits|
        invariant i == d + j && |bigits| == |was| && bigits[i..] == was[i..] && borrow <= 1
        invariant Val(bigits[..i]) + AlignedTo(other.bigits[..j], d) == Val(was[..i]) + borrow * Weight(i)
      {
        ghost var now, b := bigits, borrow;
        borrow := SubtractBigits(i, other.bigits[j], borrow);
        BorrowStep(was, now, other.bigits, d, j, b, bigits[i], borrow);
        i := i + 1;
      }
      assert other.bigits[..|other.bigits|] == other.bigits;
    }

    /** The borrow loop: it keeps decrementing the same bigit. */
    method TakeBorrow(i: nat, borrowIn: nat)
      requires borrowIn <= 1 && (borrowIn == 1 ==> i < |bigits|)
      modifies this`bigits
      ensures bigits == if borrowIn == 0 then old(bigits) else old(bigits)[i := AfterBorrow(old(bigits)[i])]
    {
      ghost var was := bigits;
      ghost var passes := 0;
      var borrow := borrowIn;
      while borrow > 0
        invariant borrow <= 1 && 0 <= passes <= 2 && (passes > 0 ==> borrowIn == 1)
        invariant passes == 0 ==> bigits == was && borrow == borrowIn
        invariant passes == 1 ==> if was[i] == 0 then bigits == was[i := 0xFFFF_FFFF] && borrow == 1
                                  else bigits == was[i := was[i] - 1] && borrow == 0
        invariant passes == 2 ==> was[i] == 0 && bigits == was[i := 0xFFFF_FFFE] && borrow == 0
        decreases 2 - passes
      {
        borrow := SubtractBigits(i, 0, borrow);
        passes := passes + 1;
      }
    }

    /**
      Subtracts an aligned number that is not larger.  The borrow loop never moves
      to the next bigit, so the result is the difference exactly when the low part
      needs no borrow or the bigit just above it can give one.
     */
    method SubtractAligned(other: Bigint)
      requires this != other && exp <= other.exp
      requires other.NumBigits() <= NumBigits() && other.Value() <= Value()
      modifies this`bigits
      ensures (Value() == old(Value()) - other.Value()) <==> !old(BorrowLost(other))
      ensures old(bigits) != [] ==> bigits != []
      ensures |bigits| > 1 ==> TopNonZero(bigits)
      ensures |bigits| <= old(|bigits|)
    {
      SubtractUntrimmed(other);
      RemoveLeadingZeros();
    }

    method SubtractUntrimmed(other: Bigint)
      requires this != other && exp <= other.exp
      requires other.NumBigits() <= NumBigits() && other.Value() <= Value()
      modifies this`bigits
      ensures (Value() == old(Value()) - other.Value()) <==> !old(BorrowLost(other))
      ensures |bigits| == old(|bigits|)
    {
      ghost var was := bigits;
      var d := other.exp - exp;
      ghost var n, aligned := d + |other.bigits|, AlignedTo(other.bigits, d);
      AlignedValue(other.bigits, other.exp, exp);
      var borrow := SubtractLow(other, d);
      SubtractOutcome(was, bigits, n, borrow, aligned, Weight(exp));
      TakeBorrow(d + |other.bigits|, borrow);
    }

    /** The low part has to borrow, and the bigit above it is zero. */
    ghost predicate BorrowLost(other: Bigint)
      requires exp <= other.exp && other.NumBigits() <= NumBigits()
      reads this, other
    {
      var n := other.NumBigits() - exp;
      && n < |bigits| && bigits[n] == 0
      && Val(bigits[..n]) < AlignedTo(other.bigits, other.exp - exp)
    }

    // -------------------------------------------------------------- division

    /** Equal values, but the dividend is stored with fewer bigits. */
    ghost predicate Misleads(divisor: Bigint)
      reads this, divisor
    {
      Value() == divisor.Value() && |bigits| < |divisor.bigits|
    }

    /**
      Division by repeated subtraction, leaving the remainder.  It is exact unless
      the first comparison is misled about equal values.
     */
    method DivmodAssign(divisor: Bigint) returns (quotient: nat)
      requires this != divisor && divisor.Trimmed() && OperandFor(divisor)
      requires Value() < BASE * divisor.Value()
      modifies this
      ensures OperandFor(divisor) && divisor.Value() > 0 && exp <= old(exp)
      ensures quotient > 0 ==> exp <= divisor.exp
      ensures quotient == 0 ==> bigits == old(bigits) && exp == old(exp)
      ensures old(Misleads(divisor)) ==> quotient == 0
      ensures !old(Misleads(divisor)) ==>
        quotient == old(Value()) / divisor.Value() && Value() == old(Value()) % divisor.Value()
    {
      ghost var start, unit := Value(), divisor.Value();
      PositiveValue(divisor.bigits, divisor.exp);
      CompareIsOrder(bigits, exp, divisor.bigits, divisor.exp);
      var c := Compare(this, divisor);
      if c < 0 {
        if start < unit {
          DivModUnique(start, unit, 0, start);
        }
        return 0;
      }
      Align(divisor);
      quotient := 0;
      var more := true;
      while more
        invariant exp <= divisor.exp && exp <= old(exp) && OperandFor(divisor)
        invariant Value() + quotient * unit == start
        invariant more <==> Value() >= unit
        invariant !more ==> quotient > 0
        decreases Value()
      {
        more := SubtractOnce(divisor);
        quotient := quotient + 1;
      }
      DivModUnique(start, unit, quotient, Value());
    }

    /** One subtraction of the divisor, and whether another one is due. */
    method SubtractOnce(divisor: Bigint) returns (more: bool)
      requires this != divisor && divisor.Trimmed() && OperandFor(divisor) && exp <= divisor.exp
      requires divisor.Value() <= Value() < BASE * divisor.Value()
      modifies this`bigits
      ensures OperandFor(divisor) && Value() == old(Value()) - divisor.Value()
      ensures more <==> Value() >= divisor.Value()
    {
      SubtractReady(bigits, exp, divisor.bigits, divisor.exp);
      SubtractAligned(divisor);
      CompareAligned(bigits, exp, divisor.bigits, divisor.exp);
      var c := Compare(this, divisor);
      more := c >= 0;
    }
  }
}
