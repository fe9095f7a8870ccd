/**
  Order of big integers given as a bigit sequence and an exponent: (b, e) stands
  for Val(b) * BASE^e.  Two views support the comparison operations: padding to a
  common exponent, and the quotient by a power of BASE read off from the top.
 */
module BigitOrder {
  import opened Powers
  import opened Bigits

  ghost function ValueOf(b: seq<bigit>, e: nat): nat
  {
    Val(b) * Weight(e)
  }

  function Sign(x: int): (r: int)
    ensures -1 <= r <= 1
  {
    if x < 0 then -1 else if x > 0 then 1 else 0
  }

  predicate TopNonZero(b: seq<bigit>)
  {
    b != [] && b[|b| - 1] != 0
  }

  // ---------------------------------------------------------------- padding

  ghost function Pad(b: seq<bigit>, d: nat): (r: seq<bigit>)
    ensures |r| == d + |b|
  {
    seq(d, i => 0) + b
  }

  lemma ValPad(b: seq<bigit>, d: nat)
    ensures Val(Pad(b, d)) == Val(b) * Weight(d)
  {
    var zeros: seq<bigit> := seq(d, i => 0);
    ValConcat(zeros, b);
    ValZeros(zeros);
  }

  /** Dropping the common power of BASE does not change the order. */
  lemma OrderOfPadded(b: seq<bigit>, e: nat, c: seq<bigit>, f: nat, m: nat)
    requires m <= e && m <= f
    ensures Sign(Val(Pad(b, e - m)) - Val(Pad(c, f - m))) == Sign(ValueOf(b, e) - ValueOf(c, f))
  {
    ValPad(b, e - m);
    ValPad(c, f - m);
    PowAdd(BASE, e - m, m);
    PowAdd(BASE, f - m, m);
    SignScale(Val(b), Weight(e - m), Val(c), Weight(f - m), Weight(m));
  }

  lemma SignScale(x: nat, p: nat, y: nat, q: nat, w: nat)
    requires w > 0
    ensures Sign(x * p - y * q) == Sign(x * (p * w) - y * (q * w))
  {
    assert x * (p * w) == (x * p) * w;
    assert y * (q * w) == (y * q) * w;
    var a, b := x * p, y * q;
    if a < b { MulStrict(a, b, w); } else if b < a { MulStrict(b, a, w); }
  }

  /** With the same number of bigits, the first difference from the top decides. */
  lemma FirstDifference(b: seq<bigit>, e: nat, c: seq<bigit>, f: nat, i: nat, j: nat)
    requires |b| + e == |c| + f && i < |b| && j < |c| && i + e == j + f
    requires b[i + 1..] == c[j + 1..] && b[i] != c[j]
    ensures ValueOf(b, e) != ValueOf(c, f)
    ensures ValueOf(b, e) > ValueOf(c, f) <==> b[i] > c[j]
  {
    var m := if e < f then e else f;
    var x, y, k := Pad(b, e - m), Pad(c, f - m), i + e - m;
    assert x[k + 1..] == b[i + 1..];
    assert y[k + 1..] == c[j + 1..];
    assert x[k] == b[i] && y[k] == c[j];
    OrderOfPadded(b, e, c, f, m);
    if b[i] < c[j] { ValLess(x, y, k); } else { ValLess(y, x, k); }
  }

  /** A sequence whose top part is all of the other one is at least as large. */
  lemma TopPartEqual(b: seq<bigit>, e: nat, c: seq<bigit>, f: nat)
    requires |b| + e == |c| + f && |b| >= |c| && b[|b| - |c|..] == c
    ensures ValueOf(b, e) >= ValueOf(c, f)
    ensures |b| == |c| ==> ValueOf(b, e) == ValueOf(c, f)
  {
    var d := |b| - |c|;
    ValSplit(b, d);
    PowAdd(BASE, d, e);
    assert Weight(f) == Weight(d) * Weight(e);
    Regroup(Val(c), Weight(d), Weight(e));
    MulMonotone(Weight(d) * Val(c), Val(b), Weight(e));
    if d == 0 { assert b == c; }
  }

  lemma Regroup(x: nat, p: nat, q: nat)
    ensures x * (p * q) == (p * x) * q
  {
    assert x * (p * q) == (x * p) * q;
  }

  /** More bigits with a non-zero top means larger. */
  lemma MoreBigitsIsLarger(b: seq<bigit>, e: nat, c: seq<bigit>, f: nat)
    requires TopNonZero(b) && |b| + e > |c| + f
    ensures ValueOf(b, e) > ValueOf(c, f)
  {
    ValueBelow(c, f);
    ValueAtLeast(b, e);
    PowMonotone(BASE, |c| + f, |b| + e - 1);
  }

  lemma ValueBelow(b: seq<bigit>, e: nat)
    ensures ValueOf(b, e) < Weight(|b| + e)
  {
    ValBound(b);
    PowAdd(BASE, |b|, e);
    MulStrict(Val(b), Weight(|b|), Weight(e));
  }

  lemma ValueAtLeast(b: seq<bigit>, e: nat)
    requires TopNonZero(b)
    ensures ValueOf(b, e) >= Weight(|b| + e - 1)
  {
    ValTop(b);
    PowAdd(BASE, |b| - 1, e);
    MulMonotone(Weight(|b| - 1), Val(b), Weight(e));
  }

  // ------------------------------------------------- reading from the top

  /** The bigit of weight BASE^i, zero outside the stored range. */
  function BigitAt(b: seq<bigit>, e: nat, i: nat): bigit
  {
    if e <= i < |b| + e then b[i - e] else 0
  }

  /** The value divided by BASE^i. */
  ghost function Top(b: seq<bigit>, e: nat, i: nat): nat
  {
    if i >= |b| + e then 0
    else if i >= e then Val(b[i - e..])
    else Val(b) * Weight(e - i)
  }

  lemma TopStep(b: seq<bigit>, e: nat, i: nat)
    ensures Top(b, e, i) == BASE * Top(b, e, i + 1) + BigitAt(b, e, i)
  {
    if i >= |b| + e {
    } else if i >= e {
      var t := b[i - e..];
      ValSplit(t, 1);
      assert t[..1] == [b[i - e]];
      assert t[..1][..0] == [];
      assert Val(t[..1]) == b[i - e];
      assert t[1..] == b[i + 1 - e..];
      assert Weight(1) == BASE;
      if i + 1 == |b| + e { assert t[1..] == []; }
    } else {
      assert Weight(e - i) == BASE * Weight(e - i - 1);
      MulSwap(Val(b), BASE, Weight(e - i - 1));
      if i + 1 == e {
        assert b[0..] == b;
        assert Weight(0) == 1;
        if i + 1 == |b| + e { assert b == []; }
      }
      if i + 1 >= |b| + e { assert b == []; }
    }
  }

  lemma TopBounds(b: seq<bigit>, e: nat, i: nat)
    ensures Top(b, e, i) * Weight(i) <= ValueOf(b, e) < (Top(b, e, i) + 1) * Weight(i)
    ensures i <= e ==> Top(b, e, i) * Weight(i) == ValueOf(b, e)
  {
    if i >= |b| + e {
      ValueBelow(b, e);
      PowMonotone(BASE, |b| + e, i);
      if i <= e { assert b == []; }
    } else if i >= e {
      TopBoundsInside(b, e, i - e);
    } else {
      TopBoundsBelow(Val(b), e, i);
    }
  }

  lemma TopBoundsInside(b: seq<bigit>, e: nat, k: nat)
    requires k <= |b|
    ensures Val(b[k..]) * Weight(k + e) <= ValueOf(b, e) < (Val(b[k..]) + 1) * Weight(k + e)
    ensures k == 0 ==> Val(b[k..]) * Weight(k + e) == ValueOf(b, e)
  {
    ValSplit(b, k);
    ValBound(b[..k]);
    PowAdd(BASE, k, e);
    SplitBounds(Val(b[..k]), Weight(k), Val(b[k..]), Weight(e));
    if k == 0 { assert b[0..] == b; }
  }

  lemma TopBoundsBelow(v: nat, e: nat, i: nat)
    requires i < e
    ensures (v * Weight(e - i)) * Weight(i) == v * Weight(e)
    ensures v * Weight(e) < (v * Weight(e - i) + 1) * Weight(i)
  {
    PowAdd(BASE, e - i, i);
    var w := Weight(i);
    assert v * (Weight(e - i) * w) == (v * Weight(e - i)) * w;
    assert (v * Weight(e - i) + 1) * w == (v * Weight(e - i)) * w + w;
  }

  lemma SplitBounds(low: nat, w: nat, high: nat, u: nat)
    requires low < w && u > 0
    ensures high * (w * u) <= (low + w * high) * u < (high + 1) * (w * u)
    ensures low == 0 ==> (low + w * high) * u == high * (w * u)
  {
    Regroup(high, w, u);
    assert (high + 1) * (w * u) == high * (w * u) + w * u;
    assert (low + w * high) * u == low * u + (w * high) * u;
    MulStrict(low, w, u);
  }

  // ------------------------------------------------- comparison outcomes

  /** A bigint that compares faithfully with one of exponent f. */
  predicate Operand(b: seq<bigit>, e: nat, f: nat)
  {
    TopNonZero(b) || (b == [0] && e <= f)
  }

  /** What `compare` answers, for any two representations. */
  ghost function CompareResult(b: seq<bigit>, e: nat, c: seq<bigit>, f: nat): int
  {
    if |b| + e != |c| + f then Sign((|b| + e) - (|c| + f))
    else if ValueOf(b, e) != ValueOf(c, f) then Sign(ValueOf(b, e) - ValueOf(c, f))
    else Sign(|b| - |c|)
  }

  /**
    On proper operands `compare` never contradicts the order of the values, and it
    is the exact sign unless the values are equal but stored at different lengths.
   */
  lemma CompareIsOrder(b: seq<bigit>, e: nat, c: seq<bigit>, f: nat)
    requires Operand(b, e, f) && TopNonZero(c)
    ensures ValueOf(b, e) != ValueOf(c, f) ==> CompareResult(b, e, c, f) == Sign(ValueOf(b, e) - ValueOf(c, f))
    ensures ValueOf(b, e) == ValueOf(c, f) ==> CompareResult(b, e, c, f) == Sign(|b| - |c|)
    ensures CompareResult(b, e, c, f) == Sign(ValueOf(b, e) - ValueOf(c, f))
       <==> !(ValueOf(b, e) == ValueOf(c, f) && |b| != |c|)
  {
    if |b| + e > |c| + f {
      MoreBigitsIsLarger(b, e, c, f);
    } else if |b| + e < |c| + f {
      MoreBigitsIsLarger(c, f, b, e);
    }
  }

  /** The comparison loop stops at the first difference from the top... */
  lemma CompareStops(b: seq<bigit>, e: nat, c: seq<bigit>, f: nat, i: nat, j: nat)
    requires |b| + e == |c| + f && i < |b| && j < |c| && i + e == j + f
    requires b[i + 1..] == c[j + 1..] && b[i] != c[j]
    ensures CompareResult(b, e, c, f) == if b[i] > c[j] then 1 else -1
  {
    FirstDifference(b, e, c, f, i, j);
  }

  /** ...or runs out of the shorter operand. */
  lemma CompareEnds(b: seq<bigit>, e: nat, c: seq<bigit>, f: nat)
    requires |b| + e == |c| + f
    requires if |b| >= |c| then b[|b| - |c|..] == c else c[|c| - |b|..] == b
    ensures CompareResult(b, e, c, f) == Sign(|b| - |c|)
  {
    if |b| >= |c| { TopPartEqual(b, e, c, f); } else { TopPartEqual(c, f, b, e); }
  }

  /** What `add_compare` answers, for any three representations. */
  ghost function AddCompareResult(a: seq<bigit>, d: nat, b: seq<bigit>, e: nat, c: seq<bigit>, f: nat): int
  {
    var most := if |a| + d > |b| + e then |a| + d else |b| + e;
    if most + 1 < |c| + f then -1
    else if most > |c| + f then 1
    else Sign(ValueOf(a, d) + ValueOf(b, e) - ValueOf(c, f))
  }

  /** On proper operands `add_compare` is the exact sign of the difference. */
  lemma AddCompareIsExact(a: seq<bigit>, d: nat, b: seq<bigit>, e: nat, c: seq<bigit>, f: nat)
    requires Operand(a, d, f) && Operand(b, e, f) && TopNonZero(c)
    ensures AddCompareResult(a, d, b, e, c, f) == Sign(ValueOf(a, d) + ValueOf(b, e) - ValueOf(c, f))
  {
    var most := if |a| + d > |b| + e then |a| + d else |b| + e;
    if most + 1 < |c| + f {
      ValueBelow(a, d);
      ValueBelow(b, e);
      PowMonotone(BASE, |a| + d, most);
      PowMonotone(BASE, |b| + e, most);
      ValueAtLeast(c, f);
      PowMonotone(BASE, most + 1, |c| + f - 1);
      assert Weight(most + 1) == BASE * Weight(most);
    } else if most > |c| + f {
      if |a| + d == most {
        MoreBigitsIsLarger(a, d, c, f);
      } else {
        MoreBigitsIsLarger(b, e, c, f);
      }
    }
  }

  /** The quotient of rhs - (lhs1 + lhs2) by BASE^i, each taken from the top. */
  ghost function TopGap(a: seq<bigit>, d: nat, b: seq<bigit>, e: nat, c: seq<bigit>, f: nat, i: nat): int
  {
    Top(c, f, i) - Top(a, d, i) - Top(b, e, i)
  }

  lemma TopGapStep(a: seq<bigit>, d: nat, b: seq<bigit>, e: nat, c: seq<bigit>, f: nat, i: nat)
    ensures TopGap(a, d, b, e, c, f, i)
         == BASE * TopGap(a, d, b, e, c, f, i + 1) + BigitAt(c, f, i) - BigitAt(a, d, i) - BigitAt(b, e, i)
  {
    TopStep(a, d, i);
    TopStep(b, e, i);
    TopStep(c, f, i);
  }

  /** How that gap settles the comparison of the sum. */
  lemma GapDecides(a: seq<bigit>, d: nat, b: seq<bigit>, e: nat, c: seq<bigit>, f: nat, i: nat)
    ensures
      var gap := TopGap(a, d, b, e, c, f, i);
      var r := Sign(ValueOf(a, d) + ValueOf(b, e) - ValueOf(c, f));
      && (gap < 0 ==> r == 1)
      && (gap > 1 ==> r == -1)
      && (i <= d && i <= e && i <= f ==> r == Sign(-gap))
  {
    TopBounds(a, d, i);
    TopBounds(b, e, i);
    TopBounds(c, f, i);
    DecideAlgebra(Top(a, d, i), Top(b, e, i), Top(c, f, i), Weight(i), ValueOf(a, d), ValueOf(b, e), ValueOf(c, f));
  }

  /** The scan of `add_compare` from bigit i downwards, with the borrow from above. */
  ghost function SumScan(a: seq<bigit>, d: nat, b: seq<bigit>, e: nat, c: seq<bigit>, f: nat,
                         least: nat, i: int, borrow: nat): int
    decreases i - least
  {
    if i < least then (if borrow != 0 then -1 else 0)
    else
      var sum: int := BigitAt(a, d, i) + BigitAt(b, e, i);
      var have: int := BigitAt(c, f, i) + borrow;
      if sum > have then 1
      else if have - sum > 1 then -1
      else SumScan(a, d, b, e, c, f, least, i - 1, (have - sum) * BASE)
  }

  /** The digit the scan subtracts at position k. */
  ghost function GapDigit(a: seq<bigit>, d: nat, b: seq<bigit>, e: nat, c: seq<bigit>, f: nat, k: nat): int
  {
    BigitAt(c, f, k) - BigitAt(a, d, k) - BigitAt(b, e, k)
  }

  /** The scan follows any running gap that absorbs one digit per position. */
  lemma {:induction false} SumScanFollows(a: seq<bigit>, d: nat, b: seq<bigit>, e: nat, c: seq<bigit>, f: nat,
                                          least: nat, i: int, borrow: nat, gap: nat -> int, r: int)
    requires least - 1 <= i && borrow == BASE * gap(i + 1) && r == Sign(-gap(least))
    requires forall k: nat :: least <= k <= i ==> gap(k) == BASE * gap(k + 1) + GapDigit(a, d, b, e, c, f, k)
    requires forall k: nat :: least <= k <= i ==> (gap(k) < 0 ==> r == 1) && (gap(k) > 1 ==> r == -1)
    ensures SumScan(a, d, b, e, c, f, least, i, borrow) == r
    decreases i - least
  {
    if i >= least {
      var k: nat := i;
      assert gap(k) == BASE * gap(k + 1) + GapDigit(a, d, b, e, c, f, k);
      if 0 <= gap(k) <= 1 {
        SumScanFollows(a, d, b, e, c, f, least, i - 1, gap(k) * BASE, gap, r);
      }
    }
  }

  lemma SumScanIsSign(a: seq<bigit>, d: nat, b: seq<bigit>, e: nat, c: seq<bigit>, f: nat, least: nat, n: nat)
    requires least <= d && least <= e && least <= f && least <= n
    requires |a| + d <= n && |b| + e <= n && |c| + f <= n
    ensures SumScan(a, d, b, e, c, f, least, n - 1, 0) == Sign(ValueOf(a, d) + ValueOf(b, e) - ValueOf(c, f))
  {
    var gap := (k: nat) => TopGap(a, d, b, e, c, f, k);
    var r := Sign(ValueOf(a, d) + ValueOf(b, e) - ValueOf(c, f));
    forall k: nat
      ensures gap(k) == BASE * gap(k + 1) + GapDigit(a, d, b, e, c, f, k)
      ensures (gap(k) < 0 ==> r == 1) && (gap(k) > 1 ==> r == -1)
    {
      TopGapStep(a, d, b, e, c, f, k);
      GapDecides(a, d, b, e, c, f, k);
    }
    GapDecides(a, d, b, e, c, f, least);
    SumScanFollows(a, d, b, e, c, f, least, n - 1, 0, gap, r);
  }

  lemma DecideAlgebra(x: nat, y: nat, z: nat, w: nat, vx: nat, vy: nat, vz: nat)
    requires w > 0
    requires x * w <= vx < (x + 1) * w && y * w <= vy < (y + 1) * w && z * w <= vz < (z + 1) * w
    ensures x + y > z ==> vx + vy > vz
    ensures x + y + 1 < z ==> vx + vy < vz
    ensures vx == x * w && vy == y * w && vz == z * w ==> Sign(x + y - z) == Sign(vx + vy - vz)
  {
    assert (x + y) * w == x * w + y * w;
    assert (x + 1) * w == x * w + w && (y + 1) * w == y * w + w && (z + 1) * w == z * w + w;
    if x + y > z {
      MulMonotone(z + 1, x + y, w);
    } else if x + y + 1 < z {
      MulMonotone(x + y + 2, z, w);
      assert (x + y + 2) * w == (x + y) * w + 2 * w;
    } else if x + y < z {
      MulStrict(x + y, z, w);
    }
  }

  // ------------------------------------------------------------- division

  lemma ZeroValue(e: nat)
    ensures ValueOf([0], e) == 0
  {
    ValZeros([0]);
  }

  lemma PositiveValue(b: seq<bigit>, e: nat)
    requires TopNonZero(b)
    ensures ValueOf(b, e) > 0
  {
    ValueAtLeast(b, e);
  }

  /**
    A dividend between the divisor and BASE times the divisor reaches at most one
    bigit above it, so an aligned subtraction finds a bigit to borrow from.
   */
  lemma SubtractReady(b: seq<bigit>, e: nat, c: seq<bigit>, f: nat)
    requires e <= f && Operand(b, e, f) && TopNonZero(c)
    requires ValueOf(c, f) <= ValueOf(b, e) < BASE * ValueOf(c, f)
    ensures TopNonZero(b)
    ensures |c| + f <= |b| + e <= |c| + f + 1
    ensures |b| + e == |c| + f + 1 ==> b[|c| + f - e] != 0
  {
    PositiveValue(c, f);
    if b == [0] {
      ZeroValue(e);
      assert false;
    }
    if |c| + f > |b| + e {
      MoreBigitsIsLarger(c, f, b, e);
      assert false;
    }
    ValueAtLeast(b, e);
    ValueBelow(c, f);
    if |b| + e - 1 >= |c| + f + 1 {
      PowMonotone(BASE, |c| + f + 1, |b| + e - 1);
      assert false;
    }
  }

  /** Once the exponents are aligned, `compare` tells at-least from below. */
  lemma CompareAligned(b: seq<bigit>, e: nat, c: seq<bigit>, f: nat)
    requires e <= f && Operand(b, e, f) && TopNonZero(c)
    ensures CompareResult(b, e, c, f) >= 0 <==> ValueOf(b, e) >= ValueOf(c, f)
  {
    CompareIsOrder(b, e, c, f);
    if |b| < |c| {
      MoreBigitsIsLarger(c, f, b, e);
    }
  }
}
