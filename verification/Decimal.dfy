/**
  Decimal digit strings, the carry that rounds one up in place, and the rounding
  that the fixed-precision output is measured against.
 */
module Decimal {
  import opened Powers

  // ---------------------------------------------------------- digit strings

  function DigitOf(c: char): int { c as int - '0' as int }

  /** The character for a digit; 10 is the overflow character just above '9'. */
  function DigitChar(d: nat): (c: char)
    requires d <= 10
    ensures DigitOf(c) == d
  {
    ('0' as int + d) as char
  }

  predicate IsDigit(c: char) { '0' <= c <= '9' }

  predicate AllDigits(s: seq<char>)
  {
    forall i :: 0 <= i < |s| ==> IsDigit(s[i])
  }

  /** The number a digit string spells, most significant digit first. */
  function DigitsVal(s: seq<char>): int
  {
    if s == [] then 0 else DigitsVal(s[..|s| - 1]) * 10 + DigitOf(s[|s| - 1])
  }

  lemma DigitsSnoc(s: seq<char>, c: char)
    ensures DigitsVal(s + [c]) == DigitsVal(s) * 10 + DigitOf(c)
  {
    assert (s + [c])[..|s|] == s;
  }

  lemma {:induction false} DigitsConcat(a: seq<char>, b: seq<char>)
    ensures DigitsVal(a + b) == DigitsVal(a) * Pow(10, |b|) + DigitsVal(b)
  {
    if b == [] {
      assert a + b == a;
    } else {
      var n := |b| - 1;
      assert (a + b)[..|a| + n] == a + b[..n];
      DigitsConcat(a, b[..n]);
      MulAssociate(DigitsVal(a), Pow(10, n), 10);
    }
  }

  lemma {:induction false} DigitsBound(s: seq<char>)
    requires AllDigits(s)
    ensures 0 <= DigitsVal(s) < Pow(10, |s|)
  {
    if s != [] {
      DigitsBound(s[..|s| - 1]);
    }
  }

  lemma {:induction false} ZerosVal(n: nat)
    ensures DigitsVal(seq(n, i => '0')) == 0
  {
    if n > 0 {
      ZerosVal(n - 1);
      assert seq(n, i => '0')[..n - 1] == seq(n - 1, i => '0');
    }
  }

  // ------------------------------------------------------- carry propagation

  /** All digits, except that position i may hold the overflow character. */
  predicate DigitsOrOverflowAt(s: seq<char>, i: nat)
  {
    && i < |s|
    && '0' <= s[i] <= ':'
    && forall k :: 0 <= k < |s| && k != i ==> IsDigit(s[k])
  }

  /** Moving an overflow one place up keeps the number spelled. */
  lemma CarryStep(s: seq<char>, i: nat)
    requires 0 < i < |s| && s[i] == ':' && '0' <= s[i - 1] <= '9'
    ensures DigitsVal(s[i := '0'][i - 1 := DigitChar(DigitOf(s[i - 1]) + 1)]) == DigitsVal(s)
  {
    var up := DigitChar(DigitOf(s[i - 1]) + 1);
    var t := s[i := '0'][i - 1 := up];
    var head, tail := s[..i - 1], s[i + 1..];
    assert s == head + [s[i - 1], ':'] + tail;
    assert t == head + [up, '0'] + tail;
    DigitsConcat(head + [s[i - 1], ':'], tail);
    DigitsConcat(head + [up, '0'], tail);
    assert head + [s[i - 1], ':'] == (head + [s[i - 1]]) + [':'];
    assert head + [up, '0'] == (head + [up]) + ['0'];
    DigitsSnoc(head + [s[i - 1]], ':');
    DigitsSnoc(head + [up], '0');
    DigitsSnoc(head, s[i - 1]);
    DigitsSnoc(head, up);
  }

  /**
    Propagates an overflow in the last place towards the front.  Only the first
    place can be left overflowing, and then every other place is zero.
   */
  method PropagateCarry(s: seq<char>) returns (r: seq<char>)
    requires s != [] && DigitsOrOverflowAt(s, |s| - 1)
    ensures |r| == |s| && DigitsVal(r) == DigitsVal(s)
    ensures r[0] == ':' || AllDigits(r)
    ensures r[0] == ':' ==> r == [':'] + seq(|s| - 1, k => '0')
  {
    r := s;
    var i := |s| - 1;
    while i > 0 && r[i] > '9'
      invariant 0 <= i < |s| && |r| == |s| && DigitsOrOverflowAt(r, i)
      invariant DigitsVal(r) == DigitsVal(s)
      invariant i < |s| - 1 ==> forall k :: i < k < |s| ==> r[k] == '0'
    {
      CarryStep(r, i);
      r := r[i := '0'][i - 1 := DigitChar(DigitOf(r[i - 1]) + 1)];
      i := i - 1;
    }
  }

  /** What an overflow in the first place spells. */
  lemma OverflowVal(n: nat)
    ensures DigitsVal([':'] + seq(n, k => '0')) == 10 * Pow(10, n)
    ensures DigitsVal(['1'] + seq(n, k => '0')) == Pow(10, n)
  {
    ZerosVal(n);
    DigitsConcat([':'], seq(n, k => '0'));
    DigitsConcat(['1'], seq(n, k => '0'));
    assert [':'][..0] == [] && ['1'][..0] == [];
  }

  // ------------------------------------------------------------- rounding

  /** The nearest integer to num / den, the even one when two are equally near. */
  function RoundHalfEven(num: nat, den: nat): nat
    requires den > 0
  {
    var q, r := num / den, num % den;
    if 2 * r > den || (2 * r == den && q % 2 == 1) then q + 1 else q
  }

  /** Rounding depends only on the ratio. */
  lemma RoundSameRatio(a: nat, b: nat, c: nat, d: nat)
    requires b > 0 && d > 0 && a * d == c * b
    ensures RoundHalfEven(a, b) == RoundHalfEven(c, d)
  {
    RoundScale(a, b, d);
    RoundScale(c, d, b);
  }

  lemma RoundScale(a: nat, b: nat, k: nat)
    requires b > 0 && k > 0
    ensures b * k > 0 && RoundHalfEven(a * k, b * k) == RoundHalfEven(a, b)
  {
    var q, r := a / b, a % b;
    MulStrict(0, b, k);
    assert a == q * b + r;
    assert (q * b + r) * k == q * (b * k) + r * k by {
      MulDistribute(q * b, r, k);
      MulAssociate(q, b, k);
    }
    MulStrict(r, b, k);
    MulNonNegative(r, k);
    DivModUnique(a * k, b * k, q, r * k);
    SignOfScaled(2 * r, b, k);
    MulAssociate(2, r, k);
  }

  lemma SignOfScaled(x: int, y: int, k: int)
    requires k > 0
    ensures x < y <==> x * k < y * k
    ensures x == y <==> x * k == y * k
  {
    if x < y { MulStrict(x, y, k); } else if y < x { MulStrict(y, x, k); }
  }

  /** A quotient and remainder decide the rounding. */
  lemma RoundFromDivision(num: nat, den: nat, q: nat, r: nat)
    requires den > 0 && num == q * den + r && r < den
    ensures RoundHalfEven(num, den) == if 2 * r > den || (2 * r == den && q % 2 == 1) then q + 1 else q
  {
    DivModUnique(num, den, q, r);
  }
}
