/**
  The positional value of a little-endian sequence of 32-bit "bigits", and the
  facts about it that the big-integer operations need.
 */
module Bigits {
  import opened Powers

  const BASE: nat := 0x1_0000_0000

  type bigit = x: nat | x < 0x1_0000_0000

  /** The weight of the bigit at index i. */
  ghost function Weight(i: nat): (w: nat)
    ensures w > 0
  {
    Pow(BASE, i)
  }

  ghost function Val(s: seq<bigit>): nat
  {
    if s == [] then 0
    else Val(s[..|s| - 1]) + s[|s| - 1] * Weight(|s| - 1)
  }

  lemma ValPrefix(s: seq<bigit>, i: nat)
    requires i < |s|
    ensures Val(s[..i + 1]) == Val(s[..i]) + s[i] * Weight(i)
  {
    assert s[..i + 1][..i] == s[..i];
  }

  lemma {:induction false} ValBound(s: seq<bigit>)
    ensures Val(s) < Weight(|s|)
  {
    if s == [] {
    } else {
      var n := |s| - 1;
      ValBound(s[..n]);
      MulMonotone(s[n], BASE - 1, Weight(n));
    }
  }

  lemma {:induction false} ValConcat(a: seq<bigit>, b: seq<bigit>)
    ensures Val(a + b) == Val(a) + Weight(|a|) * Val(b)
  {
    if b == [] {
      assert a + b == a;
    } else {
      var n := |b| - 1;
      assert (a + b)[..|a| + n] == a + b[..n];
      ValConcat(a, b[..n]);
      PowAdd(BASE, |a|, n);
      TermAlgebra(Val(a), Weight(|a|), Val(b[..n]), b[n], Weight(n));
    }
  }

  lemma TermAlgebra(v: nat, w: nat, rest: nat, d: nat, u: nat)
    ensures v + w * rest + d * (w * u) == v + w * (rest + d * u)
  {
    assert d * (w * u) == w * (d * u);
  }

  /** Splitting a value at bigit i. */
  lemma ValSplit(s: seq<bigit>, i: nat)
    requires i <= |s|
    ensures Val(s) == Val(s[..i]) + Weight(i) * Val(s[i..])
  {
    assert s == s[..i] + s[i..];
    ValConcat(s[..i], s[i..]);
  }

  lemma {:induction false} ValZeros(s: seq<bigit>)
    requires forall i :: 0 <= i < |s| ==> s[i] == 0
    ensures Val(s) == 0
  {
    if s != [] {
      ValZeros(s[..|s| - 1]);
    }
  }

  /** The top bigit is non-zero exactly when the value needs all the bigits. */
  lemma ValTop(s: seq<bigit>)
    requires s != []
    ensures s[|s| - 1] != 0 <==> Val(s) >= Weight(|s| - 1)
  {
    var n := |s| - 1;
    ValBound(s[..n]);
    if s[n] != 0 {
      MulMonotone(1, s[n], Weight(n));
    }
  }

  /** Values of equally long sequences compare by their first difference from the top. */
  lemma ValLess(a: seq<bigit>, b: seq<bigit>, k: nat)
    requires |a| == |b| && k < |a|
    requires a[k + 1..] == b[k + 1..] && a[k] < b[k]
    ensures Val(a) < Val(b)
  {
    ValSplit(a, k + 1);
    ValSplit(b, k + 1);
    assert Val(a[..k + 1]) < Val(b[..k + 1]) by {
      ValPrefix(a, k);
      ValPrefix(b, k);
      ValBound(a[..k]);
      DigitGap(a[k], b[k], Weight(k));
    }
  }

  lemma DigitGap(x: nat, y: nat, w: nat)
    requires x < y
    ensures x * w + w <= y * w
  {
    MulMonotone(x + 1, y, w);
  }
}
