/**
  The square of a positional number as a sum of anti-diagonal products.  Diagonal
  k collects the products s[i] * s[k - i]; the big-integer squaring produces one
  result bigit per diagonal.
 */
module Convolution {
  import opened Powers
  import opened Bigits

  /** The product of bigits i and j, zero when j is outside the sequence. */
  ghost function Cell(s: seq<bigit>, i: nat, j: int): nat
    requires i < |s|
  {
    if 0 <= j < |s| then Mul(s[i], s[j]) else 0
  }

  function Mul(x: nat, y: nat): nat { x * y }

  /** The products on diagonal k whose first index is below m. */
  ghost function Diagonal(s: seq<bigit>, k: nat, m: nat): nat
    requires m <= |s|
  {
    if m == 0 then 0
    else Diagonal(s, k, m - 1) + Cell(s, m - 1, k - (m - 1))
  }

  function Clamp(x: int, n: nat): (r: nat)
    ensures r <= n
  {
    if x < 0 then 0 else if x > n then n else x
  }

  /** The products of bigit i with the first n bigits, weighted. */
  ghost function Row(s: seq<bigit>, i: nat, n: nat): nat
    requires i < |s| && n <= |s|
  {
    Mul(Mul(s[i], Weight(i)), Val(s[..n]))
  }

  lemma RowStep(s: seq<bigit>, i: nat, n: nat)
    requires i < |s| && n < |s|
    ensures Row(s, i, n + 1) == Row(s, i, n) + Mul(Mul(s[i], s[n]), Weight(i + n))
  {
    ValPrefix(s, n);
    PowAdd(BASE, i, n);
    RowAlgebra(s[i], Weight(i), Val(s[..n]), s[n], Weight(n));
  }

  lemma RowAlgebra(d: nat, w: nat, v: nat, x: nat, u: nat)
    ensures (d * w) * (v + x * u) == (d * w) * v + (d * x) * (w * u)
  {
    MulExchange(d, w, x, u);
  }

  /** All products s[i] * s[j], weighted, with i < m and i + j < k. */
  ghost function Triangle(s: seq<bigit>, k: nat, m: nat): nat
    requires m <= |s|
  {
    if m == 0 then 0
    else Triangle(s, k, m - 1) + Row(s, m - 1, Clamp(k - (m - 1), |s|))
  }

  lemma {:induction false} TriangleStart(s: seq<bigit>, m: nat)
    requires m <= |s|
    ensures Triangle(s, 0, m) == 0
  {
    if m > 0 {
      TriangleStart(s, m - 1);
      assert s[..0] == [];
    }
  }

  /** One more diagonal. */
  lemma {:induction false} TriangleStep(s: seq<bigit>, k: nat, m: nat)
    requires m <= |s|
    ensures Triangle(s, k + 1, m) == Triangle(s, k, m) + Mul(Diagonal(s, k, m), Weight(k))
  {
    if m > 0 {
      var i := m - 1;
      TriangleStep(s, k, i);
      MulDistribute(Diagonal(s, k, i), Cell(s, i, k - i), Weight(k));
      if 0 <= k - i < |s| {
        RowStep(s, i, k - i);
      } else {
        assert Clamp(k + 1 - i, |s|) == Clamp(k - i, |s|);
      }
    }
  }

  /** After all the diagonals the triangle is the whole square. */
  lemma TriangleIsSquare(s: seq<bigit>)
    ensures Triangle(s, 2 * |s|, |s|) == Val(s) * Val(s)
  {
    TriangleFull(s, |s|);
    assert s[..|s|] == s;
  }

  lemma {:induction false} TriangleFull(s: seq<bigit>, m: nat)
    requires m <= |s|
    ensures Triangle(s, 2 * |s|, m) == Val(s[..m]) * Val(s)
  {
    if m == 0 {
      assert s[..0] == [];
    } else {
      TriangleFull(s, m - 1);
      ValPrefix(s, m - 1);
      assert Clamp(2 * |s| - (m - 1), |s|) == |s|;
      assert s[..|s|] == s;
      MulDistribute(Val(s[..m - 1]), s[m - 1] * Weight(m - 1), Val(s));
    }
  }

  /** A diagonal of m products is below m * BASE^2. */
  lemma {:induction false} DiagonalBound(s: seq<bigit>, k: nat, m: nat)
    requires m <= |s|
    ensures Diagonal(s, k, m) <= m * ((BASE - 1) * (BASE - 1))
  {
    if m > 0 {
      DiagonalBound(s, k, m - 1);
      if 0 <= k - (m - 1) < |s| {
        ProductBound(s[m - 1], s[k - (m - 1)]);
      }
    }
  }

  lemma ProductBound(x: bigit, y: bigit)
    ensures x * y <= (BASE - 1) * (BASE - 1)
  {
    MulMonotone(x, BASE - 1, y);
    MulMonotone(y, BASE - 1, BASE - 1);
  }

  /** Products with the first index from lo to hi all fall outside diagonal k. */
  lemma {:induction false} DiagonalGap(s: seq<bigit>, k: nat, lo: nat, hi: nat)
    requires lo <= hi <= |s|
    requires k < lo || hi + |s| <= k + 1
    ensures Diagonal(s, k, hi) == Diagonal(s, k, lo)
    decreases hi - lo
  {
    if lo < hi {
      DiagonalGap(s, k, lo, hi - 1);
    }
  }

  /** Emitting the low bigit of the running sum and keeping the rest as carry. */
  lemma EmitDiagonal(s: seq<bigit>, out: seq<bigit>, k: nat, carry: nat, total: nat)
    requires k < |out|
    requires Val(out[..k]) + carry * Weight(k) == Triangle(s, k, |s|)
    requires carry <= |s| * BASE && total == carry + Diagonal(s, k, |s|)
    ensures Val(out[k := total % BASE][..k + 1]) + (total / BASE) * Weight(k + 1) == Triangle(s, k + 1, |s|)
    ensures total / BASE <= |s| * BASE
  {
    var next := out[k := total % BASE];
    assert next[..k] == out[..k];
    ValPrefix(next, k);
    TriangleStep(s, k, |s|);
    EmitAlgebra(total, carry, Diagonal(s, k, |s|), Weight(k));
    DiagonalBound(s, k, |s|);
    CarryBound(|s|, carry, total);
  }

  lemma EmitAlgebra(total: nat, carry: nat, diag: nat, w: nat)
    requires total == carry + diag
    ensures (total % BASE) * w + (total / BASE) * (BASE * w) == carry * w + diag * w
  {
    var q, r := total / BASE, total % BASE;
    assert total == q * BASE + r;
    assert q * (BASE * w) == (q * BASE) * w;
    assert (q * BASE + r) * w == (q * BASE) * w + r * w;
    assert (carry + diag) * w == carry * w + diag * w;
  }

  lemma CarryBound(n: nat, carry: nat, total: nat)
    requires carry <= n * BASE && total <= carry + n * ((BASE - 1) * (BASE - 1))
    ensures total / BASE <= n * BASE
  {
    assert total <= n * (BASE * BASE);
  }

  /** The carry left after all the diagonals is zero. */
  lemma NoFinalCarry(s: seq<bigit>, v: nat, carry: nat)
    requires v + carry * Weight(2 * |s|) == Val(s) * Val(s)
    ensures carry == 0
  {
    ValBound(s);
    PowAdd(BASE, |s|, |s|);
    var w := Weight(|s|);
    MulStrictBound(Val(s), w);
    if carry > 0 {
      MulMonotone(1, carry, Weight(2 * |s|));
      assert false;
    }
  }

  lemma MulStrictBound(x: nat, w: nat)
    requires x < w
    ensures x * x < w * w
  {
    MulMonotone(x, w, x);
    MulStrict(x, w, w);
  }
}
