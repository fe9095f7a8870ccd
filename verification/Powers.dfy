/**
  Powers of natural numbers and the few facts about them that the positional
  arguments in this project rest on.
 */
module Powers {

  function Pow(b: nat, e: nat): (r: nat)
    ensures b > 0 ==> r > 0
    decreases e
  {
    if e == 0 then 1 else b * Pow(b, e - 1)
  }

  lemma {:induction false} PowAdd(b: nat, m: nat, n: nat)
    ensures Pow(b, m + n) == Pow(b, m) * Pow(b, n)
    decreases n
  {
    if n == 0 {
    } else {
      PowAdd(b, m, n - 1);
      assert Pow(b, m + n) == b * Pow(b, m + (n - 1));
      MulSwap(b, Pow(b, m), Pow(b, n - 1));
    }
  }

  lemma MulSwap(x: int, y: int, z: int)
    ensures x * (y * z) == y * (x * z)
  {
  }

  lemma {:induction false} PowMulBase(a: nat, b: nat, e: nat)
    ensures Pow(a * b, e) == Pow(a, e) * Pow(b, e)
  {
    if e == 0 {
    } else {
      PowMulBase(a, b, e - 1);
      MulExchange(a, b, Pow(a, e - 1), Pow(b, e - 1));
    }
  }

  lemma MulExchange(a: int, b: int, p: int, q: int)
    ensures (a * b) * (p * q) == (a * p) * (b * q)
  {
    assert b * (p * q) == p * (b * q);
  }

  lemma {:induction false} PowMonotone(b: nat, m: nat, n: nat)
    requires b > 0 && m <= n
    ensures Pow(b, m) <= Pow(b, n)
    decreases n - m
  {
    if m == n {
    } else {
      PowMonotone(b, m, n - 1);
      MulMonotone(1, b, Pow(b, n - 1));
    }
  }

  lemma {:induction false} PowStrict(b: nat, m: nat, n: nat)
    requires b > 1 && m < n
    ensures Pow(b, m) < Pow(b, n)
  {
    PowMonotone(b, m, n - 1);
    MulStrict(1, b, Pow(b, n - 1));
  }

  lemma {:induction false} PowBaseMonotone(a: nat, b: nat, e: nat)
    requires a <= b
    ensures Pow(a, e) <= Pow(b, e)
  {
    if e > 0 {
      PowBaseMonotone(a, b, e - 1);
      MulBound(a, b, Pow(a, e - 1), Pow(b, e - 1));
    }
  }

  /** A power of a power multiplies the exponents. */
  lemma {:induction false} PowPow(b: nat, m: nat, n: nat)
    ensures Pow(Pow(b, m), n) == Pow(b, m * n)
    decreases n
  {
    if n == 0 {
      assert m * n == 0;
    } else {
      PowPow(b, m, n - 1);
      PowAdd(b, m, m * (n - 1));
      assert m + m * (n - 1) == m * n;
    }
  }

  lemma MulMonotone(x: int, y: int, k: int)
    requires x <= y && 0 <= k
    ensures x * k <= y * k
  {
  }

  lemma MulBound(x: nat, bx: nat, y: nat, cy: nat)
    requires x <= bx && y <= cy
    ensures 0 <= x * y <= bx * cy
  {
    MulMonotone(x, bx, y);
    MulMonotone(y, cy, bx);
  }

  lemma MulDistribute(x: int, y: int, k: int)
    ensures (x + y) * k == x * k + y * k
  {
  }

  lemma MulSubtract(x: int, y: int, k: int)
    ensures (x - y) * k == x * k - y * k
  {
  }

  lemma MulAssociate(x: int, y: int, z: int)
    ensures x * (y * z) == (x * y) * z
  {
  }

  lemma MulNonNegative(x: nat, y: nat)
    ensures 0 <= x * y
  {
  }

  lemma MulStrict(x: int, y: int, k: int)
    requires x < y && 0 < k
    ensures x * k < y * k
  {
  }

  lemma EvenProduct(x: nat, y: nat)
    requires y % 2 == 0
    ensures (x * y) % 2 == 0
  {
    var h := y / 2;
    assert y == 2 * h;
    MulSwap(x, 2, h);
  }

  /** The quotient and remainder are the only pair with the division property. */
  lemma DivModUnique(n: int, d: int, q: int, r: int)
    requires d > 0 && n == q * d + r && 0 <= r < d
    ensures n / d == q && n % d == r
  {
    var k := n / d - q;
    assert k * d == r - n % d by {
      assert n == (n / d) * d + n % d;
    }
    if k > 0 {
      MulMonotone(1, k, d);
      assert false;
    } else if k < 0 {
      MulMonotone(k, -1, d);
      assert false;
    }
  }

  // ------------------------------------------------------- some exact powers

  lemma TwoTo16()
    ensures Pow(2, 16) == 0x1_0000
  {
    assert Pow(2, 8) == 0x100;
    PowAdd(2, 8, 8);
  }

  lemma TwoTo32()
    ensures Pow(2, 32) == 0x1_0000_0000
  {
    TwoTo16();
    PowAdd(2, 16, 16);
  }

  lemma TwoTo64()
    ensures Pow(2, 64) == 0x1_0000_0000_0000_0000
  {
    TwoTo32();
    PowAdd(2, 32, 32);
  }

  lemma TwoTo60()
    ensures Pow(2, 60) == 0x1000_0000_0000_0000
  {
    TwoTo64();
    PowAdd(2, 60, 4);
    assert Pow(2, 4) == 16;
  }

  lemma TwoTo52()
    ensures Pow(2, 52) == 0x10_0000_0000_0000
  {
    TwoTo60();
    PowAdd(2, 52, 8);
    assert Pow(2, 8) == 256;
  }

  lemma TenTo10()
    ensures Pow(10, 10) == 10_000_000_000
  {
    assert Pow(10, 5) == 100_000;
    PowAdd(10, 5, 5);
  }

  lemma TenTo19()
    ensures Pow(10, 19) == 10_000_000_000_000_000_000
  {
    TenTo10();
    PowAdd(10, 10, 10);
    assert Pow(10, 20) == 10 * Pow(10, 19);
  }
}
