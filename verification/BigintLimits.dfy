/**
  Inputs on which the big-integer operations do not do what their names say.
 */
module BigintLimits {
  import opened Bigits
  import opened BigitOrder
  import opened Bigints

  lemma SmallValues()
    ensures Val([1]) == 1 && Val([0, 1]) == BASE && Val([0, 0, 1]) == BASE * BASE && Val([0]) == 0
    ensures Weight(0) == 1 && Weight(1) == BASE
  {
    assert [1][..0] == [] && [0][..0] == [] && [0, 1][..1] == [0] && [0, 0, 1][..2] == [0, 0] && [0, 0][..1] == [0];
    assert Weight(2) == BASE * Weight(1);
  }

  /** 2^32 with and without a low zero bigit: equal values that compare as greater. */
  lemma CompareTie()
    ensures ValueOf([0, 1], 0) == ValueOf([1], 1) && CompareResult([0, 1], 0, [1], 1) == 1
  {
    SmallValues();
  }

  /** 2^64 - 1: the borrow has to pass a zero bigit, and is taken from it instead. */
  method SubtractLoses() returns (left: seq<bigit>)
    ensures Val(left) != BASE * BASE - 1
  {
    SmallValues();
    var a := new Bigint();
    var b := new Bigint();
    a.bigits, b.bigits := [0, 0, 1], [1];
    a.SubtractAligned(b);
    left := a.bigits;
  }

  /** 2^32 divided by 2^32, the divisor stored with a low zero bigit: the quotient comes out as zero. */
  method DivmodMisled() returns (quotient: nat)
    ensures ValueOf([1], 1) == ValueOf([0, 1], 0) && quotient == 0
  {
    SmallValues();
    var a := new Bigint();
    var b := new Bigint();
    a.bigits, a.exp, b.bigits := [1], 1, [0, 1];
    quotient := a.DivmodAssign(b);
  }
}
