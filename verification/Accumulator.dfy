/**
  The two-word accumulator that sums 64-bit products when the platform has no
  128-bit integer.
 */
module Accumulators {
  import opened Words

  class Accumulator {
    var lower: u64
    var upper: u64

    constructor ()
      ensures Value() == 0
    {
      lower, upper := 0, 0;
    }

    ghost function Value(): nat
      reads this
    {
      lower + TWO64 * upper
    }

    /** Conversion to a bigit: the low 32 bits. */
    function Low32(): (r: u32)
      reads this
      ensures r == Value() % TWO32
    {
      lower % TWO32
    }

    /** Adds a word; the carry out of the low word is detected by wrap-around. */
    method Add(n: u64)
      modifies this
      ensures Value() == (old(Value()) + n) % TWO128
    {
      assert lower + n < TWO64 ==> (lower + n) % TWO64 == lower + n;
      assert lower + n >= TWO64 ==> (lower + n) % TWO64 == lower + n - TWO64 < n;
      lower := (lower + n) % TWO64;
      if lower < n {
        upper := (upper + 1) % TWO64;
      }
    }

    /** Shifts right by 32 bits, moving the low half of the upper word down. */
    method ShiftRight32()
      modifies this
      ensures Value() == old(Value()) / TWO32
    {
      lower := (upper * TWO32) % TWO64 + lower / TWO32;
      upper := upper / TWO32;
    }
  }
}
