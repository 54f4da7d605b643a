/// Python's `int.bit_length` and `1 << k` on non-negative integers, the only
/// bit arithmetic the tree builders use.
module Bits {

  /** `1 << k`. */
  function Pow2(k: nat): (r: nat)
    ensures r >= 1
  {
    if k == 0 then 1 else 2 * Pow2(k - 1)
  }

  /** `x.bit_length()` for `x >= 0`: the number of binary digits, 0 for 0. */
  function BitLength(x: nat): nat
  {
    if x == 0 then 0 else 1 + BitLength(x / 2)
  }

  /** A positive number lies between the powers of two its bit length names. */
  lemma {:induction false} BitLengthBounds(x: nat)
    requires x >= 1
    ensures BitLength(x) >= 1
    ensures Pow2(BitLength(x) - 1) <= x < Pow2(BitLength(x))
  {
    if x == 1 {
    } else {
      BitLengthBounds(x / 2);
    }
  }

  /** The bit length is the one those bounds determine. */
  lemma {:induction false} BitLengthOf(x: nat, b: nat)
    requires b >= 1 && Pow2(b - 1) <= x < Pow2(b)
    ensures BitLength(x) == b
  {
    if b == 1 {
      assert x == 1;
    } else {
      BitLengthOf(x / 2, b - 1);
    }
  }

  /** A number below `2^b` has at most `b` bits. */
  lemma {:induction false} BitLengthBelow(x: nat, b: nat)
    requires x < Pow2(b)
    ensures BitLength(x) <= b
  {
    if x >= 1 {
      BitLengthBounds(x);
      if BitLength(x) > b {
        Pow2Mono(b, BitLength(x) - 1);
      }
    }
  }

  lemma {:induction false} Pow2Mono(a: nat, b: nat)
    requires a <= b
    ensures Pow2(a) <= Pow2(b)
  {
    if a < b {
      Pow2Mono(a, b - 1);
    }
  }
}
