/**
 * The cell store of the simulation: a `BitVec` of `width * height` bits,
 * seen here as a sequence of booleans (an array where it is mutated).
 */
module Bits {

  /** Size of the source's `usize` on a 64-bit target. */
  const USIZE_MODULUS: int := 0x1_0000_0000_0000_0000

  /**
   * `bv.get(idx).unwrap_or(false)`: a read that never fails. An index below
   * zero (an index that underflowed) or at or past the end reads as dead.
   */
  function Get(bv: seq<bool>, idx: int): (b: bool)
    ensures b ==> 0 <= idx < |bv|
    ensures 0 <= idx < |bv| ==> b == bv[idx]
  {
    0 <= idx < |bv| && bv[idx]
  }

  /** One for a live read, zero for a dead one. */
  function Bit(b: bool): (n: nat)
    ensures n <= 1
    ensures n == 1 <==> b
  {
    if b then 1 else 0
  }

  /** The value an `overflowing_add` or `overflowing_sub` leaves in a `usize`. */
  function Wrap(v: int): (u: int)
    ensures 0 <= u < USIZE_MODULUS
    ensures 0 <= v < USIZE_MODULUS ==> u == v
    ensures -USIZE_MODULUS <= v < 0 ==> u == v + USIZE_MODULUS
  {
    v % USIZE_MODULUS
  }

  /**
   * Reading at the wrapped `usize` value gives the same answer as reading at
   * the mathematical integer, as long as the vector is not within `-v` of
   * `usize::MAX`: an underflowed index lands far past the end and is dead.
   */
  lemma WrappedReadAgrees(bv: seq<bool>, v: int)
    requires |bv| - USIZE_MODULUS <= v < USIZE_MODULUS
    ensures Get(bv, Wrap(v)) == Get(bv, v)
  {
  }
}
