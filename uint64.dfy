/** Unsigned 64-bit integers (`uint64_t`), the type of span ids and clock readings. */
module Uint64 {

  const TWO_TO_THE_64: int := 0x1_0000_0000_0000_0000

  newtype u64 = x: int | 0 <= x < 0x1_0000_0000_0000_0000

  /** C's `a - b` on two `uint64_t` values: the mathematical difference reduced modulo 2^64. */
  function WrappingSub(a: u64, b: u64): (r: u64)
    ensures b <= a ==> r == a - b
    ensures a < b ==> r as int == TWO_TO_THE_64 + a as int - b as int
    ensures (b as int + r as int) % TWO_TO_THE_64 == a as int
  {
    ((a as int - b as int) % TWO_TO_THE_64) as u64
  }
}
