/** Go's `uint64`: values below 2^64 with wrap-around addition. */
module Uint64 {

  const TWO_64: int := 0x1_0000_0000_0000_0000

  type uint64 = x: int | 0 <= x < 0x1_0000_0000_0000_0000

  /** `a + b` on `uint64`. */
  function Add(a: uint64, b: uint64): uint64 {
    if a + b < TWO_64 then a + b else a + b - TWO_64
  }

  /** 1 when `a + b` does not fit in a `uint64`. */
  function Carry(a: uint64, b: uint64): nat {
    if a + b < TWO_64 then 0 else 1
  }

  /** `a - b` on `uint64`. */
  function Sub(a: uint64, b: uint64): uint64 {
    if b <= a then a - b else a - b + TWO_64
  }

  /** Wrapping addition agrees with addition modulo 2^64, also after earlier wraps. */
  lemma AddWraps(x: int, b: uint64)
    ensures Add(x % TWO_64, b) == (x + b) % TWO_64
  {
    assert x == x / TWO_64 * TWO_64 + x % TWO_64;
  }
}
