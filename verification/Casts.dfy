/** The integer casts of the source whose truncation matters. */
module Casts {

  type u32 = n: nat | n < 0x1_0000_0000

  const C_INT_MAX: nat := 0x7FFF_FFFF

  /** Rust's `as i32` of a `u32`. */
  function AsI32(n: u32): int {
    if n <= C_INT_MAX then n else n - 0x1_0000_0000
  }

  /** Rust's `as c_int` of a length. */
  function AsCInt(n: nat): int {
    AsI32(n % 0x1_0000_0000)
  }

  /** Both casts keep the low 32 bits and read them as two's complement. */
  lemma CastsKeepLowBits(n: nat)
    ensures -0x8000_0000 <= AsCInt(n) < 0x8000_0000
    ensures (AsCInt(n) - n) % 0x1_0000_0000 == 0
    ensures n < 0x1_0000_0000 ==> AsI32(n) == AsCInt(n)
    ensures n < 0x8000_0000 ==> AsCInt(n) == n
  {
  }
}
