/** Fixed-width machine integers used by the source. */
module MachineInts {

  const U64_LIMIT: int := 0x1_0000_0000_0000_0000
  const U64_MAX: int := U64_LIMIT - 1

  newtype u64 = x: int | 0 <= x < 0x1_0000_0000_0000_0000

  /** Rust's `i64`. */
  newtype i64 = x: int | -0x8000_0000_0000_0000 <= x < 0x8000_0000_0000_0000

  /** Rust's `wrapping_add(1)` on `u64`: the successor, wrapping to 0 after `U64_MAX`. */
  function WrappingInc(x: u64): (r: u64)
    ensures x as int < U64_MAX ==> r as int == x as int + 1
    ensures x as int == U64_MAX ==> r == 0
  {
    if x as int == U64_MAX then 0 else x + 1
  }
}
