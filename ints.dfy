/** Rust's fixed-width integer types and the `as` casts between them.
    A cast between types of the same width reinterprets the two's-complement
    bits; a cast to a narrower width keeps the low bits. */
module Ints {

  const TWO_32: int := 0x1_0000_0000
  const TWO_63: int := 0x8000_0000_0000_0000
  const TWO_64: int := 0x1_0000_0000_0000_0000

  const MIN_I64: int := -TWO_63
  const MAX_I64: int := TWO_63 - 1
  const MAX_U64: int := TWO_64 - 1

  type byte = x: int | 0 <= x < 0x100
  type u32 = x: int | 0 <= x < 0x1_0000_0000
  type i32 = x: int | -0x8000_0000 <= x < 0x8000_0000
  type u64 = x: int | 0 <= x < 0x1_0000_0000_0000_0000
  type i64 = x: int | -0x8000_0000_0000_0000 <= x < 0x8000_0000_0000_0000

  /** `x as u64` for `x: i64`. */
  function I64AsU64(x: i64): (r: u64)
    ensures x >= 0 ==> r == x
    ensures x < 0 ==> r == x + TWO_64
  {
    x % TWO_64
  }

  /** `x as u32` for `x: i32`. */
  function I32AsU32(x: i32): (r: u32)
    ensures x >= 0 ==> r == x
    ensures x < 0 ==> r == x + TWO_32
  {
    x % TWO_32
  }

  /** `x as i64` for `x: u64`. */
  function U64AsI64(x: u64): (r: i64)
    ensures x < TWO_63 ==> r == x
    ensures x >= TWO_63 ==> r == x - TWO_64
    ensures I64AsU64(r) == x
  {
    if x < TWO_63 then x else x - TWO_64
  }

  /** `x as i32` for `x: u32`. */
  function U32AsI32(x: u32): (r: i32)
    ensures x < 0x8000_0000 ==> r == x
    ensures x >= 0x8000_0000 ==> r == x - TWO_32
    ensures I32AsU32(r) == x
  {
    if x < 0x8000_0000 then x else x - TWO_32
  }
}
