// Failure-carrying values and the fixed-width integers the helpers use.

module Wrappers {
  datatype Option<+T> = None | Some(value: T) {
    function GetOr(default: T): T {
      if Some? then value else default
    }
  }

  datatype Result<+T, +E> = Ok(value: T) | Err(error: E)
}

/** Rust's unsigned integers, with the saturating operations the sources call. */
module FixedWidth {
  const U16_MAX: int := 0xffff
  const U32_MAX: int := 0xffff_ffff
  const U64_MAX: int := 0xffff_ffff_ffff_ffff

  type u8 = n: int | 0 <= n <= 0xff
  type u16 = n: int | 0 <= n <= U16_MAX
  type u32 = n: int | 0 <= n <= U32_MAX
  type u64 = n: int | 0 <= n <= U64_MAX

  function SaturatingAdd32(a: u32, b: u32): u32 {
    if a + b <= U32_MAX then a + b else U32_MAX
  }

  function SaturatingAdd64(a: u64, b: u64): u64 {
    if a + b <= U64_MAX then a + b else U64_MAX
  }

  function SaturatingMul64(a: u64, b: u64): u64 {
    if a * b <= U64_MAX then a * b else U64_MAX
  }

  function SaturatingSub64(a: u64, b: u64): u64 {
    if a <= b then 0 else a - b
  }

  function Min(a: int, b: int): int {
    if a <= b then a else b
  }

  function Max(a: int, b: int): int {
    if a <= b then b else a
  }
}
