/** Machine-integer ranges used by the Rust source (i32, u8, u16, u32, u64).
    Arithmetic that would overflow panics in a debug build, so the model
    states the ranges explicitly and callers keep values inside them. */
module Ints {
  const I32_MIN: int := -0x8000_0000
  const I32_MAX: int := 0x7fff_ffff
  const U16_MAX: int := 0xffff
  const U64_MAX: int := 0xffff_ffff_ffff_ffff

  predicate IsI32(n: int) { I32_MIN <= n <= I32_MAX }

  type i32 = n: int | I32_MIN <= n <= I32_MAX
  type u8 = n: int | 0 <= n < 0x100
  type u16 = n: int | 0 <= n <= U16_MAX
  type u32 = n: int | 0 <= n < 0x1_0000_0000
  type u64 = n: int | 0 <= n <= U64_MAX
}
