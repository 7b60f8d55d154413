/**
 * Fixed-width unsigned integers of C, with the wrap-around of their
 * arithmetic written out.
 */
module Uint {
  const TWO_TO_THE_8: int := 0x100
  const TWO_TO_THE_32: int := 0x1_0000_0000

  type u8 = x: int | 0 <= x < 0x100
  type u32 = x: int | 0 <= x < 0x1_0000_0000

  /** `a - b` on uint32_t: wraps below zero. */
  function Sub32(a: u32, b: u32): u32
  {
    (a - b) % TWO_TO_THE_32
  }

  /** `a + b` on uint32_t. */
  function Add32(a: u32, b: u32): u32
  {
    (a + b) % TWO_TO_THE_32
  }

  /** `a * b` on uint32_t. */
  function Mul32(a: u32, b: u32): u32
  {
    (a * b) % TWO_TO_THE_32
  }

  /** The cast `(uint8_t) x`: keeps the low eight bits. */
  function ToU8(x: u32): u8
  {
    x % TWO_TO_THE_8
  }
}
