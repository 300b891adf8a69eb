/** The byte type and the unsigned 32-bit range shared by the firmware models. */
module Bytes {
  type byte = bv8

  const TWO_32: int := 0x1_0000_0000

  /** `alt_u32`: the values of an unsigned 32-bit integer. */
  type u32 = x: int | 0 <= x < TWO_32

  /** Reduction to 32 bits, the wrap-around of every `alt_u32` operation. */
  function Wrap(x: int): u32 {
    x % TWO_32
  }

  /** The signed 32-bit integer that an unsigned result is stored as. */
  function Int32(x: int): int {
    (x + 0x8000_0000) % TWO_32 - 0x8000_0000
  }
}
