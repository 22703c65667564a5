/** The fixed-width unsigned integers of the C code, as ranges of the mathematical integers. */
module Ints {

  const U32: nat := 0x1_0000_0000

  type u8 = x: int | 0 <= x < 0x100
  type u32 = x: int | 0 <= x < U32
}
