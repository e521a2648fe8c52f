/** The fixed-width unsigned and signed integer ranges of the Rust source,
    as subset types of the unbounded integers. */
module Ints {

  const U8Limit: int := 0x100
  const U16Limit: int := 0x1_0000
  const U32Limit: int := 0x1_0000_0000

  type U8 = x: int | 0 <= x < U8Limit
  type U16 = x: int | 0 <= x < U16Limit
  type U32 = x: int | 0 <= x < U32Limit
  type I16 = x: int | -0x8000 <= x < 0x8000
}
