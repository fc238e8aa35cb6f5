/** The source's unsigned integer types. */
module Ints {
  const U32 := 0x1_0000_0000

  type uint16 = x: int | 0 <= x < 0x1_0000
  type uint32 = x: int | 0 <= x < U32
}
