/** C's fixed-width integers. */
module CInt {
  const INT_MAX := 0x7FFF_FFFF
  const TWO_31 := 0x8000_0000
  const TWO_32 := 0x1_0000_0000
  const TWO_64: nat := 0x1_0000_0000_0000_0000

  type int32 = x: int | -TWO_31 <= x < TWO_31
  type uint8 = x: int | 0 <= x < 256
  type uint32 = x: int | 0 <= x < TWO_32
  type uint64 = x: int | 0 <= x < TWO_64

  /** Truncation of an unsigned value to a signed 32-bit integer. */
  function ToInt32(x: nat): int32 {
    var low := x % TWO_32;
    if low <= INT_MAX then low else low - TWO_32
  }
}
