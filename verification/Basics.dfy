/** Machine integers and other notions that several components share. */
module Basics {
  datatype Option<T> = None | Some(value: T)

  type uint4 = n: nat | n <= 0xF
  type uint8 = n: nat | n <= 0xFF
  type uint16 = n: nat | n <= 0xFFFF
  type uint32 = n: nat | n <= 0xFFFF_FFFF
  type int16 = n: int | -0x8000 <= n < 0x8000
  type int32 = n: int | -0x8000_0000 <= n < 0x8000_0000
  type int64 = n: int | -0x8000_0000_0000_0000 <= n < 0x8000_0000_0000_0000

  lemma MulAtLeast(n: int, d: int)
    requires n > 0 && d > 0
    ensures n * d >= n
  {
  }
}
