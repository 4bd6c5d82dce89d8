/** Shared vocabulary: optional values and the fixed-width unsigned integers of the Go sources. */
module Prelude {

  datatype Option<+T> = None | Some(value: T)

  const TWO_TO_THE_32: int := 0x1_0000_0000
  const TWO_TO_THE_64: int := 0x1_0000_0000_0000_0000

  type uint8 = x: int | 0 <= x < 0x100
  type uint16 = x: int | 0 <= x < 0x1_0000
  type uint32 = x: int | 0 <= x < TWO_TO_THE_32
  type uint64 = x: int | 0 <= x < TWO_TO_THE_64

  /** uint32 addition, wrapping as in Go. */
  function Add32(a: uint32, b: uint32): uint32 {
    (a + b) % TWO_TO_THE_32
  }

  /** uint64 addition, wrapping as in Go. */
  function Add64(a: uint64, b: uint64): uint64 {
    (a + b) % TWO_TO_THE_64
  }
}
