/** Unsigned machine integers. */
module Bytes {
  type byte = b: int | 0 <= b < 0x100
  type uint16 = x: int | 0 <= x < 0x1_0000
  type uint32 = x: int | 0 <= x < 0x1_0000_0000

  // Conversion to a byte, and byte arithmetic: all but the low eight bits are lost.

  function ToByte(x: int): byte {
    x % 0x100
  }

  function Plus(a: byte, b: byte): byte {
    ToByte(a as int + b as int)
  }

  function Minus(a: byte, b: byte): byte {
    ToByte(a as int - b as int)
  }
}
