/** Fixed-width integers, with wrap-around written out where the program relies on it. */
module Bytes {
  type u8 = x: int | 0 <= x < 0x100
  type u16 = x: int | 0 <= x < 0x1_0000
  type u32 = x: int | 0 <= x < 0x1_0000_0000
  type i16 = x: int | -0x8000 <= x < 0x8000
  type i32 = x: int | -0x8000_0000 <= x < 0x8000_0000

  function Wrap16(x: int): u16 { x % 0x1_0000 }

  function Wrap32(x: int): u32 { x % 0x1_0000_0000 }

  /** A 16-bit pattern read as a signed number. */
  function Signed16(x: u16): i16 { if x < 0x8000 then x else x - 0x1_0000 }

  /** The two's complement of `x` as a 16-bit pattern. */
  function Negated16(x: int): u16 { (0 - x) % 0x1_0000 }

  function Join16(hi: u8, lo: u8): u16 { (hi as int) * 0x100 + lo }

  /** High byte first. */
  function Be16(x: u16): seq<u8> { [x / 0x100, x % 0x100] }
}
