/**
 * C integer widths as ranges of `int`. Every store into a narrower lvalue
 * goes through one of the truncations below, which keep the value modulo
 * the width (two's complement for the signed ones).
 */
module CInts {
  type u8 = x: int | 0 <= x < 0x100
  type u16 = x: int | 0 <= x < 0x1_0000
  type u32 = x: int | 0 <= x < 0x1_0000_0000
  type s8 = x: int | -0x80 <= x < 0x80
  type s16 = x: int | -0x8000 <= x < 0x8000

  function ToU8(x: int): u8 { x % 0x100 }
  function ToU16(x: int): u16 { x % 0x1_0000 }
  function ToU32(x: int): u32 { x % 0x1_0000_0000 }
  function ToS8(x: int): s8 { (x + 0x80) % 0x100 - 0x80 }
  function ToS16(x: int): s16 { (x + 0x8000) % 0x1_0000 - 0x8000 }

  /** A value that already fits is stored unchanged. */
  lemma InRangeU8(x: int)
    requires 0 <= x < 0x100
    ensures ToU8(x) == x
  {
  }

  lemma InRangeU16(x: int)
    requires 0 <= x < 0x1_0000
    ensures ToU16(x) == x
  {
  }

  lemma InRangeS8(x: int)
    requires -0x80 <= x < 0x80
    ensures ToS8(x) == x
  {
  }

  lemma InRangeS16(x: int)
    requires -0x8000 <= x < 0x8000
    ensures ToS16(x) == x
  {
  }

  /** Storing into an s8 or s16 before a subtraction gives the same result as storing after it. */
  lemma S8Congruent(a: int, b: int)
    ensures ToS8(ToS8(a) - b) == ToS8(a - b)
  {
  }

  lemma S16Congruent(a: int, b: int)
    ensures ToS16(ToS16(a) - b) == ToS16(a - b)
  {
  }
}
