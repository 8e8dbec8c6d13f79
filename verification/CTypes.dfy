/** The C types and key codes the kernel sources share. */
module CTypes {
  /** `char` is signed on x86_64. */
  type Char = c: int | -128 <= c < 128
  type Byte = b: int | 0 <= b < 256
  type U16 = w: int | 0 <= w < 0x1_0000
  type U32 = w: int | 0 <= w < 0x1_0000_0000
  type U64 = w: int | 0 <= w < WRAP

  /** Unsigned 64-bit arithmetic is modulo this. */
  const WRAP: int := 0x1_0000_0000_0000_0000

  datatype Option<+T> = None | Some(value: T)

  const NUL: Char := 0
  const BACKSPACE: Char := 8
  const NEWLINE: Char := 10
  const SPACE: Char := 32
  const DELETE: Char := 0x7F

  // keyboard.h, the codes above 0x7F seen through a signed char
  const KEY_UP: Char := 0x80 - 256
  const KEY_DOWN: Char := 0x81 - 256
  const KEY_LEFT: Char := 0x82 - 256
  const KEY_RIGHT: Char := 0x83 - 256
  const KEY_F1: Char := 0x84 - 256
  const KEY_F2: Char := 0x85 - 256
  const KEY_F3: Char := 0x86 - 256
  const KEY_F4: Char := 0x87 - 256
  const KEY_CTRL: Char := 0x88 - 256
  const KEY_ALT_R: Char := 0x89 - 256
  const KEY_FN: Char := 0x8A - 256

  /** The unsigned byte with the same bits as a char. */
  function Unsigned(c: Char): Byte {
    if c < 0 then c + 256 else c
  }

  function Min(a: int, b: int): int {
    if a < b then a else b
  }

  function Max(a: int, b: int): int {
    if a < b then b else a
  }
}
