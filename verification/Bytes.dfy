/** Bytes as the C sources see them, and the character codes they compare against. */
module Bytes {
  newtype byte = x: int | 0 <= x < 256

  const NUL: byte := 0
  const NEWLINE: byte := 10
  const SPACE: byte := 32

  const U32 := 0x1_0000_0000
}
