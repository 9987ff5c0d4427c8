/** Characters of C strings and buffers. */
module Bytes {
  type Byte = bv8

  const NUL: Byte := 0
  const TAB: Byte := 9
  const LF: Byte := 10
  const CR: Byte := 13
}
