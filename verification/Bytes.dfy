/** The bytes of the runtime's strings. */
module Bytes {
  newtype Byte = x: int | 0 <= x < 0x100
}
