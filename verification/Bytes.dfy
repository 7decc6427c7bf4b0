/** Bytes, and strings as the UTF-8 bytes that encode them. */
module Bytes {
  type byte = b: int | 0 <= b < 0x100 witness 0
}
