/** Bytes as Java's codecs see them: unsigned values from 0 to 255. */
module Bytes {
  type byte = x: int | 0 <= x < 256
}
