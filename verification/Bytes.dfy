/** Octets, the source's xmlChar. */
module Bytes {
  type Byte = b: int | 0 <= b < 256
}
