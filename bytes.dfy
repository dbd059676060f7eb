/** Octets, as Node's `Buffer` holds them. */
module Bytes {

  type Byte = b: int | 0 <= b < 256
}
