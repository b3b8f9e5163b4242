/** Octets, the unit of Python's `bytes`. */
module Bytes {

  type byte = b: int | 0 <= b < 256
}
