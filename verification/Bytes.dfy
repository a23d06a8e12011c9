/** The bytes a typed array holds. */
module Bytes {
  type byte = b: int | 0 <= b < 256
}
