/** The bytes of C strings. */
module Bytes {

  type Byte = b: int | 0 <= b < 256

  const SLASH: Byte := 47
}
