/** Octets, as Node's Buffer and bcrypt's C code see them. */
module Bytes {

  newtype byte = x: int | 0 <= x < 256
}
