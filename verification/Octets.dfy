/** Eight-bit bytes. */
module Octets {

  type byte = x: nat | x < 256
}
