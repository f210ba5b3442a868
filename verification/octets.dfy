/** Octet strings, the payload type of every characteristic value and key encoding. */
module Octets {

  newtype byte = x: int | 0 <= x < 256

  type Bytes = seq<byte>
}
