/** Octets, as the byte arrays of the source carry them (read as unsigned). */
module Bytes {

  type Byte = b: int | 0 <= b < 256

  type ByteString = seq<Byte>
}
