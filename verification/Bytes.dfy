/** Bytes, and the byte strings that the source's `std::string` and `Slice` hold. */
module Bytes {
  datatype Option<+T> = None | Some(value: T)

  type Byte = x: int | 0 <= x < 256
  type Bytes = seq<Byte>

  /** A `std::string` that callees change through a pointer, or a `Slice` they advance. */
  class ByteString {
    var data: Bytes

    constructor (data: Bytes)
      ensures this.data == data
    {
      this.data := data;
    }
  }
}
