/** The option and result types the other modules share. */
module Wrappers {
  datatype Option<+T> = None | Some(value: T)

  datatype Result<+T, +E> = Ok(value: T) | Err(error: E)
}

module Bytes {
  type Byte = x: int | 0 <= x < 0x100
}
