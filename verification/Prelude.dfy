/** Result types shared by every module, and the byte type of the binary formats. */
module Prelude {

  /** An octet, as held by a Node `Buffer` or a Swift `[UInt8]`. */
  type byte = x: int | 0 <= x < 256

  datatype Option<+T> = None | Some(value: T)

  /** A call that returns normally or throws. */
  datatype Result<+T, +E> = Ok(value: T) | Err(error: E)
}
