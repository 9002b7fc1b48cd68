/** The failure-compatible types the models return where the source returns `Option` or `Result`. */
module Wrappers {

  datatype Option<+T> = None | Some(value: T)

  datatype Result<+T, +E> = Ok(value: T) | Err(error: E)

  /** A byte of binary data. Text is a `string` whose characters are its bytes, codes 0 to 255. */
  type Byte = x: int | 0 <= x < 256
}
