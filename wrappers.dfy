/** Optional values and results with an error, shared by the other modules. */
module Wrappers {

  /** A value that may be absent, as a Swift optional. */
  datatype Option<+T> = None | Some(value: T)

  /** A value or the error that was thrown instead. */
  datatype Result<+T, +E> = Ok(value: T) | Err(error: E)
}
