/** Optional values and results with an error, as used throughout the model. */
module Wrappers {
  /** A value that may be absent; stands for a Go nil slice, func or interface. */
  datatype Option<+T> = None | Some(value: T)

  /** The outcome of a call that returns a value or an error. */
  datatype Result<+T, +E> = Ok(value: T) | Err(error: E)
}
