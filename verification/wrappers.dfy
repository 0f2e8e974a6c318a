/** Failure-compatible wrappers used across the model. */
module Wrappers {

  /** An optional value: `None` where the Python code yields nothing. */
  datatype Option<+T> = None | Some(value: T)

  /** A value or an error: the model's stand-in for a raised exception. */
  datatype Result<+R, +E> = Success(value: R) | Failure(error: E)
}
