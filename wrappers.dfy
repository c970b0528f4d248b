/** Failure-compatible wrappers used by the model. */
module Wrappers {

  /** A value that may be absent. */
  datatype Option<+T> = None | Some(value: T)

  /** A value, or the error an operation raised instead of returning it. */
  datatype Result<+T, +E> = Ok(value: T) | Err(error: E)
}
