/** Failure-carrying values shared by every module of the model. */
module Wrappers {

  /** A value that may be missing, as Go's `(value, ok)` pairs are. */
  datatype Option<+T> = None | Some(value: T)

  /** A value or the error that replaced it, as Go's `(value, error)` pairs are. */
  datatype Result<+T, +E> = Ok(value: T) | Err(error: E)
}
