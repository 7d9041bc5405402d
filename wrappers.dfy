/** Failure-carrying values used across the model. */
module Wrappers {

  /** A value that may be absent: a missing element, attribute or cookie. */
  datatype Option<+T> = None | Some(value: T)

  /** A successful result or the error that was thrown instead. */
  datatype Result<+T, +E> = Ok(value: T) | Err(error: E)
}
