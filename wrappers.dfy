/** Option and Result values used throughout the model for absent values and error returns. */
module Wrappers {

  datatype Option<+T> = None | Some(value: T)

  /** The result of an operation that either succeeds with a value or fails with an error. */
  datatype Result<+T, +E> = Ok(value: T) | Err(error: E)

  /** The result of a check that either passes or fails with an error. */
  datatype Outcome<+E> = Pass | Fail(error: E)
}
