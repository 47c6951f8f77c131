/** Option and Result, the failure-carrying values used throughout the model. */
module Wrappers {

  datatype Option<+T> = None | Some(value: T)

  /** An operation that either produces a value or stops with an error,
      the way the code raises an exception. */
  datatype Result<+T, +E> = Ok(value: T) | Err(error: E)
}
