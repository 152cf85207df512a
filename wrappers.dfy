/** Failure-compatible wrappers shared by the other modules. */
module Wrappers {

  datatype Option<+T> = None | Some(value: T)

  /** The value of a PHP expression, or the exception it threw. */
  datatype Result<+T, +E> = Ok(value: T) | Err(error: E)
}
