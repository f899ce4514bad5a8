/** Option and Result, the failure-carrying values used across the model. */
module Wrappers {
  datatype Option<+T> = None | Some(value: T)

  /** Ok carries a value; Err carries the exception that Python would raise. */
  datatype Result<+T, +E> = Ok(value: T) | Err(error: E)
}
