/** Failure-carrying results used across the model. */
module Wrappers {

  datatype Option<+T> = None | Some(value: T)

  /** The value-or-error pair that Go functions return as `(T, error)`. */
  datatype Result<+T, +E> = Ok(value: T) | Err(error: E)
}
