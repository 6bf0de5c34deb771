/** Failure-carrying wrappers used across the model. */
module Wrappers {

  /** A value that may be absent, such as the result of a record lookup. */
  datatype Option<+T> = None | Some(value: T)

  /** Either a computed value or the error that stopped the computation. */
  datatype Result<+R, +E> = Ok(value: R) | Err(error: E)
}
