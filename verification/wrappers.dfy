/** An optional value and a success-or-error result, used across the model. */
module Wrappers {

  /** A value that may be missing, as a store read that finds nothing. */
  datatype Option<+T> = None | Some(value: T)

  /** Either a value or the error that stopped its construction. */
  datatype Result<+R, +E> = Success(value: R) | Failure(error: E)
}
