/** Small failure-carrying datatypes used across the model. */
module Wrappers {

  /** A value that may be missing: an unset environment variable, a date string no format accepts. */
  datatype Option<+T> = None | Some(value: T)

  /** The outcome of a step that either produces a value or fails with an error. */
  datatype Result<+T, +E> = Success(value: T) | Failure(error: E)
}
