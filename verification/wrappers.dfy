/** Optional values and success/failure results used across the codec model. */
module Wrappers {

  /** A value that may be absent; stands in for Go's nil-able `*T` references. */
  datatype Option<+T> = None | Some(value: T)

  /** The outcome of an operation that returns either a value or an error. */
  datatype Result<+T, +E> = Success(value: T) | Failure(error: E)
}
