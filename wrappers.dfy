/** Optional values and results with an error, as used throughout the model. */
module Wrappers {

  /** Python's "maybe absent": an attribute that was never set, a hook that was never configured. */
  datatype Option<+T> = None | Some(value: T)

  /** The outcome of an operation that may raise. */
  datatype Result<+T, +E> = Success(value: T) | Failure(error: E)
}
