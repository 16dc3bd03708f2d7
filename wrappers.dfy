/** Optional values and results with a failure status, used across the model. */
module Wrappers {

  /** A value that may be absent: a JSON field that is missing or of the wrong type,
      a nullable column, a grade that coerced to NaN. */
  datatype Option<+T> = None | Some(value: T)

  /** The outcome of a request handler: a payload, or an error status. */
  datatype Result<+R, +E> = Success(value: R) | Failure(error: E)
}
