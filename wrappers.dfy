/** Optional values and results with an error, as the service's request
    fields and fallible calls need them. */
module Wrappers {

  /** A JSON field that may be absent (`undefined` in the request body). */
  datatype Option<+T> = None | Some(value: T)

  /** The outcome of a call that may throw: its value, or the error it threw. */
  datatype Result<+R, +E> = Success(value: R) | Failure(error: E)
}
