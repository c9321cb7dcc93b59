/** Optional values and results of remote calls. */
module Wrappers {

  /** A value that may be absent (Python's `None`). */
  datatype Option<+T> = None | Some(value: T)

  /** The outcome of a remote call: a response, or the error the call raised. */
  datatype Result<+R, +E> = Success(value: R) | Failure(error: E)
}
