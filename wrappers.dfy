/** Option and Result, the failure-carrying wrappers the rest of the model uses. */
module Wrappers {

  /** A value that may be absent (a JavaScript property that is `undefined`). */
  datatype Option<+T> = None | Some(value: T)

  /** The normal return of an operation, or the error it throws. */
  datatype Result<+R, +E> = Success(value: R) | Failure(error: E)
}
