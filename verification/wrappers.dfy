/** Option and Result types for the results of the library calls the
    middleware makes (`url.Parse`, `regexp.Compile`). */
module Wrappers {

  /** A value that may be absent, standing in for a nil result. */
  datatype Option<+T> = None | Some(value: T)

  /** Either a value or the error a Go function would return beside it. */
  datatype Result<+R, +E> = Success(value: R) | Failure(error: E)
}
