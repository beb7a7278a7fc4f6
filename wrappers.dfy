/** Option and Result, for JavaScript's `null`/`undefined`/`NaN` and for handlers that bail out. */
module Wrappers {

  datatype Option<+T> = None | Some(value: T)

  datatype Result<+T, +E> = Success(value: T) | Failure(error: E)
}
