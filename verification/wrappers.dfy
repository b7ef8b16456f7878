/** Option and Result values standing in for JavaScript's `null` and for the
    operator notices (alerts) on which an operation gives up. */
module Wrappers {

  datatype Option<+T> = None | Some(value: T)

  datatype Result<+R, +E> = Success(value: R) | Failure(error: E)
}
