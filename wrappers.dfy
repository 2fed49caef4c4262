/** Option and Result, used for PHP's `null` returns and fatal errors and for
    JavaScript's missing response fields and array holes. */
module Wrappers {

  datatype Option<+T> = None | Some(value: T)

  datatype Result<+T, +E> = Success(value: T) | Failure(error: E)
}
