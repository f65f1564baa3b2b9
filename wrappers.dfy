/** Optional values and results with an error, used for the `null` returns and
    the thrown errors of the extension. */
module Wrappers {

  datatype Option<+T> = None | Some(value: T)

  datatype Result<+R, +E> = Success(value: R) | Failure(error: E)
}
