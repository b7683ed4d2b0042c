/** Optional values and results with an error, as the Go code returns them
    (a value, or `nil` and an error). */
module Wrappers {

  datatype Option<+T> = None | Some(value: T)

  datatype Result<+R, +E> = Success(value: R) | Failure(error: E)
}
