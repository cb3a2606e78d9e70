/** Optional values and results with an error, standing for Go's `error`
    return values (`None` is a nil error). */
module Wrappers {

  datatype Option<+T> = None | Some(value: T)

  datatype Result<+R, +E> = Success(value: R) | Failure(error: E)
}
