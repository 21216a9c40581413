/** Optional values and results with an error, used for pandas' NaN and for
    the exceptions a read can raise. */
module Wrappers {

  datatype Option<+T> = None | Some(value: T)

  datatype Result<+T, +E> = Success(value: T) | Failure(error: E)
}
