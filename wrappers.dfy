/** Optional values and results with an error, used for the query's optional
    inputs and for its validation failures. */
module Wrappers {

  datatype Option<+T> = None | Some(value: T)

  datatype Result<+R, +E> = Success(value: R) | Failure(error: E)
}
