/** Optional values and results that carry the exception a Python call would raise. */
module Outcomes {

  datatype Option<T> = None | Some(value: T)

  datatype Result<T, E> = Success(value: T) | Failure(error: E)
}
