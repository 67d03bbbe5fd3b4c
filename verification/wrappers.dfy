/** Optional values (PHP's null) and results that may carry an error message (a thrown exception). */
module Wrappers {
  datatype Option<+T> = None | Some(value: T)

  datatype Result<+R, +E> = Success(value: R) | Failure(error: E)
}
