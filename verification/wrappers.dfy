/** Optional values and results that may carry an error. */
module Wrappers {

  /** A value that may be absent; a C pointer that may be NULL. */
  datatype Option<T> = None | Some(value: T)

  /** The outcome of an operation that may raise an error instead of returning. */
  datatype Result<T> = Success(value: T) | Failure(error: string)
}
