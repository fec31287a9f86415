/** Optional values, standing for Java's nullable references, and results with an error path. */
module Wrappers {
  datatype Option<T> = None | Some(value: T)

  /** The outcome of an operation that may throw: the value, or the name of the exception. */
  datatype Result<T> = Success(value: T) | Failure(error: string)
}
