/** Failure-carrying result types shared by the validation layer and the certbot hook. */
module Wrappers {

  /** A value that may be absent (Python's `None`, Go's zero value plus error). */
  datatype Option<+T> = None | Some(value: T)

  /** The outcome of an operation that can fail with an error of type E. */
  datatype Result<+T, +E> = Success(value: T) | Failure(error: E)
}
