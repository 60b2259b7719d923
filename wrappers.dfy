/** The two failure-carrying wrappers the model uses for absent values and error returns. */
module Wrappers {

  /** A value that may be absent, as a JSON body field or query parameter may be. */
  datatype Option<+T> = None | Some(value: T)

  /** The outcome of an operation that either succeeds with a value or fails with an error. */
  datatype Result<+T, +E> = Success(value: T) | Failure(error: E)
}
