/** Option and Result, the two wrappers the model uses for Python's `None`
    and for exceptions. */
module Wrappers {

  datatype Option<+T> = None | Some(value: T)

  /** A computation that either returns a value or raises an exception with
      the given message. */
  datatype Result<+R, +E> = Success(value: R) | Failure(error: E)
}
