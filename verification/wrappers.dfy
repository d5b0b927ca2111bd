/** Option and Result, the shapes of Python's `None` and of a call that may raise. */
module Wrappers {

  /** A value that may be absent, as an attribute set to `None`. */
  datatype Option<+T> = None | Some(value: T)

  /** The outcome of a call that either returns a value or raises an error. */
  datatype Result<+T, +E> = Success(value: T) | Failure(error: E)
}
