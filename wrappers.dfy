/** Option and Result, the two ways the scenario reports "no value" and errors. */
module Wrappers {

  /** A value that may be absent; Python's `None` becomes `None`. */
  datatype Option<+T> = None | Some(value: T)

  /** The outcome of an operation that can raise: a value, or the error it raises. */
  datatype Result<+R, +E> = Success(value: R) | Failure(error: E)
}
