/** Failure-carrying values standing in for the exceptions the Python code raises. */
module Wrappers {

  datatype Option<+T> = None | Some(value: T)

  /** A value or the error that stopped the computation (a raised exception). */
  datatype Result<+R, +E> = Success(value: R) | Failure(error: E)

  /** Normal return, or the error that was raised instead. */
  datatype Outcome<+E> = Pass | Fail(error: E)
}
