/** Failure-carrying datatypes that stand in for PHP exceptions. */
module Wrappers {

  datatype Option<+T> = None | Some(value: T)

  /** A value, or the exception that was raised instead of producing it. */
  datatype Result<+R, +E> = Success(value: R) | Failure(error: E)

  /** No value: either the call completed, or it raised `error`. */
  datatype Outcome<+E> = Pass | Fail(error: E)
}
