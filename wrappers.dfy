/** Failure-carrying results used by every other module. */
module Wrappers {

  datatype Option<+T> = None | Some(value: T)

  /** A value or the exception that the operation raised instead. */
  datatype Result<+R, +E> = Success(value: R) | Failure(error: E)

  /** An operation that returns nothing (Python's `None`) or raises. */
  datatype Outcome<+E> = Pass | Fail(error: E)

  function Min(a: int, b: int): int
  {
    if a <= b then a else b
  }
}
