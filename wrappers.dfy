/** Option, result and pass/fail outcome types shared by the modules of the model. */
module Wrappers {

  /** A value that may be absent (Python's `Optional`, a nullable column). */
  datatype Option<+T> = None | Some(value: T)

  /** The outcome of an operation that returns a value or raises an error. */
  datatype Result<+R, +E> = Success(value: R) | Failure(error: E)

  /** The outcome of a check that returns nothing or raises an error. */
  datatype Outcome<+E> = Pass | Fail(error: E)
}
