/** Failure-carrying result types used throughout the account store model. */
module Wrappers {

  datatype Option<+T> = None | Some(value: T)

  /** A value or the error that replaced it (a thrown exception in the source). */
  datatype Result<+T, +E> = Success(value: T) | Failure(error: E)

  /** Completion of an operation that returns nothing on success. */
  datatype Outcome<+E> = Pass | Fail(error: E)
}
