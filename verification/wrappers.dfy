/** Failure-carrying datatypes used across the model: an absent value, a value or
    an error, and a success-or-error outcome for operations that return nothing. */
module Wrappers {

  /** A value that may be absent; stands for Python's `None`. */
  datatype Option<+T> = None | Some(value: T)

  /** A value, or the exception that was raised instead of producing it. */
  datatype Result<+R, +E> = Success(value: R) | Failure(error: E)

  /** Completion of an operation that returns no value: normal, or raised `error`. */
  datatype Outcome<+E> = Pass | Fail(error: E)
}
