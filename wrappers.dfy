/** Failure-carrying result types shared by the model's modules. */
module Wrappers {

  /** A value that may be absent (JavaScript's `undefined`). */
  datatype Option<+T> = None | Some(value: T)

  /** The outcome of a computation that either yields a value or throws an error. */
  datatype Result<+T, +E> = Success(value: T) | Failure(error: E)

  /** The outcome of a computation that yields nothing but may throw an error. */
  datatype Outcome<+E> = Pass | Fail(error: E)
}
