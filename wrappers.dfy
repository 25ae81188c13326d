/** Failure-compatible wrappers: `Option` stands for a Java reference that may be null,
    `Result` and `Outcome` for a call that returns a value or throws. */
module Wrappers {

  datatype Option<+T> = None | Some(value: T)

  datatype Result<+R, +E> = Success(value: R) | Failure(error: E)

  /** The outcome of a `void` Java method: it returns normally or throws `error`. */
  datatype Outcome<+E> = Pass | Fail(error: E)
}
