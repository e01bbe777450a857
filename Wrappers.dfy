/** Failure-compatible result types used to model Java exceptions and null. */
module Wrappers {

  /** A value that may be absent; `None` models a Java `null`. */
  datatype Option<+T> = None | Some(value: T)

  /** A computed value, or the error that a Java method would have thrown instead. */
  datatype Result<+R, +E> = Success(value: R) | Failure(error: E)

  /** A `void` Java method: it either returns normally or throws `error`. */
  datatype Outcome<+E> = Pass | Fail(error: E)
}
