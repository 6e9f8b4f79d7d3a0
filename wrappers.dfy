/** Wrappers that model Java's null results and thrown exceptions. */
module Wrappers {

  /** A possibly absent value: `None` stands for a Java `null` result. */
  datatype Option<+T> = None | Some(value: T)

  /** A value, or the exception raised instead of producing it. */
  datatype Result<+R, +E> = Success(value: R) | Failure(error: E)

  /** The outcome of a `void` Java method that may throw: it returns normally or raises `error`. */
  datatype Outcome<+E> = Pass | Fail(error: E)
}
