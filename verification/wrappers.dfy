/** Failure-carrying values used in place of Java's null and checked exceptions. */
module Wrappers {

  /** An optional value; `None` stands for a Java `null` reference. */
  datatype Option<+T> = None | Some(value: T)

  /** The outcome of a computation that either yields a value or throws an error. */
  datatype Result<+T, +E> = Success(value: T) | Failure(error: E)

  /** The outcome of a `void` computation that may throw an error. */
  datatype Outcome<+E> = Pass | Fail(error: E)
}
