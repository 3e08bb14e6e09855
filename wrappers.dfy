/** Option and Result: Java's `Optional`/`null` and thrown exceptions as values. */
module Wrappers {

  /** `None` stands for Java's `Optional.empty()` or a `null` reference. */
  datatype Option<+T> = None | Some(value: T)

  /** `Failure` stands for an exception thrown to the caller. */
  datatype Result<+T, +E> = Success(value: T) | Failure(error: E)
}
