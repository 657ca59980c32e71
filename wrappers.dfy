/** Java's nullable references and thrown exceptions, as values. */
module Wrappers {

  /** A Java reference that may be null (`None`), or an `Optional`. */
  datatype Option<+T> = None | Some(value: T)

  /** A Java call that either returns a value or throws a
      `RuntimeException` carrying `message`. */
  datatype Result<+T> = Success(value: T) | Failure(message: string)

  /** A `void` Java call that either returns or throws. */
  datatype Outcome = Pass | Fail(message: string)
}
