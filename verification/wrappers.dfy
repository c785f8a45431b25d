/** Failure-carrying values used in place of Java's null and exceptions. */
module Wrappers {

  /** A value that may be absent: Java's nullable reference. */
  datatype Option<+T> = None | Some(value: T)

  /** The outcome of an operation that can throw: either its value or the
      exception's message. */
  datatype Result<+T> = Ok(value: T) | Err(error: string)
}
