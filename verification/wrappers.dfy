/** Failure-carrying result types used in place of Java's null returns and exceptions. */
module Wrappers {

  /** An optional value: `None` stands for a Java `null` reference. */
  datatype Option<+T> = None | Some(value: T)

  /** Either a value or the exception the Java code would throw instead. */
  datatype Result<+R, +E> = Success(value: R) | Failure(error: E)
}
