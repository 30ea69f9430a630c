/** Option and Result, standing in for Java's null and thrown exceptions. */
module Wrappers {

  /** `None` plays the role of a Java `null` reference. */
  datatype Option<+T> = None | Some(value: T)

  /** `Failure` plays the role of a Java exception escaping a call. */
  datatype Result<+R, +E> = Success(value: R) | Failure(error: E)
}
