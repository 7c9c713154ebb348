/** Option and Result values, standing in for Java's `null` returns and thrown exceptions. */
module Wrappers {

  /** `None` plays the part of a Java `null` reference. */
  datatype Option<+T> = None | Some(value: T)

  /** `Failure` plays the part of an exception thrown instead of returning. */
  datatype Result<+R, +E> = Success(value: R) | Failure(error: E)
}
