/** Option and Result: Java `null` and thrown business-rule errors as values. */
module Wrappers {

  /** `None` stands for a Java `null` reference. */
  datatype Option<+T> = None | Some(value: T)

  /** `Failure` stands for an exception the source throws. */
  datatype Result<+R, +E> = Success(value: R) | Failure(error: E)
}
