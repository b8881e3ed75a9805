/** Option, Result and Outcome: absent references and thrown exceptions as values. */
module Wrappers {

  /** `None` stands for a C# `null` reference. */
  datatype Option<+T> = None | Some(value: T)

  /** A value, or the exception that ended the computation of it. */
  datatype Result<+T, +E> = Success(value: T) | Failure(error: E)

  /** `Fail` stands for an exception that ends the operation. */
  datatype Outcome<+E> = Pass | Fail(error: E)
}
