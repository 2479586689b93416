/** Option and Result: the null references and exceptions of the modelled code. */
module Wrappers {

  /** A value or nothing; stands for a Java reference that may be null. */
  datatype Option<+T> = None | Some(value: T)

  /** A value or an error; stands for a Java call that returns or throws. */
  datatype Result<+R, +E> = Success(value: R) | Failure(error: E)
}
