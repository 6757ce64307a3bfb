/** The result types shared by the models of the library's components. */
module Wrappers {

  datatype Option<+T> = None | Some(value: T)

  /** A value, or the exception that the original throws. */
  datatype Result<+T, +E> = Success(value: T) | Failure(error: E)
}
