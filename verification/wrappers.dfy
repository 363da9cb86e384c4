/** The success-or-error value that every registry operation returns. */
module Wrappers {

  /** Either the value a call produces or the error it raises. */
  datatype Result<+R, +E> = Success(value: R) | Failure(error: E)
}
