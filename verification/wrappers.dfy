/** Option and Result datatypes: `Option` stands for a nullable Java
    reference, `Result` for a call that either returns or throws. */
module Wrappers {

  /** A value that may be absent (a Java `null`). */
  datatype Option<+T> = None | Some(value: T)

  /** Either the value a call returns or the error it throws. */
  datatype Result<+R, +E> = Success(value: R) | Failure(error: E)
}
