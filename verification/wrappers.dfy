/** Failure-carrying result types shared by the parser modules. */
module Wrappers {

  /** A value that may be missing, as TypeScript's `T | undefined`. */
  datatype Option<+T> = None | Some(value: T)

  /** The outcome of an operation whose source can throw: either its value or the error it throws. */
  datatype Result<+R, +E> = Success(value: R) | Failure(error: E)
}
