/** Failure-carrying result types shared by the other modules. */
module Wrappers {

  /** A value that may be absent: JavaScript's `undefined`, a missing attribute, `NaN`. */
  datatype Option<+T> = None | Some(value: T)

  /** The outcome of an operation that the server either completes or throws out of. */
  datatype Result<+R, +E> = Success(value: R) | Failure(error: E)
}
