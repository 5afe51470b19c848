/** Option and Result, used where the source returns null or throws. */
module Wrappers {

  /** `None` stands for Java's `null`. */
  datatype Option<+T> = None | Some(value: T)

  /** `Failure` stands for an exception thrown to the caller, carrying its message. */
  datatype Result<+R, +E> = Success(value: R) | Failure(error: E)
}
