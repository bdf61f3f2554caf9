/** Failure-carrying datatypes shared by every module of the model. */
module Wrappers {

  /** A value that may be absent (Python's `Optional[...]` / `None`). */
  datatype Option<+T> = None | Some(value: T)

  /** A computation that either yields a value or fails with an error
      (a raised exception in the source). */
  datatype Result<+R, +E> = Success(value: R) | Failure(error: E)
}
