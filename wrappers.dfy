/** Small helper datatypes shared by the model. */
module Wrappers {

  /** Python's `None` or a value. */
  datatype Option<+T> = None | Some(value: T)

  /** A mutating call that either completes or raises Python's `ValueError`. */
  datatype Outcome = Pass | ValueError

  /** A call that returns a value or raises `ValueError` (`Failure`). */
  datatype Result<+T> = Success(value: T) | Failure
}
