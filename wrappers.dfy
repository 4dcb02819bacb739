/** Datatypes shared by the modules of this project. */
module Wrappers {

  /** A value that may be absent, as PHP's `null` result of `Collection::first`. */
  datatype Option<+T> = None | Some(value: T)

  /** A value, or the error PHP raises instead of returning one. */
  datatype Result<+R, +E> = Success(value: R) | Failure(error: E)
}
