/** An optional value, and a value-or-error result. */
module Wrappers {

  /** An optional value; stands for C#'s `null` and `int?`. */
  datatype Option<+T> = None | Some(value: T)

  /** A value, or the error that prevented computing it. */
  datatype Result<+R, +E> = Success(value: R) | Failure(error: E)
}
