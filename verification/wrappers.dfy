/** Failure-carrying result types used across the model. */
module Wrappers {

  /** An optional value: `None` stands for the source's "no match" (`null`, `-1`). */
  datatype Option<+T> = None | Some(value: T)

  /** Either a value or the error the source throws instead of returning one. */
  datatype Result<+T, +E> = Success(value: T) | Failure(error: E)
}
