/** Python's `None`-or-value and value-or-exception outcomes. */
module Wrappers {

  /** `None` or a value, as an `Optional[T]` in the source. */
  datatype Option<+T> = None | Some(value: T)

  /** A returned value, or the exception the source raises instead. */
  datatype Result<+R, +E> = Success(value: R) | Failure(error: E)
}
