/** Failure-carrying wrappers used in place of Python's `None` results and
    raised exceptions. */
module Wrappers {

  /** An optional value: Python's `dict.get` returning `None`, or a search
      that found nothing. */
  datatype Option<+T> = None | Some(value: T)

  /** A value or the error that would have been raised instead. */
  datatype Result<+T, +E> = Success(value: T) | Failure(error: E)

  /** Success without a value, or the error that would have been raised. */
  datatype Outcome<+E> = Pass | Fail(error: E)
}
