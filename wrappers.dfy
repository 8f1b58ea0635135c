/** Optional values and error results, used where the source yields SQL nulls
    or raises. */
module Wrappers {

  /** A value that may be absent (a SQL null). */
  datatype Option<+T> = None | Some(value: T)

  /** A value, or the error the source raises instead of returning one. */
  datatype Result<+T, +E> = Success(value: T) | Failure(error: E)
}
