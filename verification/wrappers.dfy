/** Optional values and success-or-error results, as used by the store model. */
module Wrappers {

  /** A value that may be absent (Python's `Optional[...]` / `None`). */
  datatype Option<+T> = None | Some(value: T) {

    /** The carried value, or `default` when absent. */
    function GetOr(default: T): T {
      match this
      case Some(v) => v
      case None => default
    }
  }

  /** Either the value an endpoint returns, or the error it raises. */
  datatype Result<+R, +E> = Success(value: R) | Failure(error: E)
}
