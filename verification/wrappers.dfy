/** Optional values and error-carrying results shared by every module. */
module Wrappers {

  /** A value that may be missing (Python's `None`, or a key absent from a JSON object). */
  datatype Option<+T> = None | Some(value: T) {

    /** The carried value, or `default` when there is none (`dict.get(key, default)`). */
    function GetOr(default: T): T {
      match this
      case Some(v) => v
      case None => default
    }
  }

  /** The outcome of an operation that can raise: a value, or the exception it raised. */
  datatype Result<+T, +E> = Ok(value: T) | Err(error: E)
}
