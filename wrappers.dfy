/** Optional values and results with a typed error, used in place of
    JavaScript's `null`/`undefined` and of thrown errors. */
module Wrappers {

  datatype Option<T> = None | Some(value: T) {
    /** The value, or `default` when absent (JavaScript's `x ?? default`). */
    function GetOr(default: T): T {
      match this
      case Some(v) => v
      case None => default
    }
  }

  /** A resolver either returns a value or throws an error. */
  datatype Result<T, E> = Ok(value: T) | Err(error: E)
}
