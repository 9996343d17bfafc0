/** Optional values and results with an error, shared by the modules of this model. */
module Wrappers {

  /** A value that may be absent: JavaScript's `null`/`undefined` or `NaN`. */
  datatype Option<+T> = None | Some(value: T) {
    function GetOr(default: T): T {
      match this
      case Some(v) => v
      case None => default
    }
  }

  /** The outcome of an operation that may throw. */
  datatype Result<+T, +E> = Ok(value: T) | Err(error: E)
}
