/** Failure-compatible wrappers shared by every module of the model. */
module Base {

  /** A value that may be missing: JavaScript's `undefined` / `null`. */
  datatype Option<+T> = None | Some(value: T) {
    function GetOr(default: T): T {
      match this
      case Some(v) => v
      case None => default
    }
  }

  /** The outcome of a step that may throw. */
  datatype Result<+T, +E> = Ok(value: T) | Err(error: E)
}
