/** Small failure-compatible and update datatypes shared by every module. */
module Wrappers {

  /** A value that may be missing: SQL NULL, JavaScript `null` or `undefined`. */
  datatype Option<+T> = None | Some(value: T) {
    function GetOr(default: T): T {
      match this
      case Some(v) => v
      case None => default
    }
  }

  /** The outcome of an operation that the store may refuse. */
  datatype Result<+T, +E> = Ok(value: T) | Err(error: E)

  /** One field of a partial update: left as it is, or set to a new value. */
  datatype Patch<+T> = Keep | Set(value: T) {
    function Apply(current: T): T {
      match this
      case Set(v) => v
      case Keep => current
    }
  }
}
