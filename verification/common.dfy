/** Failure-carrying wrappers shared by every module of the crawler model. */
module Common {

  /** A value that may be absent, used for Go's `(value, exists)` pairs. */
  datatype Option<+T> = None | Some(value: T) {
    function GetOr(default: T): T {
      match this
      case Some(v) => v
      case None => default
    }
  }

  /** A value or an error, used for Go's `(value, error)` pairs. */
  datatype Result<+T, +E> = Ok(value: T) | Err(error: E)

  /** The unsigned 8-bit values Go calls `byte`. */
  newtype byte = x: int | 0 <= x < 256
}
