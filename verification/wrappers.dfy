/** Option and Result, shared by the other modules. */
module Wrappers {

  /** A value that may be absent (Go's `value, ok` pairs and nil results). */
  datatype Option<+T> = None | Some(value: T) {
    function GetOr(default: T): T {
      match this
      case Some(v) => v
      case None => default
    }
  }

  /** Either a value or an error (Go's `value, err` pairs). */
  datatype Result<+R, +E> = Success(value: R) | Failure(error: E)
}
