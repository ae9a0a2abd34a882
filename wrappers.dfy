/** Optional values and results with an error, shared by every module of the model. */
module Wrappers {

  /** A value that may be absent: JavaScript's `null`, a PHP key that is not set, an SQL row not found. */
  datatype Option<+T> = None | Some(value: T) {
    function GetOr(default: T): T {
      match this
      case Some(v) => v
      case None => default
    }
  }

  /** Either an accepted value or the error message the source reports instead. */
  datatype Result<+R, +E> = Success(value: R) | Failure(error: E)
}
