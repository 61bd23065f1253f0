/** Failure-compatible wrappers: a nullable reference becomes an Option, a call that may
    throw becomes a Result whose Failure carries the exception. */
module Wrappers {

  datatype Option<+T> = None | Some(value: T) {
    function GetOr(default: T): T {
      match this
      case Some(v) => v
      case None => default
    }
  }

  datatype Result<+R, +E> = Success(value: R) | Failure(error: E)
}
