/** Failure-compatible wrappers used throughout the model: an optional value
    (Ruby's `nil` is `None`) and the outcome of a call that may raise. */
module Wrappers {

  datatype Option<+T> = None | Some(value: T) {
    function GetOr(default: T): T {
      match this
      case Some(v) => v
      case None => default
    }
  }

  /** `Raise(e)` is a Ruby exception escaping the call; `Ok(v)` its return value. */
  datatype Result<+T, +E> = Ok(value: T) | Raise(error: E) {
    predicate IsFailure() {
      Raise?
    }
  }
}
