/** Option, Result and Outcome: the stand-ins for nullable references, for
    values that may come with an exception instead, and for calls that either
    return normally or throw. */
module Wrappers {

  datatype Option<+T> = None | Some(value: T) {
    function GetOr(default: T): T {
      match this
      case Some(v) => v
      case None => default
    }
  }

  datatype Result<+R, +E> = Success(value: R) | Failure(error: E)

  /** The completion of a void call: it returned (Pass) or threw (Fail). */
  datatype Outcome<+E> = Pass | Fail(error: E)
}
