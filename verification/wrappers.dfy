/** Failure-compatible wrappers used throughout the model. */
module Wrappers {

  /** A value that may be absent: a failed lookup, a failed parse, a failed route resolution. */
  datatype Option<+T> = None | Some(value: T) {

    /** The wrapped value, or `default` when there is none. */
    function GetOr(default: T): (r: T)
      ensures Some? ==> r == value
      ensures None? ==> r == default
    {
      match this
      case Some(v) => v
      case None => default
    }
  }

  /** The outcome of a validation: it passes, or fails with an error message. */
  datatype Outcome<+E> = Pass | Fail(error: E)
}
