/** Failure-carrying datatypes shared by the registry model: the handlers of
    the server answer either with a value or with an error body, and these
    datatypes stand for that choice. */
module Wrappers {

  /** A value that may be absent (a missing field of a request body). */
  datatype Option<+T> = None | Some(value: T) {

    /** The carried value, or `default` when there is none. */
    function GetOr(default: T): T {
      match this
      case Some(v) => v
      case None => default
    }
  }

  /** Either a result or an error. */
  datatype Result<+R, +E> = Success(value: R) | Failure(error: E)

  /** A check that either passes or fails with an error. */
  datatype Outcome<+E> = Pass | Fail(error: E)
}
