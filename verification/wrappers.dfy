/** The `Option` and `Result` datatypes used throughout the model. */
module Wrappers {

  /** An optional value: `None` plays the part of JavaScript's `undefined`. */
  datatype Option<+T> = None | Some(value: T) {

    /** The wrapped value, or `default` when there is none. */
    function GetOr(default: T): T {
      match this
      case Some(v) => v
      case None => default
    }
  }

  /** Either a value or an error; a thrown exception becomes a `Failure`. */
  datatype Result<+R, +E> = Success(value: R) | Failure(error: E)
}
