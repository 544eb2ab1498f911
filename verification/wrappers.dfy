/** Failure-carrying datatypes shared by the data source and the controller. */
module Wrappers {

  /** A value that may be absent; stands for TypeScript's `T | null`. */
  datatype Option<+T> = None | Some(value: T) {

    /** The value, or `default` when absent (TypeScript's `??`). */
    function GetOr(default: T): T {
      match this
      case Some(v) => v
      case None => default
    }
  }

  /** Either a value or the error that a thrown exception would carry. */
  datatype Result<+T, +E> = Success(value: T) | Failure(error: E)
}
