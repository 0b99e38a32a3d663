/** Option and Result values used throughout the model. */
module Wrappers {

  /** An optional value: the model's stand-in for a C# nullable reference or `Nullable<T>`. */
  datatype Option<+T> = None | Some(value: T) {

    /** The value, or `default` when absent (C# `x ?? default`). */
    function GetOr(default: T): T {
      match this
      case Some(v) => v
      case None => default
    }
  }

  /** A value or an error; used where the source throws. */
  datatype Result<+R, +E> = Success(value: R) | Failure(error: E)
}
