/** Option and Result, the two failure-carrying datatypes the model uses. */
module Wrappers {

  /** A value that may be absent (a DOM lookup that matched nothing). */
  datatype Option<+T> = None | Some(value: T) {

    /** The value when present, `default` otherwise (the `?? ''` idiom). */
    function GetOr(default: T): T {
      match this
      case Some(v) => v
      case None => default
    }
  }

  /** The result of an extraction step: a value, or the fault that stops the extraction. */
  datatype Result<+T, +E> = Success(value: T) | Failure(error: E)
}
