/** Option and Result types shared by every module of the model. */
module Outcome {

  datatype Option<+T> = None | Some(value: T) {
    function GetOr(default: T): T {
      match this
      case Some(v) => v
      case None => default
    }
  }

  /** A value or the exception the modelled C++ code throws instead. */
  datatype Result<+T, +E> = Ok(value: T) | Err(error: E)
}
