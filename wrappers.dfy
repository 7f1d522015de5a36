/** Option and Result types for the error returns of the Go and TypeScript code. */
module Wrappers {

  datatype Option<+T> = None | Some(value: T)
  {
    function GetOr(default: T): T
    {
      match this
      case Some(v) => v
      case None => default
    }
  }

  /** A Go `(T, error)` pair: either a value or the error's message text. */
  datatype Result<+T> = Ok(value: T) | Err(msg: string)
}
