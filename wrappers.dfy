/** Option and Result values standing in for JavaScript's null and thrown errors. */
module Wrappers {

  datatype Option<+T> = None | Some(value: T) {
    function GetOr(default: T): T {
      match this
      case Some(v) => v
      case None => default
    }
  }

  /** A JavaScript `Error`, identified by its message. */
  datatype Error = Error(message: string)

  /** The text `${error}` gives for an `Error`. */
  function ErrorText(e: Error): string {
    "Error: " + e.message
  }

  /** Either a value or what was thrown (or reported) instead. */
  datatype Result<+T, +E> = Ok(value: T) | Err(error: E)
}
