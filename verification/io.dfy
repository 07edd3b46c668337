/** The error values both halves of the model produce: the kind and the text of a Rust
    `io::Error`, and the `io::Result` an operation returns. */
module Io {

  /** The `io::ErrorKind`s the modelled code produces. */
  datatype ErrorKind =
    | Other
    | InvalidData
    | UnexpectedEof
    | PermissionDenied
    | BrokenPipe

  datatype IoError = IoError(kind: ErrorKind, message: string)

  datatype Option<+T> = None | Some(value: T) {
    function GetOr(default: T): T {
      match this
      case Some(v) => v
      case None => default
    }
  }

  datatype Result<+T> = Ok(value: T) | Err(error: IoError)

  /** `to_other_error` and `io::Error::new(ErrorKind::Other, x)`: the same text under kind `Other`. */
  function ToOther(e: IoError): IoError {
    IoError(Other, e.message)
  }

  /** `io::Error::new(ErrorKind::PermissionDenied, x)`: the same text under kind `PermissionDenied`. */
  function ToDenied(e: IoError): IoError {
    IoError(PermissionDenied, e.message)
  }
}
