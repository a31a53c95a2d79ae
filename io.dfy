/** `std::io::Result` as the service and the client helpers use it, plus the
    one outcome Rust adds on top: a panic (an `unwrap` on a failed decode). */
module Io {
  import opened Wire

  datatype ErrorKind = Other | BrokenPipe | InvalidInput

  /** `io::Error::new(kind, message)`; `Display` shows the message. */
  datatype IoError = IoError(kind: ErrorKind, message: seq<byte>)

  datatype Result<+T> = Ok(value: T) | Err(error: IoError)

  /** A call either returns its `io::Result` or panics. */
  datatype Outcome<+T> = Returned(result: Result<T>) | Panicked
}
