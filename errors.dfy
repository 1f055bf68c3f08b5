// The error codes of the two implementations.

/** The C `Error` enum; `Ok` is the success code. */
module ErrorC {
  datatype Error = Ok | CrcNotEnoughData | HeaderNotEnoughData | Read | Write | NusUsb
}

/** The Rust `Error` enum and the `Result` it is carried in. */
module ErrorRs {
  datatype Error =
    | CrcNotEnoughData
    | HeaderNotEnoughData
    | ReadError
    | WriteError
    | TryFromSliceError
    | FromUtf8Error

  datatype Result<+T> = Ok(value: T) | Err(error: Error)
}
