/** Failure-carrying values shared by every module of the client. */
module Wrappers {

  datatype Option<+T> = None | Some(value: T)

  /** A value, or the exception the Python client would raise instead of returning it. */
  datatype Result<+T> = Ok(value: T) | Err(error: Error)

  /** The exceptions the client raises and propagates to its caller. */
  datatype Error =
    | NotConnected     // SerialException: the serial port is not connected
    | PortFailure      // an I/O error raised by the serial port itself
    | PasswordLength   // ValueError: the PC password does not have 4 characters
    | PasswordNotHex   // ValueError: the PC password is not made of hex digits
    | ByteRange        // ValueError: a bytearray element outside 0..255
    | TypeMismatch     // TypeError: a bytearray element that is a string, not an int
    | BufferIndex      // IndexError: a bytearray index past the end of the buffer
    | ZeroStep         // ValueError: range() was given a step of zero
}
