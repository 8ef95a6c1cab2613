/** Failure-carrying datatypes shared by every module of the model.
    Each `Error` constructor stands for the Python exception the source raises. */
module Errors {

  /** Python's `None` / value pair. */
  datatype Option<T> = None | Some(value: T) {
    /** The value, or `default` when absent. */
    function GetOr(default: T): T
    {
      match this
      case Some(v) => v
      case None => default
    }
  }

  /** The message-carrying `RuntimeError`s of the source, told apart by what raised them. */
  datatype RuntimeReason =
    | BrokenOnRead               // "socket connection broken on read"
    | BrokenOnWrite              // "socket connection broken on write"
    | Desynchronized             // "Spectrometer is desynchronized. Should disconnect"
    | MonitoringAlreadyRunning   // "Monitoring loop already running"
    | NoMonitoringLoop           // "No monitoring loop running"

  datatype Error =
    | ReadTimeout                // CommunicationReadTimeout
    | NoMatch                    // CommunicationReadNoMatch
    | AlternateMatch             // CommunicationReadAlternateMatch
    | PlainException             // a bare `Exception()`
    | IOError
    | RuntimeError(reason: RuntimeReason)
    | AttributeError             // an attribute looked up on `None` or on an object lacking it
    | TypeError
    | IndexError
    | ValueError
    | OverflowError              // a value outside 0..255 handed to a USB write
    | KeyError
    | StructError                // struct.error from `pack`
    | AssertionError
    | NotImplementedError
    | UnboundLocalError
    | UnicodeDecodeError
    | UsbError                   // any pyusb transfer failure, timeouts included
    | ConnectionError            // socket.connect failure
    | UnableToCommunicate
    | UnableToInitialize
    | NoSpectrometerConnected

  /** A value, or the exception raised instead. */
  datatype Result<T> = Ok(value: T) | Err(error: Error)
}
