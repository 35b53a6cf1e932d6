/** The error enum of the crate and its severity mapping (src/lib.rs:20-36, 92-96). */
module Errors {

  /** The stream error a message codec reports. The model does not look
      inside it: the core only passes it on. */
  datatype IoFailure = UnexpectedEof | InvalidData | Other(code: nat)

  /** `DatagramChunkerError`: an item that can never fit, or a codec failure
      carried unchanged (the `From<io::Error>` conversion is `IoError`). */
  datatype DatagramChunkerError = ItemSizeTooBig | IoError(cause: IoFailure)

  /** The severities of `err_rs` that this crate produces. */
  datatype ErrorLevel = Info | Critical

  /** `error_level`: an oversized item is a configuration mismatch and is
      critical; a codec failure is informational. */
  function Level(e: DatagramChunkerError): (level: ErrorLevel)
    ensures level == Critical <==> e == ItemSizeTooBig
    ensures level == Info <==> exists cause :: e == IoError(cause)
  {
    match e
    case ItemSizeTooBig => Critical
    case IoError(_) => Info
  }
}
