/** Options, results and the error values of src/error.rs. */
module Errors {

  /** The width-limited integers that appear in results and on the wire. */
  type byte = b: int | 0 <= b < 0x100

  datatype Option<+T> = None | Some(value: T)

  /** `crate::error::Result<T>`: usable with `:-`, which plays the part of Rust's `?`. */
  datatype Result<+T> = Ok(value: T) | Err(error: TrojanError) {
    predicate IsFailure() {
      Err?
    }

    function PropagateFailure<U>(): Result<U>
      requires Err?
    {
      Err(error)
    }

    function Extract(): T
      requires Ok?
    {
      value
    }
  }

  /** The variants of `TrojanError` that the modelled code can produce. */
  datatype TrojanError =
    | UnexpectedEof               // Io(e) with e.kind() == UnexpectedEof
    | WriteFailed                 // Io(e) raised by a write or a flush
    | ReceiveFailed               // Io(e) raised by recv_from
    | ConnectFailed               // Io(e) raised by connect
    | Protocol(fault: Fault)
    | AuthenticationFailed
    | InvalidAddressType(atyp: byte)
    | InvalidCommand(cmd: byte)
    | Timeout
    | InvalidUtf8
    | RemoteConnectFailed

  /** What a `TrojanError::Protocol(message)` complains about. */
  datatype Fault =
    | HashNotHex
    | NoCrlfAfterHash
    | NoCrlfAfterAddress
    | DomainLength
    | SocketFamily
    | UdpDomainLength
    | UdpCrlf
    | UdpPayloadLimit
    | VisionMagic(magic: byte)
    | VisionVersion(version: byte)
    | VisionHashNotHex
    | ClockBeforeEpoch
    | TimestampExpired
    | IntegrityMismatch
    | InvalidTransition
    | NotAuthenticated
    | MissingStream
}
