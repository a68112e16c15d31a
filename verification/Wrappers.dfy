/** Optional values and the errors that pass between the layers. */
module Wrappers {
  datatype Option<+T> = None | Some(value: T) {
    function GetOr(default: T): T {
      if Some? then value else default
    }
  }

  /**
   The distinctions callers make among errors. IO is whatever the transport reports.
   */
  datatype Error =
    | IO(code: int)
    | EOF
    | UnexpectedEOF
    | ShortWrite
    | NoProgress
    | BufferFull
    | NegativeCount
    | NetworkClosed
    | ProtocolViolation
    | MessageTooBig
    | CloseReceived(status: int, reason: seq<bv8>)
    | WriterClosed
    | Lock
}
