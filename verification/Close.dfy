/** Close frame payloads (RFC 6455, sections 5.5.1 and 7.4). */
module Close {
  import opened Wrappers
  import opened Bytes
  import opened Frame

  const STATUS_NORMAL_CLOSURE := 1000
  const STATUS_RESERVED := 1004
  const STATUS_NO_STATUS_RCVD := 1005
  const STATUS_ABNORMAL_CLOSURE := 1006
  const STATUS_BAD_GATEWAY := 1014
  const STATUS_TLS_HANDSHAKE := 1015
  const MAX_CLOSE_REASON: nat := MAX_CONTROL_PAYLOAD - 2

  datatype CloseError = CloseError(code: int, reason: seq<bv8>)

  datatype Result<+T> = Ok(value: T) | Err(error: Error)

  predicate ValidWireCloseCode(code: int) {
    if code in {STATUS_RESERVED, STATUS_NO_STATUS_RCVD, STATUS_ABNORMAL_CLOSURE, STATUS_TLS_HANDSHAKE} then false
    else STATUS_NORMAL_CLOSURE <= code <= STATUS_BAD_GATEWAY || 3000 <= code <= 4999
  }

  /** The status codes that may travel: 1000 to 1003, 1007 to 1014, and 3000 to 4999. */
  lemma WireCodes(code: int)
    ensures ValidWireCloseCode(code) <==> 1000 <= code <= 1003 || 1007 <= code <= 1014 || 3000 <= code <= 4999
  {
  }

  function ParseClosePayload(p: seq<bv8>): Result<CloseError> {
    if p == [] then Ok(CloseError(STATUS_NO_STATUS_RCVD, []))
    else if |p| < 2 then Err(ProtocolViolation)
    else
      var ce := CloseError(FromBigEndian(p[..2]), p[2..]);
      if ValidWireCloseCode(ce.code) then Ok(ce) else Err(ProtocolViolation)
  }

  function BytesErr(ce: CloseError): Result<seq<bv8>> {
    if |ce.reason| > MAX_CLOSE_REASON || !ValidWireCloseCode(ce.code) then Err(ProtocolViolation)
    else Ok(BigEndian(ce.code, 2) + ce.reason)
  }

  /** The payload of the close frame that writeClose sends; without a status there is none. */
  function ClosePayload(ce: CloseError): Result<seq<bv8>> {
    if ce.code == STATUS_NO_STATUS_RCVD then Ok([]) else BytesErr(ce)
  }

  lemma CodeRoundTrip(code: int)
    requires ValidWireCloseCode(code)
    ensures FromBigEndian(BigEndian(code, 2)) == code
  {
    EightBytes();
    BigEndianRoundTrip(code, 2);
  }

  /**
   What is sent fits a control frame, and the peer reads back the same code and reason, except
   that a reason given without a status is lost.
   */
  lemma CloseRoundTrip(ce: CloseError)
    requires ClosePayload(ce).Ok?
    ensures |ClosePayload(ce).value| <= 125
    ensures ParseClosePayload(ClosePayload(ce).value).Ok?
    ensures ParseClosePayload(ClosePayload(ce).value) == Ok(ce) <==> ce.code != 1005 || ce.reason == []
    ensures ce.code == 1005 <==> ClosePayload(ce).value == []
  {
    if ce.code != STATUS_NO_STATUS_RCVD {
      CodeRoundTrip(ce.code);
      var p := ClosePayload(ce).value;
      assert p[..2] == BigEndian(ce.code, 2) && p[2..] == ce.reason;
    }
  }

  /** What can be sent: no status at all, or a valid one with at most 123 bytes of reason. */
  lemma Sendable(ce: CloseError)
    ensures ClosePayload(ce).Ok? <==>
      ce.code == 1005
      || ((1000 <= ce.code <= 1003 || 1007 <= ce.code <= 1014 || 3000 <= ce.code <= 4999) && |ce.reason| <= 123)
  {
  }

  /** What is accepted: no payload, or two bytes of a valid status and any reason. */
  lemma Readable(p: seq<bv8>)
    ensures ParseClosePayload([]) == Ok(CloseError(1005, []))
    ensures p != [] ==>
      (ParseClosePayload(p).Ok? <==>
        |p| >= 2
        && (1000 <= FromBigEndian(p[..2]) <= 1003 || 1007 <= FromBigEndian(p[..2]) <= 1014
            || 3000 <= FromBigEndian(p[..2]) <= 4999))
  {
  }

  /** An accepted payload of a control frame is what sending its own content back would produce. */
  lemma CloseEcho(p: seq<bv8>)
    requires |p| <= MAX_CONTROL_PAYLOAD && ParseClosePayload(p).Ok?
    ensures ClosePayload(ParseClosePayload(p).value) == Ok(p)
  {
    hide FromBigEndian, BigEndian;
    if p != [] {
      BigEndianOfValue(p[..2]);
      assert p == p[..2] + p[2..];
    }
  }
}
