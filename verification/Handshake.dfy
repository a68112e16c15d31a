/** The closing handshake (RFC 6455, section 7.1.2), from the end that starts it. */
module Handshake {
  import opened Wrappers
  import opened Frame
  import Close
  import FrameReader
  import MsgReader
  import MsgWriter

  /** CloseStatus(err) == code. */
  predicate HasStatus(e: Error, code: int) {
    e.CloseReceived? && e.status == code
  }

  /** One end of a connection: what it writes and what it reads are kept apart. */
  ghost predicate Together(w: MsgWriter.MsgWriter, r: MsgReader.MsgReader)
    reads w, w.c, w.c.bw, w.c.bw.slab, w.c.bw.sink, r, r.c, r.c.br, r.c.br.source, r.c.br.buffer
  {
    w.Valid() && r.Valid() && w.c.bw.slab !in {r.c.br.buffer, r.c.headerBuf, r.c.controlBuf}
  }

  /**
   writeClose: the status and reason in a close frame, unless they cannot travel. That the connection
   is closed, or a close frame has been sent before, is no error.
   */
  method WriteClose(w: MsgWriter.MsgWriter, code: int, reason: seq<bv8>) returns (e: Option<Error>)
    requires w.Valid()
    modifies w.c, w.c.bw, w.c.bw.slab, w.c.bw.sink
    ensures w.Valid()
    ensures
      var p := Close.ClosePayload(Close.CloseError(code, reason));
      if p.Err? then
        e.Some? && w.c.log == old(w.c.log)
      else
        && (!w.Trouble() ==> e.None? && w.c.closeSent)
        && (w.c.log == old(w.c.log) || w.Wrote(old(w.c.log), OP_CLOSE, p.value, None))
        && (!w.Trouble() && !old(w.c.closeSent) ==> w.Wrote(old(w.c.log), OP_CLOSE, p.value, None))
    ensures e != Some(NetworkClosed)
  {
    hide MsgWriter.MsgWriter.Valid;
    var p := Close.ClosePayload(Close.CloseError(code, reason));
    if p.Err? {
      return Some(p.error);
    }
    Close.CloseRoundTrip(Close.CloseError(code, reason));
    e := w.WriteControl(OP_CLOSE, p.value);
    if e == Some(NetworkClosed) {
      e := None;
    }
  }

  /** What the close frame behind n bytes of the reader's buffer says, if it is a whole and valid one. */
  ghost predicate PeerSays(r: MsgReader.MsgReader, code: int)
    requires r.c.br.Valid() && r.c.CloseBehind(r.payloadLength)
    reads r, r.c, r.c.br, r.c.br.source, r.c.br.buffer
  {
    var p := Close.ParseClosePayload(r.c.PayloadBehind(r.payloadLength));
    p.Ok? && p.value.code == code
  }

  /**
   closeHandshake: sends a close frame and waits for the peer's. It succeeds only with a close frame
   that carries the same status: one from the peer, received before or now, or what the transport
   reports as one. If nothing goes wrong with the sending and the peer's close frame is there, it
   succeeds if and only if that one is valid and has the same status.
   */
  method CloseHandshake(w: MsgWriter.MsgWriter, r: MsgReader.MsgReader, code: int, reason: seq<bv8>)
    returns (e: Option<Error>)
    requires Together(w, r)
    modifies w.c, w.c.bw, w.c.bw.slab, w.c.bw.sink
    modifies r`sound, r`track, r.c, r.c.br, r.c.br.source, r.c.br.buffer, r.c.headerBuf, r.c.controlBuf
    ensures Together(w, r)
    ensures Close.ClosePayload(Close.CloseError(code, reason)).Err? ==> e.Some? && w.c.log == old(w.c.log)
    ensures e.None? ==>
      exists ce: Error :: HasStatus(ce, code) && (r.c.closeReceived == Some(ce) || r.c.FromTransport(ce))
    ensures !w.Trouble() && Close.ClosePayload(Close.CloseError(code, reason)).Ok? ==>
      && w.c.closeSent
      && (old(r.c.CloseBehind(r.payloadLength)) ==> (e.None? <==> old(PeerSays(r, code))))
      && (old(r.c.closeReceived).Some? && r.payloadLength == 0 && r.c.calm ==>
            (e.None? <==> HasStatus(old(r.c.closeReceived).value, code)))
  {
    hide MsgWriter.MsgWriter.Valid, MsgReader.MsgReader.Valid;
    e := WriteClose(w, code, reason);
    if e.Some? {
      return;
    }
    var ce;
    ghost var starts, at;
    ce, starts, at := r.WaitCloseHandshake();
    if !HasStatus(ce, code) {
      e := Some(ce);
    }
  }
}
