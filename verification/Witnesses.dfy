/** Inputs on which the code does not do what one would expect of it. */
module Witnesses {
  import opened Wrappers
  import opened Frame
  import opened FrameStream
  import opened Messages
  import opened Seqs
  import BufioReader
  import Close
  import FrameReader
  import MsgReader

  /**
   An error overtakes a byte: the transport delivers two bytes together with an error; after a read
   of one byte, a read into an empty slice reports the error with the second byte unread, and the
   error is gone.
   */
  method ErrorBeforeByte(x: bv8, y: bv8, err: Error)
    returns (n: nat, got: bv8, e: Option<Error>, unread: nat, after: Option<Error>)
    ensures n == 1 && got == x && e == Some(err) && unread == 1 && after.None?
  {
    hide *;
    var br := TwoBytesAndError(x, y, err);
    n, got := ReadOne(br, x, y, err);
    e, unread, after := ReadNone(br);
  }

  method TwoBytesAndError(x: bv8, y: bv8, err: Error) returns (br: BufioReader.Reader<bv8>)
    ensures br.Valid() && br.Buffered() == 0 && br.err.None? && br.Pos() == 0 && br.buffer.Length == 16
    ensures br.source.data == [x, y] && br.source.script == [BufioReader.Step(2, Some(err))]
    ensures fresh(br) && fresh(br.source) && fresh(br.buffer)
  {
    var source := new BufioReader.Source([x, y], [BufioReader.Step(2, Some(err))]);
    var buffer := new bv8[16];
    br := new BufioReader.Reader(source, buffer);
  }

  method ReadOne(br: BufioReader.Reader<bv8>, x: bv8, y: bv8, err: Error) returns (n: nat, got: bv8)
    requires br.Valid() && br.Buffered() == 0 && br.err.None? && br.Pos() == 0 && br.buffer.Length == 16
    requires br.source.data == [x, y] && br.source.script == [BufioReader.Step(2, Some(err))]
    modifies br, br.source, br.buffer
    ensures n == 1 && got == x && br.Valid() && br.Buffered() == 1 && br.err == Some(err)
  {
    TwoArrive(br);
    hide BufioReader.Reader.Valid;
    var p := new bv8[1];
    var first;
    n, first := br.Read(p, 0, 1);
    got := p[0..1][0];
    assert br.source.data[0..1] == [x];
  }

  lemma TwoArrive(br: BufioReader.Reader<bv8>)
    requires br.Valid() && br.Buffered() == 0 && br.Pos() == 0 && br.buffer.Length == 16 && |br.source.data| == 2
    requires |br.source.script| == 1 && br.source.script[0].limit == 2
    ensures br.Decisive() && br.Arriving() == 2
  {
  }

  method ReadNone(br: BufioReader.Reader<bv8>) returns (e: Option<Error>, unread: nat, after: Option<Error>)
    requires br.Valid() && br.Buffered() == 1 && br.err.Some?
    modifies br, br.source, br.buffer
    ensures e == old(br.err) && unread == 1 && after.None?
  {
    hide BufioReader.Reader.Valid;
    var none := new bv8[0];
    var n;
    n, e := br.Read(none, 0, 0);
    unread, after := br.Buffered(), br.err;
  }

  /** An unmasked final data frame. */
  predicate Plain(f: Frame) {
    f.Valid() && f.h.fin && !f.h.rsv1 && !f.h.rsv2 && !f.h.rsv3 && !f.h.masked && f.h.opcode in {OP_TEXT, OP_BINARY}
  }

  /** A buffered reader that has taken in all of the stream. */
  method Filled(data: seq<bv8>) returns (br: BufioReader.Reader<bv8>)
    requires data != []
    ensures br.Valid() && br.Buffered() == |data| && br.Pos() == 0 && br.Ended() && br.source.data == data
    ensures fresh(br) && fresh(br.source) && fresh(br.buffer)
  {
    hide BufioReader.Source.Valid, BufioReader.Reader.Valid, BufioReader.Reader.Pos;
    var source := new BufioReader.Source(data, [BufioReader.Step(|data|, None)]);
    var buffer := new bv8[|data|];
    br := new BufioReader.Reader(source, buffer);
    AllArrives(br);
    br.FillBuffer();
  }

  lemma AllArrives(br: BufioReader.Reader<bv8>)
    requires br.Valid() && br.Buffered() == 0 && br.Pos() == 0 && br.buffer.Length == |br.source.data| > 0
    requires br.source.script == [BufioReader.Step(|br.source.data|, None)]
    ensures br.Decisive() && br.Arriving() == |br.source.data|
  {
  }

  /** A client's reader in step with a stream that is in its buffer, with nothing else in its way. */
  ghost predicate AtStart(r: MsgReader.MsgReader, data: seq<bv8>)
    reads r, r.c, r.c.br, r.c.br.source, r.c.br.buffer
  {
    && r.c.Valid() && r.Valid() && r.Limited() && r.sound && r.fin && r.payloadLength == 0 && !r.reading
    && r.c.client && !r.c.deflate && r.c.calm && r.c.closeReceived.None? && r.c.Data() == data && r.c.Pos() == 0
    && r.c.br.Buffered() == |data| && r.c.br.Ended()
  }

  /** Frames as a server sends them. */
  ghost predicate Unmasked(fs: seq<Frame>) {
    forall i :: 0 <= i < |fs| ==> fs[i].Valid() && !fs[i].h.masked
  }

  method Opened(data: seq<bv8>, ghost fs: seq<Frame>) returns (r: MsgReader.MsgReader)
    requires data != [] && Unmasked(fs) && data <= EncodeFrames(fs)
    ensures AtStart(r, data)
    ensures fresh(r) && fresh(r.c) && fresh(r.c.br) && fresh(r.c.br.source) && fresh(r.c.br.buffer)
    ensures fresh(r.c.headerBuf) && fresh(r.c.controlBuf)
  {
    NotMasked(fs, data);
    hide *;
    var br := Filled(data);
    var c := Connect(br, data);
    r := Attach(c, data);
  }

  method Connect(br: BufioReader.Reader<bv8>, data: seq<bv8>) returns (c: FrameReader.Conn)
    requires br.Valid()
    ensures c.Valid() && c.br == br && c.client && !c.deflate && c.calm && c.closeReceived.None?
    ensures c.Pos() == br.Pos() && c.Data() == br.source.data
    ensures fresh(c) && fresh(c.headerBuf) && fresh(c.controlBuf)
  {
    hide *;
    c := new FrameReader.Conn(true, false, true, br);
  }

  method Attach(c: FrameReader.Conn, data: seq<bv8>) returns (r: MsgReader.MsgReader)
    requires c.Valid() && c.client && !c.deflate && c.calm && c.closeReceived.None?
    requires c.Data() == data && c.Pos() == 0 && MsgReader.PeerMasksRight(c.client, data)
    requires c.br.Valid() && c.br.Buffered() == |data| && c.br.Ended()
    ensures AtStart(r, data) && r.c == c && fresh(r)
  {
    hide MsgReader.MsgReader.Valid, MsgReader.PeerMasksRight, FrameReader.Conn.Valid;
    hide FrameReader.Conn.Pos, FrameReader.Conn.Data;
    hide BufioReader.Reader.Valid, BufioReader.Reader.Ended;
    r := new MsgReader.MsgReader(c);
  }

  lemma NotMasked(fs: seq<Frame>, data: seq<bv8>)
    requires Unmasked(fs) && data <= EncodeFrames(fs)
    ensures MsgReader.PeerMasksRight(true, data)
  {
    hide EncodeFrames, FirstFrames;
    forall k: nat | FirstFrames(data, k).Some?
      ensures MsgReader.NoneMasked(FirstFrames(data, k).value.frames)
    {
      FramesOfPrefix(data, fs, k);
    }
  }

  lemma JustOne(f: Frame)
    ensures EncodeFrames([f]) == EncodeFrame(f)
  {
    hide EncodeFrame;
    assert EncodeFrames([f]) == EncodeFrame(f) + EncodeFrames([]) == EncodeFrame(f);
  }

  lemma AtMostOne(f: Frame, data: seq<bv8>, k: nat)
    requires Plain(f) && data <= EncodeFrame(f) && FirstFrames(data, k).Some?
    ensures k <= 1 && FirstFrames(data, k) == Some(if k == 0 then Prefix([], 0) else Prefix([f], |EncodeFrame(f)|))
  {
    hide EncodeFrame, FirstFrames;
    JustOne(f);
    FramesOfPrefix(data, [f], k);
    assert [f][..1] == [f];
  }

  /** What stands at the front of a buffered stream of one written frame, or of its beginning. */
  lemma HeaderAhead(r: MsgReader.MsgReader, data: seq<bv8>, f: Frame)
    requires AtStart(r, data) && Plain(f) && EncodeHeader(f.h) <= data
    ensures r.c.DataAhead() && ParseHeader(r.c.Ahead()) == Parsed(f.h, |EncodeHeader(f.h)|)
  {
    hide ParseHeader, EncodeHeader, MsgReader.MsgReader.Valid;
    var rest := data[|EncodeHeader(f.h)|..];
    HeaderRoundTrip(f.h, rest);
    assert EncodeHeader(f.h) + rest == data == r.c.Ahead();
  }

  /** Behind the header of a message's only frame, the rest of the stream in the buffer. */
  ghost predicate Begun(r: MsgReader.MsgReader, data: seq<bv8>, f: Frame)
    reads r, r.c, r.c.br, r.c.br.source, r.c.br.buffer
  {
    && r.c.Valid() && r.Valid() && r.Limited() && r.sound && r.reading && r.TakesOver(f.h) && r.limitLeft < 0
    && r.c.client && !r.c.deflate && r.c.calm && r.c.closeReceived.None? && r.c.Data() == data
    && r.c.Pos() == |EncodeHeader(f.h)| && r.c.br.Buffered() == |data| - |EncodeHeader(f.h)| && r.c.br.Ended()
  }

  method BeginOnly(data: seq<bv8>, f: Frame) returns (r: MsgReader.MsgReader)
    requires data != [] && Plain(f) && EncodeHeader(f.h) <= data <= EncodeFrame(f)
    ensures Begun(r, data, f)
    ensures fresh(r) && fresh(r.c) && fresh(r.c.br) && fresh(r.c.br.source) && fresh(r.c.br.buffer)
    ensures fresh(r.c.headerBuf) && fresh(r.c.controlBuf)
  {
    hide EncodeHeader, EncodeFrame, ParseHeader, MsgReader.MsgReader.Valid, FrameReader.Conn.Valid;
    hide FrameReader.Conn.DataAhead;
    JustOne(f);
    r := Opened(data, [f]);
    HeaderAhead(r, data, f);
    r.SetReadLimit(-1);
    var _, _ := r.Reader();
    r.AheadIsNat();
  }

  /**
   io.EOF for a message that is not complete: the stream ends inside the payload of a message's
   only frame, and the read after its last byte reports io.EOF, whichever frame it is and
   wherever it is cut.
   */
  method TruncatedLooksComplete(f: Frame, j: nat) returns (n: nat, e: Option<Error>, ghost complete: bool)
    requires Plain(f) && 0 < j < |f.payload|
    ensures n == j && e == Some(EOF) && !complete
  {
    var data := EncodeHeader(f.h) + f.payload[..j];
    CutInPayload(f, j, data);
    hide *;
    var r := BeginOnly(data, f);
    n := ReadWhatCame(r, data, f, j);
    e, complete := ReadOn(r, data, f);
  }

  /** The reader has returned everything that came. */
  ghost predicate UsedUp(r: MsgReader.MsgReader, data: seq<bv8>)
    reads r, r.c, r.c.br, r.c.br.source, r.c.br.buffer
  {
    && r.c.Valid() && r.Valid() && r.Limited() && r.sound && r.reading && r.limitLeft < 0
    && r.c.Data() == data && r.c.Pos() == |data| && r.AtEnd()
  }

  method ReadWhatCame(r: MsgReader.MsgReader, data: seq<bv8>, f: Frame, j: nat) returns (n: nat)
    requires Begun(r, data, f) && 0 < j < |f.payload| == f.h.payloadLength && |data| == |EncodeHeader(f.h)| + j
    modifies r, r.c, r.c.br, r.c.br.source, r.c.br.buffer, r.c.headerBuf, r.c.controlBuf
    ensures UsedUp(r, data) && n == j
  {
    hide EncodeHeader, MsgReader.MsgReader.Aligned, MsgReader.MsgReader.InFrame, MsgReader.PeerMasksRight;
    hide FrameReader.Conn.Valid;
    var p := new bv8[j];
    var e;
    ghost var complete, cause;
    n, e, complete, cause := r.Read(p, 0, j);
  }

  method ReadOn(r: MsgReader.MsgReader, data: seq<bv8>, f: Frame) returns (e: Option<Error>, ghost complete: bool)
    requires UsedUp(r, data) && Plain(f) && |data| > 0 && data <= EncodeFrame(f) && |data| < |EncodeFrame(f)|
    modifies r, r.c, r.c.br, r.c.br.source, r.c.br.buffer, r.c.headerBuf, r.c.controlBuf
    ensures e == Some(EOF) && !complete
  {
    hide EncodeFrame, Plain, MsgReader.MsgReader.Valid, FrameReader.Conn.Valid, FirstFrames, Assemble;
    StillUnfinished(r, data, f);
    var p := new bv8[1];
    var n;
    ghost var cause;
    n, e, complete, cause := r.Read(p, 0, 1);
  }

  lemma CutInPayload(f: Frame, j: nat, data: seq<bv8>)
    requires Plain(f) && 0 < j < |f.payload| && data == EncodeHeader(f.h) + f.payload[..j]
    ensures data != [] && EncodeHeader(f.h) <= data <= EncodeFrame(f) && |data| < |EncodeFrame(f)|
  {
    hide EncodeHeader;
    assert EncodeFrame(f) == data + f.payload[j..];
  }

  /** A reader at the end of a stream that holds no whole frame is in the middle of one. */
  lemma StillUnfinished(r: MsgReader.MsgReader, data: seq<bv8>, f: Frame)
    requires r.Valid() && r.sound && r.c.Data() == data && r.c.Pos() == |data| > 0
    requires Plain(f) && data <= EncodeFrame(f) && |data| < |EncodeFrame(f)|
    ensures r.Unfinished()
  {
    hide EncodeFrame, FirstFrames, Assemble, MsgReader.PeerMasksRight;
    if r.payloadLength == 0 {
      AtMostOne(f, data, r.frames);
      assert false;
    }
  }

  /**
   A message that was never sent: a message of one frame, whose payload happens to be a frame, is
   abandoned unread. The next call of Conn.reader starts inside that payload, which is no frame
   boundary, and returns the frame found there as the next message, for any two such frames.
   */
  method AbandonedPayloadIsParsed(outer: Frame, inner: Frame) returns (start: nat, opcode: bv8, e: Option<Error>)
    requires Plain(outer) && Plain(inner) && outer.payload == EncodeFrame(inner)
    ensures start == |EncodeHeader(outer.h)| && !OnBoundary(EncodeFrame(outer), start)
    ensures e.None? && opcode == inner.h.opcode
    ensures Assemble([outer]) == Assembly([Message(outer.h.opcode, false, outer.payload)], None)
  {
    OneMessage(outer);
    var data := EncodeFrame(outer);
    assert EncodeHeader(outer.h) <= data <= EncodeFrame(outer) && data != [];
    hide *;
    var r := BeginOnly(data, outer);
    start := |EncodeHeader(outer.h)|;
    opcode, e := ReadNext(r, data, outer, inner);
  }

  method ReadNext(r: MsgReader.MsgReader, data: seq<bv8>, outer: Frame, inner: Frame)
    returns (opcode: bv8, e: Option<Error>)
    requires Begun(r, data, outer) && data == EncodeFrame(outer)
    requires Plain(outer) && Plain(inner) && outer.payload == EncodeFrame(inner)
    modifies r, r.c, r.c.br, r.c.br.source, r.c.br.buffer, r.c.headerBuf, r.c.controlBuf
    ensures !OnBoundary(data, |EncodeHeader(outer.h)|)
    ensures e.None? && opcode == inner.h.opcode
  {
    FrameInPayload(r, data, outer, inner);
    hide EncodeHeader, EncodeFrame, ParseHeader, MsgReader.MsgReader.Valid, FrameReader.Conn.Valid;
    hide FrameReader.Conn.DataAhead, OnBoundary, Plain;
    r.ParseStartsOnBoundary();
    opcode, e := r.Reader();
  }

  lemma OneMessage(f: Frame)
    requires Plain(f)
    ensures Assemble([f]) == Assembly([Message(f.h.opcode, false, f.payload)], None)
  {
    AssembleSnoc([], f);
    assert [] + [f] == [f];
  }

  lemma FrameInPayload(r: MsgReader.MsgReader, data: seq<bv8>, outer: Frame, inner: Frame)
    requires Begun(r, data, outer) && data == EncodeFrame(outer)
    requires Plain(outer) && Plain(inner) && outer.payload == EncodeFrame(inner)
    ensures r.c.DataAhead() && ParseHeader(r.c.Ahead()) == Parsed(inner.h, |EncodeHeader(inner.h)|)
    ensures r.payloadLength > 0 && r.fin && inner.h.opcode in {OP_TEXT, OP_BINARY}
  {
    hide ParseHeader, EncodeHeader, FirstFrames, Assemble, MsgReader.PeerMasksRight;
    assert r.c.Ahead() == data[|EncodeHeader(outer.h)|..] == EncodeFrame(inner);
    assert EncodeFrame(inner) == EncodeHeader(inner.h) + inner.payload;
    HeaderRoundTrip(inner.h, inner.payload);
    assert |EncodeHeader(inner.h)| >= 2 && r.payloadLength == |EncodeFrame(inner)|;
  }

  /** A buffered stream that starts with a whole header. */
  lemma WholeHeader(r: MsgReader.MsgReader, data: seq<bv8>, h: Header)
    requires r.c.Valid() && h.Valid() && EncodeHeader(h) <= data
    requires r.c.Data()[r.c.Pos()..] == data && r.c.br.Buffered() == |data|
    requires r.c.calm && r.c.closeReceived.None?
    ensures r.c.Ahead() == data && r.c.HeaderAhead() && ParseHeader(r.c.Ahead()) == Parsed(h, |EncodeHeader(h)|)
  {
    hide ParseHeader, EncodeHeader;
    var rest := data[|EncodeHeader(h)|..];
    HeaderRoundTrip(h, rest);
    assert EncodeHeader(h) + rest == data == r.c.Ahead();
  }

  /**
   A refused frame's payload taken for frames: whatever is wrong with a frame's header, if its payload
   begins with a frame, then after the refusal the next call of Conn.reader starts inside that
   payload, at no frame boundary, and returns the frame found there.
   */
  method RefusedPayloadIsParsed(bad: Frame, inner: Frame)
    returns (first: Option<Error>, start: nat, opcode: bv8, e: Option<Error>)
    requires bad.Valid() && !bad.h.masked && FrameReader.BadHeader(bad.h, true, false)
    requires Plain(inner) && EncodeFrame(inner) <= bad.payload
    ensures first == Some(ProtocolViolation)
    ensures start == |EncodeHeader(bad.h)| && !OnBoundary(EncodeFrame(bad), start)
    ensures e.None? && opcode == inner.h.opcode
  {
    var data := EncodeFrame(bad);
    JustOne(bad);
    RefusedFrame(bad, inner);
    hide *;
    var r := Opened(data, [bad]);
    start := |EncodeHeader(bad.h)|;
    first := ReadRefused(r, data, bad);
    opcode, e := ReadBehind(r, bad.payload, inner);
  }

  lemma RefusedFrame(bad: Frame, inner: Frame)
    requires bad.Valid() && !bad.h.masked && Plain(inner) && EncodeFrame(inner) <= bad.payload
    ensures EncodeFrame(bad) == EncodeHeader(bad.h) + bad.payload != []
    ensures Unmasked([bad]) && EncodeFrame(bad) <= EncodeFrames([bad])
    ensures !OnBoundary(EncodeFrame(bad), |EncodeHeader(bad.h)|)
  {
    hide ParseHeader, EncodeHeader, FirstFrames;
    JustOne(bad);
    HeaderRoundTrip(inner.h, inner.payload);
    HeaderRoundTrip(bad.h, bad.payload);
    var data, n := EncodeFrame(bad), |EncodeHeader(bad.h)|;
    assert data[0..] == EncodeHeader(bad.h) + bad.payload;
    NoFrames(data);
    assert IsBoundary(data, 0, 0);
    FrameReader.NoBoundaryBehind(data, 0, 0, bad.h, n, n);
  }

  /** A client's reader between messages, with the rest of the stream in the buffer. */
  ghost predicate Between(r: MsgReader.MsgReader, rest: seq<bv8>)
    reads r, r.c, r.c.br, r.c.br.source, r.c.br.buffer
  {
    && r.c.Valid() && r.Valid() && r.Limited() && r.fin && r.c.client && !r.c.deflate && r.c.calm
    && r.c.Pos() <= |r.c.Data()| && r.c.Data()[r.c.Pos()..] == rest && r.c.br.Buffered() == |rest|
  }

  method ReadRefused(r: MsgReader.MsgReader, data: seq<bv8>, bad: Frame) returns (e: Option<Error>)
    requires AtStart(r, data) && bad.h.Valid() && data == EncodeHeader(bad.h) + bad.payload
    requires FrameReader.BadHeader(bad.h, true, false)
    modifies r, r.c, r.c.br, r.c.br.source, r.c.br.buffer, r.c.headerBuf, r.c.controlBuf
    ensures e == Some(ProtocolViolation) && Between(r, bad.payload) && r.c.closeReceived.None?
  {
    hide EncodeHeader, ParseHeader, FrameReader.BadHeader, MsgReader.MsgReader.Valid, FrameReader.Conn.Valid;
    assert data[0..] == data && EncodeHeader(bad.h) <= data;
    WholeHeader(r, data, bad.h);
    var _, re := r.Reader();
    e := re;
    r.AheadIsNat();
    assert data[|EncodeHeader(bad.h)|..] == bad.payload;
  }

  method ReadBehind(r: MsgReader.MsgReader, rest: seq<bv8>, inner: Frame) returns (opcode: bv8, e: Option<Error>)
    requires Between(r, rest) && r.c.closeReceived.None? && Plain(inner) && EncodeFrame(inner) <= rest
    modifies r, r.c, r.c.br, r.c.br.source, r.c.br.buffer, r.c.headerBuf, r.c.controlBuf
    ensures e.None? && opcode == inner.h.opcode
  {
    assert EncodeHeader(inner.h) <= EncodeFrame(inner) <= rest;
    hide EncodeHeader, EncodeFrame, ParseHeader, MsgReader.MsgReader.Valid, FrameReader.Conn.Valid;
    WholeHeader(r, rest, inner.h);
    opcode, e := r.Reader();
  }

  /**
   Reading after a close frame: for every payload a close frame can have, another call of Conn.reader
   goes on behind it and returns the next message if and only if that payload is malformed.
   */
  method CloseEndsReading(payload: seq<bv8>, next: Frame)
    returns (first: Option<Error>, opcode: bv8, e: Option<Error>)
    requires |payload| <= MAX_CONTROL_PAYLOAD && Plain(next)
    ensures first.Some?
    ensures e.None? <==> Close.ParseClosePayload(payload).Err?
    ensures e.None? ==> first == Some(ProtocolViolation) && opcode == next.h.opcode
  {
    var f := Frame(Header(true, false, false, false, OP_CLOSE, |payload|, false, NoKey()), payload);
    var rest := EncodeFrame(next);
    var data := EncodeHeader(f.h) + payload + rest;
    CloseThenMore(f, next, data);
    hide *;
    var r := Opened(data, [f, next]);
    first := ReadClose(r, data, f, rest);
    opcode, e := ReadOnAfter(r, rest, next);
  }

  lemma CloseThenMore(f: Frame, next: Frame, data: seq<bv8>)
    requires f.h == Header(true, false, false, false, OP_CLOSE, |f.payload|, false, NoKey())
    requires |f.payload| <= MAX_CONTROL_PAYLOAD && Plain(next)
    requires data == EncodeHeader(f.h) + f.payload + EncodeFrame(next)
    ensures data != [] && Unmasked([f, next]) && data <= EncodeFrames([f, next]) && f.h.Valid()
    ensures !FrameReader.BadHeader(f.h, true, false)
  {
    JustOne(next);
    hide EncodeHeader;
    assert [f, next][1..] == [next];
    HeaderRoundTrip(f.h, f.payload);
    assert EncodeFrames([f, next]) == EncodeFrame(f) + EncodeFrames([next]);
  }

  method ReadClose(r: MsgReader.MsgReader, data: seq<bv8>, f: Frame, rest: seq<bv8>) returns (e: Option<Error>)
    requires AtStart(r, data) && f.h.Valid() && f.h.opcode == OP_CLOSE && !f.h.masked
    requires |f.payload| == f.h.payloadLength && data == EncodeHeader(f.h) + f.payload + rest
    requires !FrameReader.BadHeader(f.h, true, false)
    modifies r, r.c, r.c.br, r.c.br.source, r.c.br.buffer, r.c.headerBuf, r.c.controlBuf
    ensures e.Some? && Between(r, rest)
    ensures r.c.closeReceived.Some? <==> Close.ParseClosePayload(f.payload).Ok?
    ensures r.c.closeReceived.None? ==> e == Some(ProtocolViolation)
  {
    hide EncodeHeader, ParseHeader, FrameReader.BadHeader, MsgReader.MsgReader.Valid, FrameReader.Conn.Valid;
    var n := |EncodeHeader(f.h)|;
    assert data[0..] == data && EncodeHeader(f.h) <= data && data[n..n + |f.payload|] == f.payload;
    WholeHeader(r, data, f.h);
    var _, re := r.Reader();
    e := re;
    r.AheadIsNat();
    assert data[n + |f.payload|..] == rest;
  }

  method ReadOnAfter(r: MsgReader.MsgReader, rest: seq<bv8>, next: Frame) returns (opcode: bv8, e: Option<Error>)
    requires Between(r, rest) && Plain(next) && rest == EncodeFrame(next)
    modifies r, r.c, r.c.br, r.c.br.source, r.c.br.buffer, r.c.headerBuf, r.c.controlBuf
    ensures e.None? <==> old(r.c.closeReceived).None?
    ensures e.None? ==> opcode == next.h.opcode
  {
    hide EncodeFrame, Plain;
    if r.c.closeReceived.None? {
      opcode, e := ReadBehind(r, rest, next);
    } else {
      opcode, e := r.Reader();
    }
  }
}
