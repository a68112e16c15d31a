/** One connection's frame reader: headers, payloads, control frames between data frames. */
module FrameReader {
  import opened Wrappers
  import opened Bytes
  import opened Mask
  import opened Frame
  import opened FrameStream
  import opened Messages
  import opened Seqs
  import BufioReader
  import Close

  /** A whole frame whose header stands at a boundary takes the stream to the next one. */
  lemma FrameHere(s: seq<bv8>, k: nat, start: nat, h: Header, n: nat)
    requires IsBoundary(s, k, start) && ParseHeader(s[start..]) == Parsed(h, n)
    requires start + n + h.payloadLength <= |s|
    ensures
      var from := start + n;
      var end := from + h.payloadLength;
      var f := Frame(h, WirePayload(h, s[from..end]));
      && IsBoundary(s, k + 1, end)
      && FirstFrames(s, k + 1).value.frames == FirstFrames(s, k).value.frames + [f]
      && Assemble(FirstFrames(s, k + 1).value.frames) == Feed(Assemble(FirstFrames(s, k).value.frames), f)
  {
    hide ParseFrame, ParseHeader, Feed, Assemble, WirePayload, FirstFrames;
    var from := start + n;
    var end := from + h.payloadLength;
    var f := Frame(h, WirePayload(h, s[from..end]));
    ParsedHere(s, start, h, n);
    OneMoreFrame(s, k, FirstFrames(s, k).value, f, n + h.payloadLength);
    AssembleSnoc(FirstFrames(s, k).value.frames, f);
  }

  lemma ParsedHere(s: seq<bv8>, start: nat, h: Header, n: nat)
    requires start <= |s| && ParseHeader(s[start..]) == Parsed(h, n)
    requires start + n + h.payloadLength <= |s|
    ensures ParseFrame(s[start..])
         == OneFrame(Frame(h, WirePayload(h, s[start + n..start + n + h.payloadLength])), n + h.payloadLength)
  {
    hide ParseHeader, WirePayload;
    assert s[start..][n..n + h.payloadLength] == s[start + n..start + n + h.payloadLength];
  }

  /** Behind the start of a frame and before its end there is no boundary, whether or not all of it has come. */
  lemma NoBoundaryBehind(s: seq<bv8>, k: nat, start: nat, h: Header, n: nat, pos: nat)
    requires IsBoundary(s, k, start) && ParseHeader(s[start..]) == Parsed(h, n)
    requires start < pos < start + n + h.payloadLength
    ensures !OnBoundary(s, pos)
  {
    hide FirstFrames, ParseHeader;
    if FirstFrames(s, k + 1).Some? {
      EndsBehind(s, k, start, h, n);
      NoBoundaryInside(s, k + 1, start + n + h.payloadLength, pos);
    } else {
      forall j: nat | IsBoundary(s, j, pos)
        ensures false
      {
        FirstFramesMonotone(s, if j <= k then j else k + 1, if j <= k then k else j);
      }
    }
  }

  lemma EndsBehind(s: seq<bv8>, k: nat, start: nat, h: Header, n: nat)
    requires IsBoundary(s, k, start) && ParseHeader(s[start..]) == Parsed(h, n) && FirstFrames(s, k + 1).Some?
    ensures IsBoundary(s, k + 1, start + n + h.payloadLength)
  {
    hide ParseHeader;
  }

  predicate DataOpcode(opcode: bv8) {
    opcode in {OP_CONTINUATION, OP_TEXT, OP_BINARY}
  }

  /** Reserved bits that may not be set, and compression where it may not appear. */
  predicate IllegalBits(h: Header, deflate: bool) {
    (h.rsv1 && !(deflate && (h.opcode == OP_TEXT || h.opcode == OP_BINARY))) || h.rsv2 || h.rsv3
  }

  /** A header that is refused whatever came before it. */
  predicate BadHeader(h: Header, client: bool, deflate: bool) {
    || IllegalBits(h, deflate) || (!client && !h.masked)
    || (!IsControl(h.opcode) && !DataOpcode(h.opcode))
    || (IsControl(h.opcode) && (h.payloadLength > MAX_CONTROL_PAYLOAD || !h.fin))
  }

  /**
   Which headers are refused (RFC 6455, sections 5.1, 5.2 and 5.5; RFC 7692, section 6): reserved bits,
   reserved opcodes, an unmasked frame at a server, a control frame that is fragmented or too long.
   */
  lemma BadHeaderIs(h: Header, client: bool, deflate: bool)
    requires h.opcode < 16
    ensures BadHeader(h, client, deflate) <==>
      || h.rsv2 || h.rsv3 || (h.rsv1 && !(deflate && 1 <= h.opcode <= 2))
      || 3 <= h.opcode <= 7 || h.opcode >= 11
      || (!client && !h.masked)
      || (h.opcode >= 8 && (!h.fin || h.payloadLength > 125))
  {
  }

  /** A close frame whose payload is no status and reason. */
  predicate BadClose(h: Header, payload: seq<bv8>) {
    h.opcode == OP_CLOSE && Close.ParseClosePayload(payload).Err?
  }

  /** At position start there is something to refuse, as far as the bytes show. */
  ghost predicate OffendsAt(s: seq<bv8>, start: nat, client: bool, deflate: bool) {
    && start <= |s|
    && match ParseHeader(s[start..])
       case Incomplete => false
       case NegativeLength => true
       case Parsed(h, n) =>
         || BadHeader(h, client, deflate)
         || (start + n + h.payloadLength <= |s|
             && BadClose(h, WirePayload(h, s[start + n..start + n + h.payloadLength])))
  }

  /** At the end of k frames there is a data frame that does not continue what they mean. */
  ghost predicate BreaksAt(s: seq<bv8>, k: nat, start: nat) {
    && start <= |s| && FirstFrames(s, k).Some? && ParseHeader(s[start..]).Parsed?
    && Feed(Assemble(FirstFrames(s, k).value.frames), Frame(ParseHeader(s[start..]).h, [])).Broken?
  }

  /** Somewhere behind whole frames the stream holds something to refuse. */
  ghost predicate Offends(s: seq<bv8>, client: bool, deflate: bool) {
    exists k: nat, start: nat ::
      IsBoundary(s, k, start) && (OffendsAt(s, start, client, deflate) || BreaksAt(s, k, start))
  }

  /** What pings carry, in order: the payloads of the pongs that answer them. */
  function Pings(fs: seq<Frame>): seq<seq<bv8>> {
    if fs == [] then []
    else Pings(fs[..|fs| - 1]) + if fs[|fs| - 1].h.opcode == OP_PING then [fs[|fs| - 1].payload] else []
  }

  lemma PingsSnoc(fs: seq<Frame>, f: Frame)
    ensures Pings(fs + [f]) == Pings(fs) + if f.h.opcode == OP_PING then [f.payload] else []
  {
    assert (fs + [f])[..|fs|] == fs;
  }

  /** The pings among the frames of s from the k-th up to the j-th. */
  ghost function PingsBetween(s: seq<bv8>, k: nat, j: nat): seq<seq<bv8>>
    requires k <= j && FirstFrames(s, j).Some?
  {
    Pings(FirstFrames(s, j).value.frames[k..])
  }

  lemma OneMorePing(s: seq<bv8>, k: nat, j: nat)
    requires k <= j && FirstFrames(s, j + 1).Some?
    ensures FirstFrames(s, j).Some?
    ensures PingsBetween(s, k, j + 1) == PingsBetween(s, k, j) + PingsBetween(s, j, j + 1)
  {
    hide FirstFrames, Pings;
    FirstFramesMonotone(s, j, j + 1);
    var fs, f := FirstFrames(s, j).value.frames, FirstFrames(s, j + 1).value.frames[j];
    assert FirstFrames(s, j + 1).value.frames[k..] == fs[k..] + [f];
    assert FirstFrames(s, j + 1).value.frames[j..] == [] + [f];
    PingsSnoc(fs[k..], f);
    PingsSnoc([], f);
    NoPings();
  }

  lemma NoneBetween(s: seq<bv8>, k: nat)
    requires FirstFrames(s, k).Some?
    ensures PingsBetween(s, k, k) == []
  {
    hide FirstFrames;
    assert FirstFrames(s, k).value.frames[k..] == [];
  }

  lemma NoPings()
    ensures Pings([]) == []
  {
  }

  /** What a close frame's payload is reported as. */
  function Reported(payload: seq<bv8>): Error
    requires Close.ParseClosePayload(payload).Ok?
  {
    CloseReceived(Close.ParseClosePayload(payload).value.code, Close.ParseClosePayload(payload).value.reason)
  }

  // ---- Where a failure leaves the reader ----

  /** From at up to pos nothing is gone but the frame that starts at at, or a part of it. */
  ghost predicate Within(s: seq<bv8>, at: nat, pos: nat) {
    && at <= pos <= |s|
    && (ParseHeader(s[at..]).Parsed? ==> pos <= at + ParseHeader(s[at..]).n + ParseHeader(s[at..]).h.payloadLength)
  }

  /** The bytes up to pos do not hold all of the frame that starts at at. */
  ghost predicate Short(s: seq<bv8>, at: nat, pos: nat) {
    at <= pos <= |s| && ParseFrame(s[at..pos]).NoFrame?
  }

  /** Where refusing the frame at a position ends: behind its header, or behind a malformed close frame. */
  ghost function RefusalEnd(s: seq<bv8>, at: nat, client: bool, deflate: bool): nat
    requires at <= |s|
  {
    match ParseHeader(s[at..])
    case Incomplete => at
    case NegativeLength => at + 10
    case Parsed(h, n) =>
      if h.opcode == OP_CLOSE && !BadHeader(h, client, deflate) then at + n + h.payloadLength else at + n
  }

  /** Behind the start of a frame and up to its end, the only boundary is its end. */
  lemma BoundaryWithin(s: seq<bv8>, k: nat, at: nat, pos: nat)
    requires IsBoundary(s, k, at) && Within(s, at, pos)
    ensures OnBoundary(s, pos) <==>
      pos == at
      || (ParseHeader(s[at..]).Parsed? && pos == at + ParseHeader(s[at..]).n + ParseHeader(s[at..]).h.payloadLength)
  {
    hide FirstFrames, ParseHeader, WirePayload, Assemble;
    if pos == at {
      assert IsBoundary(s, k, pos);
    } else if ParseHeader(s[at..]).Parsed? {
      var h, n := ParseHeader(s[at..]).h, ParseHeader(s[at..]).n;
      if pos == at + n + h.payloadLength {
        FrameHere(s, k, at, h, n);
        assert IsBoundary(s, k + 1, pos);
      } else {
        NoBoundaryBehind(s, k, at, h, n, pos);
      }
    } else {
      NothingBehind(s, k, at, pos);
    }
  }

  lemma NothingBehind(s: seq<bv8>, k: nat, at: nat, pos: nat)
    requires IsBoundary(s, k, at) && at < pos && !ParseHeader(s[at..]).Parsed?
    ensures !OnBoundary(s, pos)
  {
    hide FirstFrames;
    LastFrame(s, k, at);
    forall j: nat | IsBoundary(s, j, pos)
      ensures false
    {
      FirstFramesMonotone(s, if j <= k then j else k + 1, if j <= k then k else j);
    }
  }

  lemma LastFrame(s: seq<bv8>, k: nat, at: nat)
    requires IsBoundary(s, k, at) && !ParseHeader(s[at..]).Parsed?
    ensures FirstFrames(s, k + 1).None?
  {
    hide ParseHeader;
  }

  /**
   The parse after a refusal starts on a frame boundary if and only if the refused frame has no
   payload or is a close frame, whose payload has been consumed.
   */
  lemma RefusedOnBoundary(s: seq<bv8>, k: nat, at: nat, client: bool, deflate: bool)
    requires IsBoundary(s, k, at) && !ParseHeader(s[at..]).Incomplete? && RefusalEnd(s, at, client, deflate) <= |s|
    ensures OnBoundary(s, RefusalEnd(s, at, client, deflate)) <==>
      && ParseHeader(s[at..]).Parsed?
      && var h := ParseHeader(s[at..]).h;
         h.payloadLength == 0 || (h.opcode == OP_CLOSE && !BadHeader(h, client, deflate))
  {
    hide FirstFrames, ParseHeader, BadHeader, IsBoundary;
    BoundaryWithin(s, k, at, RefusalEnd(s, at, client, deflate));
  }

  /** Bytes that hold a header hold all of its fields. */
  lemma HeaderCovers(s: seq<bv8>)
    ensures ParseHeader(s).Parsed? ==>
      && |s| >= 2
      && |s| >= 2 + ExtendedSize(ReadShort(s[1])) + (if ReadMasked(s[1]) then 4 else 0) == ParseHeader(s).n
  {
    hide ReadFlags, ReadMasked, ReadShort, KeyFrom, FromBigEndian;
  }

  /** A reader that has stopped inside a header. */
  lemma HeaderCut(s: seq<bv8>, at: nat, pos: nat)
    requires at <= pos <= |s|
    requires
      pos - at < 2 || pos - at < 2 + ExtendedSize(ReadShort(s[at + 1])) + (if ReadMasked(s[at + 1]) then 4 else 0)
    ensures Within(s, at, pos) && Short(s, at, pos)
  {
    hide ParseHeader;
    HeaderCovers(s[at..]);
    HeaderCovers(s[at..pos]);
  }

  /** A reader that has stopped inside a payload. */
  lemma PayloadCut(s: seq<bv8>, at: nat, pos: nat, h: Header, n: nat)
    requires at <= pos <= |s| && ParseHeader(s[at..]) == Parsed(h, n) && pos < at + n + h.payloadLength
    ensures Within(s, at, pos) && Short(s, at, pos)
  {
    hide ParseHeader;
    assert s[at..] == s[at..pos] + s[pos..];
    if ParseHeader(s[at..pos]).Parsed? {
      ParseHeaderStable(s[at..pos], s[pos..]);
    }
  }

  class Conn {
    const client: bool
    const deflate: bool
    /** Nothing interferes: nobody closes the connection meanwhile, and pongs can be written. */
    const calm: bool
    const br: BufioReader.Reader<bv8>
    const headerBuf: array<bv8>
    const controlBuf: array<bv8>
    var closeReceived: Option<Error>
    /** Payloads of the pongs sent. */
    var pongs: seq<seq<bv8>>

    constructor (client: bool, deflate: bool, calm: bool, br: BufioReader.Reader<bv8>)
      requires br.Valid()
      ensures Valid() && this.client == client && this.deflate == deflate && this.calm == calm && this.br == br
      ensures closeReceived.None? && pongs == [] && fresh(headerBuf) && fresh(controlBuf)
      ensures Pos() == br.Pos() && Data() == br.source.data
    {
      this.client, this.deflate, this.calm, this.br := client, deflate, calm, br;
      headerBuf, controlBuf := new bv8[8], new bv8[MAX_CONTROL_PAYLOAD];
      closeReceived, pongs := None, [];
    }

    ghost predicate Valid()
      reads this, br, br.source, br.buffer
    {
      && br.Valid()
      && headerBuf.Length == 8 && controlBuf.Length == MAX_CONTROL_PAYLOAD
      && headerBuf != br.buffer && controlBuf != br.buffer && headerBuf != controlBuf
      && (closeReceived.Some? ==> closeReceived.value.CloseReceived?)
    }

    ghost function Data(): seq<bv8> {
      br.source.data
    }

    ghost function Pos(): nat
      requires br.Valid()
      reads this, br, br.source, br.buffer
    {
      br.Pos()
    }

    /** The bytes that are buffered. */
    ghost function Ahead(): (s: seq<bv8>)
      requires br.Valid()
      reads this, br, br.source, br.buffer
      ensures |s| == br.Buffered()
    {
      Data()[Pos()..br.source.pos]
    }

    method Environment() returns (closed: bool)
      ensures calm ==> !closed
    {
      closed := *;
      if calm {
        closed := false;
      }
    }

    /** Reported by the transport, or an end in the middle of something. */
    ghost predicate FromTransport(e: Error)
      reads br.source`reported
    {
      br.Known(Some(e)) || (e == UnexpectedEOF && br.Known(Some(EOF)))
    }

    /** At least n bytes are buffered, and nothing stands in the way of reading them. */
    ghost predicate Served(n: nat)
      requires br.Valid()
      reads this, br, br.source, br.buffer
    {
      calm && closeReceived.None? && br.Buffered() >= n
    }

    /** The peer has done nothing wrong: the transport has failed, or one of the ends has closed the connection. */
    ghost predicate Excuse(e: Error)
      reads `closeReceived, br.source`reported
    {
      FromTransport(e) || (e == NetworkClosed && !calm) || closeReceived == Some(e)
    }

    /**
     What a failure on the way through the frame at `at` leaves: a part of that frame gone; and at an
     end of the stream everything that has come, which is not all of the frame.
     */
    ghost predicate Left(e: Error, at: nat)
      requires br.Valid()
      reads this, br, br.source, br.buffer
    {
      && Within(Data(), at, Pos())
      && (e in {EOF, UnexpectedEOF} ==> br.Buffered() == 0 && Short(Data(), at, Pos()))
    }

    /** With a close frame received, e reports it; or it had come before, and somebody closes the connection. */
    ghost predicate Ends(e: Error, before: Option<Error>)
      reads `closeReceived
    {
      closeReceived == Some(e) || (closeReceived == before && e == NetworkClosed && !calm)
    }

    /** The frame at `at` has been refused for what it is. */
    ghost predicate Refused(at: nat)
      requires br.Valid()
      reads this, br, br.source, br.buffer
    {
      OffendsAt(Data(), at, client, deflate) && Pos() == RefusalEnd(Data(), at, client, deflate)
    }

    /** The reader stands where refusing the frame at `at` ends. */
    ghost predicate RefusalEnded(at: nat)
      requires br.Valid()
      reads this, br, br.source, br.buffer
    {
      && at <= |Data()| && !ParseHeader(Data()[at..]).Incomplete?
      && Pos() == RefusalEnd(Data(), at, client, deflate) <= |Data()|
    }

    /** Exactly m buffered bytes have been consumed. */
    twostate predicate Consumed(m: int)
      requires br.Valid() && old(br.Valid())
      reads this, br, br.source, br.buffer
    {
      && Pos() == old(Pos()) + m && br.Buffered() == old(br.Buffered()) - m
      && (old(br.Ended()) ==> br.Ended())
    }

    /** Refuses to read once the connection is closed or a close frame has been received. */
    method PrepareRead() returns (e: Option<Error>)
      requires Valid()
      ensures e.Some? ==> e.value !in {EOF, UnexpectedEOF}
      ensures closeReceived.Some? ==> e == closeReceived || (e == Some(NetworkClosed) && !calm)
      ensures closeReceived.None? && e.Some? ==> e == Some(NetworkClosed) && !calm
      ensures e.Some? ==> Excuse(e.value)
    {
      var closed := Environment();
      return if closed then Some(NetworkClosed) else closeReceived;
    }

    /** Reads n bytes of a header into the header buffer. */
    method ReadField(n: nat) returns (s: seq<bv8>, e: Option<Error>)
      requires Valid() && n <= 8
      modifies br, br.source, br.buffer, headerBuf
      ensures Valid() && old(Pos()) <= Pos() <= |Data()|
      ensures e.None? ==> Pos() == old(Pos()) + n && s == Data()[old(Pos())..Pos()]
      ensures e.Some? ==> FromTransport(e.value) && br.Buffered() == 0 && Pos() < old(Pos()) + n
      ensures old(br.Ended()) ==> br.Ended()
      ensures old(br.Buffered()) >= n ==> e.None? && br.Buffered() == old(br.Buffered()) - n
    {
      var m;
      m, e := br.ReadFull(headerBuf, 0, n);
      s := headerBuf[0..n];
    }

    /** The payload length, from the 7-bit field or the bytes behind it. */
    method ReadLength(b1: bv8) returns (length: nat, ghost ext: seq<bv8>, e: Option<Error>)
      requires Valid()
      modifies br, br.source, br.buffer, headerBuf
      ensures Valid() && old(Pos()) <= Pos() <= |Data()|
      ensures e.None? ==>
        && |ext| == ExtendedSize(ReadShort(b1)) && Pos() == old(Pos()) + |ext| && ext == Data()[old(Pos())..Pos()]
        && length == if ext == [] then ReadShort(b1) else FromBigEndian(ext)
      ensures e.Some? ==>
        FromTransport(e.value) && br.Buffered() == 0 && Pos() < old(Pos()) + ExtendedSize(ReadShort(b1))
      ensures old(br.Ended()) ==> br.Ended()
      ensures old(br.Buffered()) >= ExtendedSize(ReadShort(b1)) ==>
        e.None? && br.Buffered() == old(br.Buffered()) - ExtendedSize(ReadShort(b1))
    {
      ext, e := [], None;
      length := ReadShort(b1);
      if length == 126 {
        var s;
        s, e := ReadField(2);
        length := FromBigEndian(s);
        ext := s;
      } else if length == 127 {
        var s;
        s, e := ReadField(8);
        length := FromBigEndian(s);
        ext := s;
      }
    }

    /** The masking key, if the header announces one. */
    method ReadKey(b1: bv8) returns (key: Key, ghost bytes: seq<bv8>, e: Option<Error>)
      requires Valid()
      modifies br, br.source, br.buffer, headerBuf
      ensures Valid() && old(Pos()) <= Pos() <= |Data()|
      ensures e.None? ==>
        && |bytes| == (if ReadMasked(b1) then 4 else 0) && Pos() == old(Pos()) + |bytes|
        && bytes == Data()[old(Pos())..Pos()]
        && key == if ReadMasked(b1) then KeyFrom(bytes) else NoKey()
      ensures e.Some? ==>
        FromTransport(e.value) && br.Buffered() == 0 && ReadMasked(b1) && Pos() < old(Pos()) + 4
      ensures old(br.Ended()) ==> br.Ended()
      ensures old(br.Buffered()) >= (if ReadMasked(b1) then 4 else 0) ==>
        e.None? && br.Buffered() == old(br.Buffered()) - if ReadMasked(b1) then 4 else 0
    {
      key, bytes, e := NoKey(), [], None;
      if ReadMasked(b1) {
        var s;
        s, e := ReadField(4);
        if e.None? {
          key, bytes := KeyFrom(s), s;
        }
      }
    }

    /** The two bytes every header starts with. */
    method ReadStart() returns (b0: bv8, b1: bv8, e: Option<Error>)
      requires Valid()
      modifies br, br.source, br.buffer
      ensures Valid() && old(Pos()) <= Pos() <= |Data()|
      ensures e.None? ==> Pos() == old(Pos()) + 2 && b0 == Data()[old(Pos())] && b1 == Data()[old(Pos()) + 1]
      ensures old(br.HungUp()) ==> e == Some(EOF)
      ensures e.Some? ==> FromTransport(e.value) && br.Buffered() == 0 && Pos() < old(Pos()) + 2
      ensures old(br.Ended()) ==> br.Ended()
      ensures old(br.Buffered()) >= 2 ==> e.None? && br.Buffered() == old(br.Buffered()) - 2
    {
      b1 := 0;
      b0, e := br.ReadByte();
      if e.None? {
        b1, e := br.ReadByte();
      }
    }

    /** The header at `at` announces a length of 64 bits with the first one set, and has been read up to there. */
    ghost predicate NegativeAt(at: nat)
      requires br.Valid()
      reads this, br, br.source, br.buffer
    {
      at <= |Data()| && ParseHeader(Data()[at..]) == NegativeLength && Pos() == at + 10
    }

    /** Reads one header, unless the connection is closed or a close frame has been received. */
    method ReadFrameHeader() returns (h: Header, e: Option<Error>)
      requires Valid()
      modifies br, br.source, br.buffer, headerBuf
      ensures Valid() && old(Pos()) <= Pos() <= |Data()|
      ensures e.None? ==> ParseHeader(Data()[old(Pos())..]) == Parsed(h, Pos() - old(Pos())) && Pos() >= old(Pos()) + 2
      ensures e.Some? ==> Left(e.value, old(Pos()))
      ensures e.Some? ==> Excuse(e.value) || (e == Some(ProtocolViolation) && NegativeAt(old(Pos())))
      ensures closeReceived.Some? ==>
        (e == closeReceived || (e == Some(NetworkClosed) && !calm)) && Pos() == old(Pos())
      ensures old(br.HungUp() && closeReceived.None?) ==> e == Some(EOF) || (e == Some(NetworkClosed) && !calm)
      ensures old(HeaderAhead()) ==>
        e.None? && Consumed(old(ParseHeader(Ahead()).n))
    {
      AheadIsNext();
      hide ParseHeader;
      h := Header(false, false, false, false, 0, 0, false, NoKey());
      e := PrepareRead();
      if e.Some? {
        return;
      }
      h, e := ReadHeader();
    }

    /** readFrameHeader: on success exactly the header's bytes are consumed. */
    method ReadHeader() returns (h: Header, e: Option<Error>)
      requires Valid()
      modifies br, br.source, br.buffer, headerBuf
      ensures Valid() && old(Pos()) <= Pos() <= |Data()|
      ensures e.None? ==> ParseHeader(Data()[old(Pos())..]) == Parsed(h, Pos() - old(Pos())) && Pos() >= old(Pos()) + 2
      ensures e.Some? ==> Left(e.value, old(Pos()))
      ensures e.Some? ==> FromTransport(e.value) || (e == Some(ProtocolViolation) && NegativeAt(old(Pos())))
      ensures old(br.HungUp()) ==> e == Some(EOF)
      ensures old(ParseHeader(Ahead()).Parsed?) ==>
        && e.None? && br.Buffered() == old(br.Buffered()) - (Pos() - old(Pos())) && (old(br.Ended()) ==> br.Ended())
    {
      ghost var start, ahead := Pos(), Ahead();
      AheadIs();
      HeaderCovers(ahead);
      ghost var whole, rest := ParseHeader(ahead).Parsed?, Data()[Pos() + |ahead|..];
      assert whole ==> ParseHeader(Data()[start..]).Parsed? by {
        if whole {
          ParseHeaderStable(ahead, rest);
        }
      }
      hide *;
      h := Header(false, false, false, false, 0, 0, false, NoKey());
      var b0, b1;
      b0, b1, e := ReadStart();
      if e.Some? {
        Stopped(e.value, start);
        return;
      }
      assert whole ==> b1 == ahead[1];
      h, e := ReadFields(b0, b1, start);
    }

    /** The rest of a header behind its first two bytes. */
    method ReadFields(b0: bv8, b1: bv8, ghost start: nat) returns (h: Header, e: Option<Error>)
      requires Valid() && start + 2 == Pos() <= |Data()| && b0 == Data()[start] && b1 == Data()[start + 1]
      modifies br, br.source, br.buffer, headerBuf
      ensures Valid() && old(Pos()) <= Pos() <= |Data()|
      ensures e.None? ==> ParseHeader(Data()[start..]) == Parsed(h, Pos() - start)
      ensures e.Some? ==>
        Left(e.value, start) && (FromTransport(e.value) || (e == Some(ProtocolViolation) && NegativeAt(start)))
      ensures old(br.Ended()) ==> br.Ended()
      ensures
        var needed := ExtendedSize(ReadShort(b1)) + if ReadMasked(b1) then 4 else 0;
        ParseHeader(Data()[start..]).Parsed? && old(br.Buffered()) >= needed ==>
          e.None? && br.Buffered() == old(br.Buffered()) - (Pos() - old(Pos()))
    {
      hide *;
      h := Header(false, false, false, false, 0, 0, false, NoKey());
      var length, key;
      ghost var ext, bytes;
      length, ext, e := ReadLength(b1);
      if e.Some? {
        Stopped(e.value, start);
        return;
      }
      if length >= MaxLength() {
        e := Some(ProtocolViolation);
        NegativeRead(Data(), start, Pos(), b0, b1, ext, length);
        NegativeLeft(start);
        return;
      }
      key, bytes, e := ReadKey(b1);
      if e.Some? {
        Stopped(e.value, start);
        return;
      }
      h := HeaderOf(ReadFlags(b0), length, ReadMasked(b1), key);
      HeaderConsumed(Data(), start, Pos(), b0, b1, ext, bytes, length);
    }

    lemma AheadIs()
      requires Valid()
      ensures Pos() + |Ahead()| <= |Data()| && Data()[Pos()..] == Ahead() + Data()[Pos() + |Ahead()|..]
      ensures forall k :: 0 <= k < |Ahead()| ==> Ahead()[k] == Data()[Pos() + k]
    {
    }

    /** The transport has failed inside a header. */
    lemma Stopped(e: Error, at: nat)
      requires br.Valid() && at <= Pos() <= |Data()| && br.Buffered() == 0
      requires at + 2 <= Pos() ==>
        var b1 := Data()[at + 1];
        Pos() < at + 2 + ExtendedSize(ReadShort(b1)) + if ReadMasked(b1) then 4 else 0
      ensures Left(e, at)
    {
      hide ParseHeader, ParseFrame, ReadShort, ReadMasked;
      HeaderCut(Data(), at, Pos());
    }

    lemma NegativeLeft(at: nat)
      requires br.Valid() && at + 10 == Pos() <= |Data()| && ParseHeader(Data()[at..]) == NegativeLength
      ensures Left(ProtocolViolation, at) && NegativeAt(at)
    {
    }

    /** A length of 64 bits with the first one set is negative for the reader. */
    static lemma NegativeRead(s: seq<bv8>, start: nat, end: nat, b0: bv8, b1: bv8, ext: seq<bv8>, length: nat)
      requires start + 2 + |ext| == end <= |s| && length >= MaxLength()
      requires b0 == s[start] && b1 == s[start + 1] && ext == s[start + 2..end] && |ext| == ExtendedSize(ReadShort(b1))
      requires length == if ext == [] then ReadShort(b1) else FromBigEndian(ext)
      ensures ParseHeader(s[start..]) == NegativeLength && end == start + 10
    {
      EightBytes();
      hide ReadFlags, ReadMasked, ReadShort, KeyFrom, FromBigEndian;
      assert s[start..][0] == b0 && s[start..][1] == b1 && s[start..][2..2 + |ext|] == ext;
    }

    static lemma HeaderConsumed(s: seq<bv8>, start: nat, end: nat, b0: bv8, b1: bv8, ext: seq<bv8>,
                                key: seq<bv8>, length: nat)
      requires start + 2 + |ext| + |key| == end <= |s|
      requires b0 == s[start] && b1 == s[start + 1] && ext == s[start + 2..start + 2 + |ext|]
      requires key == s[start + 2 + |ext|..end]
      requires |ext| == ExtendedSize(ReadShort(b1)) && length < MaxLength()
      requires length == if ext == [] then ReadShort(b1) else FromBigEndian(ext)
      requires |key| == if ReadMasked(b1) then 4 else 0
      ensures
        var h := HeaderOf(ReadFlags(b0), length, ReadMasked(b1), if ReadMasked(b1) then KeyFrom(key) else NoKey());
        ParseHeader(s[start..]) == Parsed(h, end - start)
    {
      hide *;
      assert s[start..] == [b0, b1] + ext + key + s[end..];
      ParseOfParts(b0, b1, ext, key, s[end..], length);
    }

    /** Reads p[lo..hi] in full, or reports an error. */
    method ReadFramePayload(p: array<bv8>, lo: nat, hi: nat) returns (n: nat, e: Option<Error>)
      requires Valid() && lo <= hi <= p.Length && p != br.buffer
      modifies br, br.source, br.buffer, p
      ensures Valid() && n <= hi - lo && old(Pos()) <= Pos() <= |Data()|
      ensures e.None? ==> n == hi - lo && Pos() == old(Pos()) + n && p[lo..hi] == Data()[old(Pos())..Pos()]
      ensures p[..lo] == old(p[..lo]) && p[hi..] == old(p[hi..])
      ensures e.Some? ==> Excuse(e.value) && Pos() <= old(Pos()) + (hi - lo)
      ensures e in {Some(EOF), Some(UnexpectedEOF)} ==> br.Buffered() == 0 && Pos() < old(Pos()) + (hi - lo)
      ensures old(br.Ended()) ==> br.Ended()
      ensures lo < hi && old(br.HungUp() && closeReceived.None?) ==>
        e == Some(EOF) || (e == Some(NetworkClosed) && !calm)
      ensures old(Served(hi - lo)) ==> e.None? && br.Buffered() == old(br.Buffered()) - n
    {
      n := 0;
      e := PrepareRead();
      if e.Some? {
        return;
      }
      n, e := br.ReadFull(p, lo, hi);
      assert p[hi..] == p[lo + n..][hi - lo - n..] == old(p[lo + n..])[hi - lo - n..] == old(p[hi..]);
      var closed := Environment();
      if e.None? && closed {
        e := Some(NetworkClosed);
      }
    }

    /** The payload of a control frame, unmasked. */
    method ReadControlPayload(h: Header) returns (b: seq<bv8>, e: Option<Error>)
      requires Valid()
      modifies br, br.source, br.buffer, controlBuf
      ensures Valid() && old(Pos()) <= Pos() <= |Data()|
      ensures e.None? ==>
        && h.fin && h.payloadLength <= MAX_CONTROL_PAYLOAD && Pos() == old(Pos()) + h.payloadLength
        && b == WirePayload(h, Data()[old(Pos())..Pos()])
      ensures e.Some? ==>
        Excuse(e.value) || (e == Some(ProtocolViolation) && (h.payloadLength > MAX_CONTROL_PAYLOAD || !h.fin))
      ensures e.Some? ==> Pos() <= old(Pos()) + h.payloadLength
      ensures e in {Some(EOF), Some(UnexpectedEOF)} ==> br.Buffered() == 0 && Pos() < old(Pos()) + h.payloadLength
      ensures h.payloadLength > MAX_CONTROL_PAYLOAD || !h.fin ==>
        e == Some(ProtocolViolation) && unchanged(br, br.source)
      ensures old(Served(h.payloadLength)) && h.payloadLength <= MAX_CONTROL_PAYLOAD && h.fin ==>
        e.None? && Consumed(h.payloadLength)
    {
      b := [];
      if h.payloadLength > MAX_CONTROL_PAYLOAD || !h.fin {
        e := Some(ProtocolViolation);
        return;
      }
      var _, re := ReadFramePayload(controlBuf, 0, h.payloadLength);
      e := re;
      if e.Some? {
        return;
      }
      if h.masked {
        var _ := MaskGo(controlBuf, 0, h.payloadLength, h.maskKey);
      }
      b := controlBuf[0..h.payloadLength];
    }

    /**
     Answers a ping, notes a pong, records a close. A close frame whose payload has come ends reading
     for good if and only if that payload is a status and a reason; otherwise it is only refused.
     */
    method HandleControl(h: Header) returns (e: Option<Error>)
      requires Valid() && IsControl(h.opcode)
      modifies this`closeReceived, this`pongs, br, br.source, br.buffer, controlBuf
      ensures Valid() && old(Pos()) <= Pos() <= |Data()|
      ensures e.None? ==>
        && h.opcode != OP_CLOSE && h.fin && Pos() == old(Pos()) + h.payloadLength && closeReceived == old(closeReceived)
        && pongs == old(pongs) + (if h.opcode == OP_PING then [WirePayload(h, Data()[old(Pos())..Pos()])] else [])
      ensures closeReceived != old(closeReceived) ==>
        && h.opcode == OP_CLOSE && Pos() == old(Pos()) + h.payloadLength && e == closeReceived
        && var ce := Close.ParseClosePayload(WirePayload(h, Data()[old(Pos())..Pos()]));
           ce.Ok? && closeReceived == Some(CloseReceived(ce.value.code, ce.value.reason))
      ensures e.Some? ==> pongs == old(pongs) && (h.opcode != OP_CLOSE ==> closeReceived == old(closeReceived))
      ensures h.payloadLength > MAX_CONTROL_PAYLOAD || !h.fin ==>
        e == Some(ProtocolViolation) && unchanged(br, br.source) && closeReceived == old(closeReceived)
      ensures h.opcode == OP_CLOSE ==> e.Some?
      ensures e.Some? ==> Pos() <= old(Pos()) + h.payloadLength
      ensures e in {Some(EOF), Some(UnexpectedEOF)} ==> br.Buffered() == 0 && Pos() < old(Pos()) + h.payloadLength
      ensures old(Served(h.payloadLength)) && h.payloadLength <= MAX_CONTROL_PAYLOAD && h.fin ==>
        Consumed(h.payloadLength)
      ensures
        old(Served(h.payloadLength)) && h.payloadLength <= MAX_CONTROL_PAYLOAD && h.fin && h.opcode == OP_CLOSE ==>
        && (closeReceived.Some? <==> Close.ParseClosePayload(WirePayload(h, Data()[old(Pos())..Pos()])).Ok?)
        && (if closeReceived.None? then e == Some(ProtocolViolation)
            else e == closeReceived == Some(Reported(WirePayload(h, Data()[old(Pos())..Pos()]))))
      ensures e.Some? ==>
        || Excuse(e.value)
        || (e == Some(ProtocolViolation) && (h.payloadLength > MAX_CONTROL_PAYLOAD || !h.fin))
        || (e == Some(ProtocolViolation) && old(Pos()) + h.payloadLength == Pos()
            && BadClose(h, WirePayload(h, Data()[old(Pos())..Pos()])))
    {
      var b;
      b, e := ReadControlPayload(h);
      if e.Some? {
        return;
      }
      if h.opcode == OP_PING {
        var failed := Environment();
        if failed {
          return Some(NetworkClosed);
        }
        pongs := pongs + [b];
      } else if h.opcode == OP_CLOSE {
        var ce := Close.ParseClosePayload(b);
        if ce.Err? {
          return Some(ce.error);
        }
        closeReceived := Some(CloseReceived(ce.value.code, ce.value.reason));
        e := closeReceived;
      }
    }

    /** The header h stands at `at`, with its payload at Pos(). */
    ghost predicate HeaderRead(h: Header, at: nat)
      requires br.Valid()
      reads this, br, br.source, br.buffer
    {
      at < Pos() <= |Data()| && ParseHeader(Data()[at..]) == Parsed(h, Pos() - at)
    }

    /** A whole control frame leaves the meaning of the frames so far alone. */
    static lemma ControlFrameHere(s: seq<bv8>, k: nat, start: nat, h: Header, n: nat)
      requires IsBoundary(s, k, start) && ParseHeader(s[start..]) == Parsed(h, n) && start + n + h.payloadLength <= |s|
      requires IsControl(h.opcode) && h.fin && !h.rsv1
      ensures IsBoundary(s, k + 1, start + n + h.payloadLength)
      ensures Assemble(FirstFrames(s, k + 1).value.frames) == Assemble(FirstFrames(s, k).value.frames)
      ensures PingsBetween(s, k, k + 1)
           == if h.opcode == OP_PING then [WirePayload(h, s[start + n..start + n + h.payloadLength])] else []
    {
      hide ParseHeader, FirstFrames, Assemble, WirePayload;
      FrameHere(s, k, start, h, n);
      var f := Frame(h, WirePayload(h, s[start + n..start + n + h.payloadLength]));
      assert FirstFrames(s, k + 1).value.frames[k..] == [] + [f];
      PingsSnoc([], f);
    }

    /** A header is buffered, and nothing stands in the way of reading it. */
    ghost predicate HeaderAhead()
      requires br.Valid()
      reads this, br, br.source, br.buffer
    {
      Served(0) && ParseHeader(Ahead()).Parsed?
    }

    /** It is a data frame's, and nothing is wrong with it. */
    ghost predicate DataAhead()
      requires br.Valid()
      reads this, br, br.source, br.buffer
    {
      && HeaderAhead() && !BadHeader(ParseHeader(Ahead()).h, client, deflate)
      && DataOpcode(ParseHeader(Ahead()).h.opcode)
    }

    /** It is one that is refused. */
    ghost predicate BadAhead()
      requires br.Valid()
      reads this, br, br.source, br.buffer
    {
      HeaderAhead() && BadHeader(ParseHeader(Ahead()).h, client, deflate)
    }

    /** It is a close frame's, and all of the frame is buffered. */
    ghost predicate CloseAhead()
      requires br.Valid()
      reads this, br, br.source, br.buffer
    {
      && HeaderAhead() && !BadHeader(ParseHeader(Ahead()).h, client, deflate)
      && ParseHeader(Ahead()).h.opcode == OP_CLOSE
      && ParseHeader(Ahead()).n + ParseHeader(Ahead()).h.payloadLength <= |Ahead()|
    }

    /** The unmasked payload of the frame whose header is buffered. */
    ghost function PayloadAhead(): seq<bv8>
      requires br.Valid() && ParseHeader(Ahead()).Parsed?
      requires ParseHeader(Ahead()).n + ParseHeader(Ahead()).h.payloadLength <= |Ahead()|
      reads this, br, br.source, br.buffer
    {
      var h, n := ParseHeader(Ahead()).h, ParseHeader(Ahead()).n;
      WirePayload(h, Ahead()[n..n + h.payloadLength])
    }

    /** A header that is buffered is the one at the reader's position. */
    lemma AheadIsNext()
      requires Valid()
      ensures ParseHeader(Ahead()).Parsed? ==> ParseHeader(Data()[Pos()..]) == ParseHeader(Ahead())
    {
      AheadIs();
      if ParseHeader(Ahead()).Parsed? {
        ParseHeaderStable(Ahead(), Data()[Pos() + |Ahead()|..]);
      }
    }

    /** A header just read that is refused for what it says offends where it starts. */
    lemma HeaderOffends(start: nat, h: Header)
      requires br.Valid() && start <= Pos() <= |Data()| && ParseHeader(Data()[start..]) == Parsed(h, Pos() - start)
      ensures BadHeader(h, client, deflate) ==> OffendsAt(Data(), start, client, deflate)
      ensures
        var end := Pos() + h.payloadLength;
        end <= |Data()| && BadClose(h, WirePayload(h, Data()[Pos()..end])) ==> OffendsAt(Data(), start, client, deflate)
    {
      hide ParseHeader, BadHeader, BadClose, WirePayload;
    }

    lemma PayloadIsNext()
      requires Valid()
      ensures CloseAhead() ==>
        var h, from := ParseHeader(Ahead()).h, Pos() + ParseHeader(Ahead()).n;
        PayloadAhead() == WirePayload(h, Data()[from..from + h.payloadLength])
    {
      hide ParseHeader, WirePayload, BadHeader;
      AheadIs();
      if CloseAhead() {
        var h, n := ParseHeader(Ahead()).h, ParseHeader(Ahead()).n;
        assert Ahead()[n..n + h.payloadLength] == Data()[Pos() + n..Pos() + n + h.payloadLength];
      }
    }

    /** What follows a header that has just been read: it is refused, left to the caller, or handled. */
    method TakeFrame(h: Header, ghost k: nat, ghost start: nat) returns (e: Option<Error>)
      requires Valid() && HeaderRead(h, start) && closeReceived.None?
      modifies this`closeReceived, this`pongs, br, br.source, br.buffer, controlBuf
      ensures Valid() && old(Pos()) <= Pos() <= |Data()|
      ensures e.None? ==> closeReceived.None? && !BadHeader(h, client, deflate)
      ensures e.None? && IsControl(h.opcode) && IsBoundary(Data(), k, start) ==>
        && IsBoundary(Data(), k + 1, Pos())
        && Assemble(FirstFrames(Data(), k + 1).value.frames) == Assemble(FirstFrames(Data(), k).value.frames)
        && pongs == old(pongs) + PingsBetween(Data(), k, k + 1)
      ensures e.Some? || !IsControl(h.opcode) ==> pongs == old(pongs)
      ensures closeReceived.Some? ==> e == closeReceived
      ensures BadHeader(h, client, deflate) ==>
        e == Some(ProtocolViolation) && unchanged(br, br.source) && closeReceived.None?
      ensures !IsControl(h.opcode) ==> unchanged(br, br.source) && (e.None? <==> !BadHeader(h, client, deflate))
      ensures e.Some? ==> Left(e.value, start) && (Excuse(e.value) || (e == Some(ProtocolViolation) && Refused(start)))
      ensures h.opcode == OP_CLOSE && !BadHeader(h, client, deflate) && old(Served(h.payloadLength)) ==>
        && e.Some? && Consumed(h.payloadLength)
        && (closeReceived.Some? <==> Close.ParseClosePayload(WirePayload(h, Data()[old(Pos())..Pos()])).Ok?)
        && (if closeReceived.None? then e == Some(ProtocolViolation)
            else e == closeReceived == Some(Reported(WirePayload(h, Data()[old(Pos())..Pos()]))))
    {
      hide ParseHeader, FirstFrames, Assemble, IsBoundary, OffendsAt, FromTransport, WirePayload, ParseFrame;
      hide BufioReader.Reader.HungUp, BufioReader.Reader.Ended, Close.ParseClosePayload, Excuse, Reported;
      hide PingsBetween;
      ghost var n := Pos() - start;
      e := None;
      HeaderOffends(start, h);
      if IllegalBits(h, deflate) || (!client && !h.masked) {
        return Some(ProtocolViolation);
      }
      if !IsControl(h.opcode) {
        if !DataOpcode(h.opcode) {
          e := Some(ProtocolViolation);
        }
        return;
      }
      ghost var from := Pos();
      e := HandleControl(h);
      if e.None? && IsBoundary(Data(), k, start) {
        ControlFrameHere(Data(), k, start, h, n);
      }
      if Pos() < from + h.payloadLength {
        PayloadCut(Data(), start, Pos(), h, n);
      }
    }

    /**
     Reads one header that starts after k whole frames, and the whole frame if it is a control
     frame. What it accepts is no bad header; a bad one that has arrived is refused, and its payload
     is left in the stream.
     */
    method ReadNext(ghost k: nat) returns (h: Header, e: Option<Error>)
      requires Valid()
      modifies this`closeReceived, this`pongs, br, br.source, br.buffer, headerBuf, controlBuf
      ensures Valid() && old(Pos()) <= Pos() <= |Data()|
      ensures e.None? ==>
        && closeReceived == old(closeReceived) == None && Pos() > old(Pos())
        && !BadHeader(h, client, deflate)
      ensures e.None? && IsControl(h.opcode) && IsBoundary(Data(), k, old(Pos())) ==>
        && IsBoundary(Data(), k + 1, Pos())
        && Assemble(FirstFrames(Data(), k + 1).value.frames) == Assemble(FirstFrames(Data(), k).value.frames)
        && pongs == old(pongs) + PingsBetween(Data(), k, k + 1)
      ensures e.Some? || !IsControl(h.opcode) ==> pongs == old(pongs)
      ensures closeReceived.Some? ==> e.Some? && Ends(e.value, old(closeReceived))
      ensures e.None? && !IsControl(h.opcode) ==> HeaderRead(h, old(Pos()))
      ensures e.Some? ==>
        Left(e.value, old(Pos())) && (Excuse(e.value) || (e == Some(ProtocolViolation) && Refused(old(Pos()))))
      ensures old(closeReceived).Some? ==> e.Some? && Pos() == old(Pos()) && closeReceived == old(closeReceived)
      ensures old(br.HungUp() && closeReceived.None?) ==> e == Some(EOF) || (e == Some(NetworkClosed) && !calm)
      ensures old(DataAhead()) ==>
        e.None? && h == old(ParseHeader(Ahead()).h) && Consumed(old(ParseHeader(Ahead()).n))
      ensures old(BadAhead()) ==>
        e == Some(ProtocolViolation) && closeReceived.None? && Consumed(old(ParseHeader(Ahead()).n))
      ensures old(CloseAhead()) ==>
        && e.Some? && Consumed(old(ParseHeader(Ahead()).n + ParseHeader(Ahead()).h.payloadLength))
        && (closeReceived.Some? <==> old(Close.ParseClosePayload(PayloadAhead()).Ok?))
        && (if closeReceived.None? then e == Some(ProtocolViolation)
            else e == closeReceived == Some(Reported(old(PayloadAhead()))))
    {
      hide ParseHeader, FirstFrames, Assemble, IsBoundary, FromTransport, BadHeader, WirePayload;
      hide Left, Excuse, Refused, NegativeAt, Close.ParseClosePayload, PayloadAhead;
      hide BufioReader.Reader.HungUp, BufioReader.Reader.Ended;
      ghost var start := Pos();
      h, e := NextHeader();
      if e.None? {
        e := TakeFrame(h, k, start);
      }
    }

    /** The header, which is the one that was buffered if there was one. */
    method NextHeader() returns (h: Header, e: Option<Error>)
      requires Valid()
      modifies br, br.source, br.buffer, headerBuf
      ensures Valid() && old(Pos()) <= Pos() <= |Data()|
      ensures e.None? ==> closeReceived.None? && HeaderRead(h, old(Pos()))
      ensures e.Some? ==>
        Left(e.value, old(Pos())) && (Excuse(e.value) || (e == Some(ProtocolViolation) && Refused(old(Pos()))))
      ensures closeReceived.Some? ==>
        (e == closeReceived || (e == Some(NetworkClosed) && !calm)) && Pos() == old(Pos())
      ensures old(br.HungUp() && closeReceived.None?) ==> e == Some(EOF) || (e == Some(NetworkClosed) && !calm)
      ensures old(HeaderAhead()) ==>
        e.None? && h == old(ParseHeader(Ahead()).h) && Consumed(old(ParseHeader(Ahead()).n))
      ensures old(CloseAhead()) ==>
        && Pos() + h.payloadLength <= |Data()|
        && old(PayloadAhead()) == WirePayload(h, Data()[Pos()..Pos() + h.payloadLength])
    {
      hide ParseHeader, FromTransport, BadHeader, WirePayload, Left, Excuse, Refused, NegativeAt, PayloadAhead;
      hide IsControl, DataOpcode, BufioReader.Reader.HungUp, BufioReader.Reader.Ended;
      AheadIsNext();
      PayloadIsNext();
      ghost var start := Pos();
      h, e := ReadFrameHeader();
      if e.Some? {
        NegativeOffends(start);
      }
    }

    lemma NegativeOffends(at: nat)
      requires br.Valid()
      ensures NegativeAt(at) ==> Refused(at)
    {
    }

    /** Somewhere in the stream there is something to refuse. */
    ghost predicate Offended() {
      Offends(Data(), client, deflate)
    }

    /**
     Reads headers, handling control frames, until one belongs to a data frame. If it starts after
     k whole frames, it ends up with the header after j of them, all in between control frames. `at`
     is where the last header it looked for starts.
     */
    method ReadLoop(ghost k: nat) returns (h: Header, e: Option<Error>, ghost j: nat, ghost at: nat)
      requires Valid()
      modifies this`closeReceived, this`pongs, br, br.source, br.buffer, headerBuf, controlBuf
      ensures Valid() && old(Pos()) <= Pos() <= |Data()|
      ensures e.None? ==> DataOpcode(h.opcode) && !BadHeader(h, client, deflate) && HeaderRead(h, at)
      ensures e.None? ==> closeReceived.None? && Pos() > old(Pos())
      ensures IsBoundary(Data(), k, old(Pos())) ==>
        && j >= k && IsBoundary(Data(), j, at) && FirstFrames(Data(), k).Some?
        && Assemble(FirstFrames(Data(), j).value.frames) == Assemble(FirstFrames(Data(), k).value.frames)
        && pongs == old(pongs) + PingsBetween(Data(), k, j)
      ensures closeReceived.Some? ==> e.Some? && Ends(e.value, old(closeReceived))
      ensures e.Some? ==> Left(e.value, at) && (Excuse(e.value) || (e == Some(ProtocolViolation) && Refused(at)))
      ensures old(closeReceived).Some? ==> e.Some? && Pos() == old(Pos()) && closeReceived == old(closeReceived)
      ensures old(br.HungUp() && closeReceived.None?) ==> e == Some(EOF) || (e == Some(NetworkClosed) && !calm)
      ensures old(DataAhead()) ==>
        e.None? && h == old(ParseHeader(Ahead()).h) && Consumed(old(ParseHeader(Ahead()).n))
      ensures old(BadAhead()) ==>
        e == Some(ProtocolViolation) && closeReceived.None? && Consumed(old(ParseHeader(Ahead()).n))
      ensures old(CloseAhead()) ==>
        && e.Some? && Consumed(old(ParseHeader(Ahead()).n + ParseHeader(Ahead()).h.payloadLength))
        && (closeReceived.Some? <==> old(Close.ParseClosePayload(PayloadAhead()).Ok?))
        && (if closeReceived.None? then e == Some(ProtocolViolation)
            else e == closeReceived == Some(Reported(old(PayloadAhead()))))
    {
      hide ParseHeader, FirstFrames, Assemble, OffendsAt, FromTransport, IllegalBits, WirePayload, ParseFrame;
      hide Left, Excuse, Refused, HeaderRead, PayloadAhead, Close.ParseClosePayload, Reported, PingsBetween, Ends;
      hide BufioReader.Reader.HungUp, BufioReader.Reader.Ended;
      if IsBoundary(Data(), k, Pos()) {
        NoneBetween(Data(), k);
      }
      j := k;
      ghost var aligned, first := IsBoundary(Data(), k, Pos()), true;
      while true
        invariant Valid() && old(Pos()) <= Pos() <= |Data()|
        invariant aligned ==>
          j >= k && IsBoundary(Data(), k, old(Pos())) && IsBoundary(Data(), j, Pos())
          && Assemble(FirstFrames(Data(), j).value.frames) == Assemble(FirstFrames(Data(), k).value.frames)
          && pongs == old(pongs) + PingsBetween(Data(), k, j)
        invariant closeReceived == old(closeReceived)
        invariant closeReceived.Some? ==> Pos() == old(Pos())
        invariant first ==> unchanged(this, br, br.source, br.buffer)
        invariant !first ==>
          !old(DataAhead()) && !old(BadAhead()) && !old(CloseAhead()) && !old(br.HungUp() && closeReceived.None?)
        decreases |Data()| - Pos()
      {
        at := Pos();
        h, e := ReadNext(j);
        if e.Some? || !IsControl(h.opcode) {
          return;
        }
        first := false;
        if aligned {
          OneMorePing(Data(), k, j);
        }
        j := j + 1;
      }
    }

    /** Throws away the next n bytes of the stream. */
    method Skip(n: nat) returns (e: Option<Error>)
      requires Valid()
      modifies br, br.source, br.buffer
      ensures Valid() && old(Pos()) <= Pos() <= |Data()|
      ensures e.None? ==> Pos() == old(Pos()) + n
      ensures e.Some? ==> FromTransport(e.value)
      ensures old(br.Buffered()) >= n ==> e.None? && Consumed(n)
    {
      e := None;
      for i := 0 to n
        invariant Valid() && Pos() == old(Pos()) + i && e.None? && (old(br.Ended()) ==> br.Ended())
        invariant old(br.Buffered()) >= n ==> br.Buffered() == old(br.Buffered()) - i
      {
        var _, re := br.ReadByte();
        if re.Some? {
          return re;
        }
      }
    }

    /** Throws away the payload of the frame whose header has just been read. */
    method SkipPayload(h: Header, ghost k: nat, ghost at: nat) returns (e: Option<Error>)
      requires Valid() && HeaderRead(h, at)
      modifies br, br.source, br.buffer
      ensures Valid() && old(Pos()) <= Pos() <= |Data()|
      ensures e.None? && IsBoundary(Data(), k, at) ==> IsBoundary(Data(), k + 1, Pos())
      ensures e.Some? ==> FromTransport(e.value)
    {
      hide ParseHeader, FirstFrames, Assemble, WirePayload;
      ghost var n := Pos() - at;
      e := Skip(h.payloadLength);
      if e.None? && IsBoundary(Data(), k, at) {
        FrameHere(Data(), k, at, h, n);
      }
    }

    /** Skips the next data frame, and control frames before it. The last header it looked for starts at `at`. */
    method DrainFrame(ghost k: nat) returns (e: Option<Error>, ghost next: nat, ghost at: nat)
      requires Valid()
      modifies this`closeReceived, this`pongs, br, br.source, br.buffer, headerBuf, controlBuf
      ensures Valid() && old(Pos()) <= Pos() <= |Data()|
      ensures e.None? ==> Pos() > old(Pos()) && closeReceived.None?
      ensures e.None? && IsBoundary(Data(), k, old(Pos())) ==> IsBoundary(Data(), next, Pos())
      ensures IsBoundary(Data(), k, old(Pos())) ==> OnBoundary(Data(), at)
      ensures old(closeReceived).Some? ==> e.Some? && Pos() == old(Pos()) && closeReceived == old(closeReceived)
      ensures e.Some? ==> Excuse(e.value) || (e == Some(ProtocolViolation) && Refused(at))
      ensures closeReceived.Some? ==> e.Some? && Ends(e.value, old(closeReceived))
      ensures old(CloseAhead()) ==>
        && e.Some? && Consumed(old(ParseHeader(Ahead()).n + ParseHeader(Ahead()).h.payloadLength))
        && (closeReceived.Some? <==> old(Close.ParseClosePayload(PayloadAhead()).Ok?))
        && (if closeReceived.None? then e == Some(ProtocolViolation)
            else e == closeReceived == Some(Reported(old(PayloadAhead()))))
    {
      hide Assemble, FirstFrames, HeaderRead, BadHeader, Left, Refused, PayloadAhead, Reported, PingsBetween, Ends;
      hide FromTransport, Close.ParseClosePayload, CloseAhead, DataAhead, BadAhead, Consumed, ParseHeader;
      var h;
      ghost var j;
      h, e, j, at := ReadLoop(k);
      next := j + 1;
      if e.None? {
        e := SkipPayload(h, j, at);
      }
    }

    /**
     Skips frame after frame until an error. starts are the positions frames were looked for at, the
     first of them right here: all are boundaries if and only if this one is. A close frame ends it
     with the report of that close frame; otherwise it ends because of the transport or a closed
     connection, or because the frame at `at`, the last one looked for, is refused.
     */
    method Drain() returns (e: Error, ghost starts: seq<nat>, ghost at: nat)
      requires Valid()
      modifies this`closeReceived, this`pongs, br, br.source, br.buffer, headerBuf, controlBuf
      ensures Valid() && old(Pos()) <= Pos() <= |Data()|
      ensures starts != [] && starts[0] == old(Pos())
      ensures OnBoundaries(Data(), starts) <==> OnBoundary(Data(), old(Pos()))
      ensures OnBoundary(Data(), old(Pos())) ==> OnBoundary(Data(), at)
      ensures Excuse(e) || (e == ProtocolViolation && Refused(at))
      ensures closeReceived.Some? ==> Ends(e, old(closeReceived))
      ensures old(closeReceived).Some? ==> Pos() == old(Pos()) && closeReceived == old(closeReceived)
      ensures old(CloseAhead()) ==>
        && (closeReceived.Some? <==> old(Close.ParseClosePayload(PayloadAhead()).Ok?))
        && e == if closeReceived.None? then ProtocolViolation else Reported(old(PayloadAhead()))
    {
      hide IsBoundary, OnBoundaries, Excuse, Refused, Reported, PayloadAhead, Close.ParseClosePayload, CloseAhead;
      hide Consumed;
      ghost var aligned, j := Aligned();
      starts := [];
      OnNoBoundary(Data());
      while true
        invariant Valid() && old(Pos()) <= Pos() <= |Data()|
        invariant aligned ==> IsBoundary(Data(), j, Pos()) && OnBoundaries(Data(), starts)
        invariant if starts == [] then Pos() == old(Pos()) else starts[0] == old(Pos())
        invariant if starts == [] then unchanged(this, br, br.source, br.buffer) else !old(CloseAhead())
        invariant closeReceived == old(closeReceived) && (closeReceived.Some? ==> Pos() == old(Pos()))
        decreases |Data()| - Pos()
      {
        if aligned {
          OneMoreStart(Data(), starts, j, Pos());
        }
        starts := starts + [Pos()];
        FirstStart(Data(), starts);
        var fe;
        fe, j, at := DrainFrame(j);
        if fe.Some? {
          return fe.value, starts, at;
        }
      }
    }

    lemma Aligned() returns (aligned: bool, j: nat)
      requires Valid()
      ensures aligned == OnBoundary(Data(), Pos()) && (aligned ==> IsBoundary(Data(), j, Pos()))
    {
      aligned := OnBoundary(Data(), Pos());
      j :| aligned ==> IsBoundary(Data(), j, Pos());
    }

    static lemma FirstStart(s: seq<bv8>, starts: seq<nat>)
      requires starts != []
      ensures OnBoundaries(s, starts) ==> OnBoundary(s, starts[0])
    {
    }

    /** n bytes further on there is a whole close frame in the buffer. */
    ghost predicate CloseBehind(n: nat)
      requires br.Valid()
      reads this, br, br.source, br.buffer
    {
      && Served(n)
      && var p := ParseHeader(Ahead()[n..]);
         p.Parsed? && !BadHeader(p.h, client, deflate) && p.h.opcode == OP_CLOSE
         && n + p.n + p.h.payloadLength <= |Ahead()|
    }

    /** Its unmasked payload. */
    ghost function PayloadBehind(n: nat): seq<bv8>
      requires br.Valid() && CloseBehind(n)
      reads this, br, br.source, br.buffer
    {
      var p := ParseHeader(Ahead()[n..]);
      WirePayload(p.h, Ahead()[n..][p.n..p.n + p.h.payloadLength])
    }

    /** With n bytes consumed, it is next. */
    twostate lemma ThenAhead(n: nat)
      requires old(Valid()) && Valid() && old(CloseBehind(n)) && Consumed(n) && closeReceived == old(closeReceived)
      ensures CloseAhead() && PayloadAhead() == old(PayloadBehind(n))
    {
      hide ParseHeader, BadHeader, WirePayload, BufioReader.Reader.Ended;
      assert Ahead() == old(Ahead())[n..];
    }

    /**
     Skips n bytes and then frame after frame: if there are that many bytes, frames are looked for
     from there on, at boundaries if and only if that is one.
     */
    method SkipAndDrain(n: nat) returns (e: Error, ghost starts: seq<nat>, ghost at: nat)
      requires Valid()
      modifies this`closeReceived, this`pongs, br, br.source, br.buffer, headerBuf, controlBuf
      ensures Valid() && old(Pos()) <= Pos() <= |Data()|
      ensures old(Pos()) + n > |Data()| ==> starts == []
      ensures starts != [] ==>
        && starts[0] == old(Pos()) + n
        && (OnBoundaries(Data(), starts) <==> OnBoundary(Data(), old(Pos()) + n))
        && (OnBoundary(Data(), old(Pos()) + n) ==> OnBoundary(Data(), at))
      ensures Excuse(e) || (starts != [] && e == ProtocolViolation && Refused(at))
      ensures closeReceived != old(closeReceived) ==> closeReceived == Some(e)
      ensures closeReceived.Some? && starts != [] ==> Ends(e, old(closeReceived))
      ensures old(closeReceived).Some? ==> closeReceived == old(closeReceived)
      ensures old(closeReceived).Some? && n == 0 ==> starts != [] && Pos() == old(Pos())
      ensures old(CloseBehind(n)) ==>
        && (closeReceived.Some? <==> old(Close.ParseClosePayload(PayloadBehind(n)).Ok?))
        && e == if closeReceived.None? then ProtocolViolation else Reported(old(PayloadBehind(n)))
    {
      hide IsBoundary, OnBoundaries, OnBoundary, Refused, Reported, PayloadBehind, PayloadAhead, CloseBehind;
      hide CloseAhead, Close.ParseClosePayload, Consumed, FromTransport;
      starts, at := [], 0;
      label Start:
      var skipped := Skip(n);
      if skipped.Some? {
        SkippedAll(n);
        return skipped.value, starts, at;
      }
      if old(CloseBehind(n)) {
        SkippedAll(n);
        ThenAhead(n);
      }
      e, starts, at := Drain();
    }

    /** A close frame behind n bytes means that n bytes are buffered. */
    twostate lemma SkippedAll(n: nat)
      requires old(Valid())
      ensures old(CloseBehind(n)) ==> old(br.Buffered()) >= n
    {
    }
  }
}
