/** Both ends of a connection: what one side's application wrote is what the other side's reads. */
module Exchange {
  import opened Wrappers
  import opened Acceptance
  import opened Frame
  import opened FrameStream
  import opened Mask
  import opened Messages
  import opened Seqs
  import FrameReader
  import MsgReader
  import MsgWriter

  /** A server's frames, as far as they have arrived, are what a client expects: not masked. */
  lemma WrittenMasksRight(w: MsgWriter.MsgWriter, client: bool, s: seq<bv8>)
    requires w.Valid() && w.c.intact && w.c.client == !client && s <= w.c.bw.sink.wire
    ensures MsgReader.PeerMasksRight(client, s)
  {
    if client {
      forall k: nat | FirstFrames(s, k).Some?
        ensures MsgReader.NoneMasked(FirstFrames(s, k).value.frames)
      {
        FramesOfPrefix(s, w.c.log, k);
      }
    }
  }

  /** The message number i of a writer: a finished one, or the one it is at. */
  ghost function Numbered(w: MsgWriter.MsgWriter, i: nat): Option<Message>
    reads w
  {
    if i < |w.sent| then Some(w.sent[i]) else if i == |w.sent| then w.Open() else None
  }

  lemma WireIsWritten(w: MsgWriter.MsgWriter)
    requires w.Valid() && w.c.intact
    ensures Written(w.c.log, w.c.client, w.deflate) && w.c.bw.sink.wire <= EncodeFrames(w.c.log)
  {
    hide Assemble, EncodeFrames, MsgWriter.AsNegotiated;
  }

  /** The beginning of a payload as it travels, unmasked, is the beginning of the payload. */
  lemma UnmaskPrefix(client: bool, h: Header, payload: seq<bv8>, m: nat)
    requires m <= |payload| && h.masked == !client
    ensures MsgReader.Unmasked(client, WirePayload(h, payload)[..m], h.maskKey) == payload[..m]
  {
    hide Masked;
    if h.masked {
      var wire := Masked(payload, h.maskKey);
      MaskedTwice(payload, h.maskKey);
      MaskedAppend(wire[..m], wire[m..], h.maskKey);
      Split(wire, m);
    }
  }

  /**
   What a reader in the middle of anything holds, in terms of the frames written: those it has taken
   mean the messages it has received and, if it is within one, a message that goes on behind what has
   been delivered for exactly the rest of the current frame.
   */
  lemma HeldIsWritten(log: seq<Frame>, deflate: bool, r: MsgReader.MsgReader) returns (full: Message)
    requires Written(log, !r.c.client, deflate) && r.Valid() && r.sound && r.c.Data() <= EncodeFrames(log)
    ensures r.frames <= |log|
    ensures r.reading ==> Assemble(log[..r.frames]) == Settle(r.received, full, r.fin)
    ensures !r.reading ==> Assemble(log[..r.frames]) == Assembly(r.received, None)
    ensures Extends(Message(r.typ, r.flate, r.delivered), full)
    ensures |full.payload| == |r.delivered| + r.payloadLength
  {
    hide FirstFrames, Assemble, Feed, Settle, EncodeFrames, ParseHeader, MsgReader.Unmasked, MsgReader.PeerMasksRight;
    if r.payloadLength == 0 {
      full := Message(r.typ, r.flate, r.delivered);
      FramesOfPrefix(r.c.Data(), log, r.frames);
    } else {
      full := PartHeld(log, deflate, r);
    }
  }

  lemma PartHeld(log: seq<Frame>, deflate: bool, r: MsgReader.MsgReader) returns (full: Message)
    requires Written(log, !r.c.client, deflate) && r.Valid() && r.sound && r.c.Data() <= EncodeFrames(log)
    requires r.payloadLength > 0
    ensures 0 < r.frames <= |log| && r.reading
    ensures Assemble(log[..r.frames]) == Settle(r.received, full, r.fin)
    ensures Extends(Message(r.typ, r.flate, r.delivered), full)
    ensures |full.payload| == |r.delivered| + r.payloadLength
  {
    hide FirstFrames, Assemble, Feed, Settle, EncodeFrames, ParseHeader, WirePayload;
    hide MsgReader.Unmasked, MsgReader.PeerMasksRight;
    var s, k, place, at := r.c.Data(), r.frames - 1, r.place, r.c.Pos();
    FramesOfPrefix(s, log, k);
    OneMoreIsWritten(s, log, k, place.start);
    NextWritten(s, log, k, place.start);
    PartWritten(s, log, k, place.start, place.from, at);
    var payload := log[k].payload;
    UnmaskPrefix(r.c.client, log[k].h, payload, at - place.from);
    assert log[..k + 1] == log[..k] + [log[k]];
    AssembleSnoc(log[..k], log[k]);
    assert log[k] == Frame(place.head, payload);
    full := Message(r.typ, r.flate, place.base + payload);
    assert Feed(Assemble(log[..k]), Frame(place.head, payload)) == Settle(r.received, full, r.fin);
    assert place.base + payload[..at - place.from] <= place.base + payload;
  }

  /**
   At any time, whatever the writes, masking keys, control frames in between and read sizes were, and
   however much of the last frame has arrived: the messages received are the first ones sent, and
   what has been returned of the current one is the beginning of the one sent in its place, with the
   same type and compression; in its last frame, exactly the rest of the frame is missing.
   */
  lemma ReceivedIsSent(w: MsgWriter.MsgWriter, r: MsgReader.MsgReader)
    requires w.Valid() && w.c.intact && r.Valid() && r.sound && w.c.client == !r.c.client
    requires r.c.Data() <= w.c.bw.sink.wire
    ensures r.received <= w.sent
    ensures r.reading ==>
      && Numbered(w, |r.received|).Some?
      && Extends(Message(r.typ, r.flate, r.delivered), Numbered(w, |r.received|).value)
    ensures r.reading && r.fin ==>
      |r.received| < |w.sent| && |w.sent[|r.received|].payload| == |r.delivered| + r.payloadLength
  {
    hide FirstFrames, Assemble, EncodeFrames, Written, MsgReader.MsgReader.Valid, MsgWriter.AsNegotiated;
    WireIsWritten(w);
    assert Assemble(w.c.log) == Assembly(w.sent, w.Open());
    hide MsgWriter.MsgWriter.Valid, MsgWriter.MsgWriter.Open;
    var full := HeldIsWritten(w.c.log, w.deflate, r);
    AssembleContinues(w.c.log, r.frames);
  }

  /** The message that has just been read to its end is the next one sent, byte for byte. */
  lemma CompletedIsSent(w: MsgWriter.MsgWriter, r: MsgReader.MsgReader, before: seq<Message>)
    requires w.Valid() && w.c.intact && r.Valid() && r.sound && w.c.client == !r.c.client
    requires r.c.Data() <= w.c.bw.sink.wire
    requires r.Completed(before)
    ensures |before| < |w.sent| && before <= w.sent && w.sent[|before|] == Message(r.typ, r.flate, r.delivered)
    ensures !r.flate ==> r.returned == w.sent[|before|].payload
    ensures r.flate ==> r.returned == w.sent[|before|].payload + DEFLATE_MESSAGE_TAIL
  {
    hide FirstFrames, Assemble, EncodeFrames, MsgReader.PeerMasksRight, MsgWriter.MsgWriter.Valid;
    hide MsgReader.MsgReader.Valid;
    ReceivedIsSent(w, r);
    assert r.received[|before|] == Message(r.typ, r.flate, r.delivered);
    assert r.returned == r.delivered || r.flate;
  }

  /** A reader that has used up everything an idle writer wrote has received every message. */
  lemma EverythingReceived(w: MsgWriter.MsgWriter, r: MsgReader.MsgReader)
    requires w.Valid() && w.c.intact && w.Open().None? && r.Valid() && r.sound && !r.reading
    requires r.c.Data() == w.c.bw.sink.wire == w.c.bw.Stream() && r.c.Pos() == |r.c.Data()|
    ensures r.received == w.sent
  {
    hide Assemble, EncodeFrames, MsgReader.PeerMasksRight;
    var s := r.c.Data();
    FramesOfPrefix(s, w.c.log, r.frames);
    if r.frames < |w.c.log| {
      FirstFramesWritten(w.c.log, [], |w.c.log|);
      assert s + [] == s && w.c.log[..|w.c.log|] == w.c.log;
      FirstFramesMonotone(s, r.frames, |w.c.log|);
      assert false;
    }
    assert w.c.log[..r.frames] == w.c.log;
  }

  // ---- What was sent is accepted ----

  /** The two ends of one connection: opposite roles, the same compression, and data from one to the other. */
  ghost predicate Connected(w: MsgWriter.MsgWriter, r: MsgReader.MsgReader)
    reads w, w.c, w.c.bw, w.c.bw.slab, w.c.bw.sink, r, r.c, r.c.br, r.c.br.source, r.c.br.buffer
  {
    && w.Valid() && w.c.intact && r.Valid() && r.Limited()
    && w.c.client == !r.c.client && w.deflate == r.c.deflate && r.c.Data() <= w.c.bw.sink.wire
  }

  /**
   A reader in step with its stream never blames the peer: if every control frame sent was at most
   125 bytes long and every close frame well-formed, what stops it is the transport or the end of
   the connection.
   */
  lemma AcceptedByPeer(w: MsgWriter.MsgWriter, r: MsgReader.MsgReader, e: Error)
    requires Connected(w, r) && MsgWriter.ControlsFit(w.c.log) && r.Excused(e, true)
    ensures r.c.Excuse(e)
  {
    WireIsWritten(w);
    PrefixAccepted(r.c.Data(), w.c.log, r.c.client, w.deflate);
  }

  /** A reader that found a message too big has been sent one that is longer than allowed. */
  lemma TooBigWasSent(w: MsgWriter.MsgWriter, r: MsgReader.MsgReader)
    requires Connected(w, r) && r.sound && r.TooBig()
    ensures Numbered(w, |r.received|).Some? && |Numbered(w, |r.received|).value.payload| > r.allowed
  {
    hide MsgReader.MsgReader.Valid, MsgWriter.MsgWriter.Valid;
    ReceivedIsSent(w, r);
  }

  // ---- What has arrived is received ----

  /** The whole frames of s complete more than n messages. */
  ghost predicate Arrived(s: seq<bv8>, n: nat) {
    exists k: nat :: FirstFrames(s, k).Some? && CompleteMoreThan(FirstFrames(s, k).value.frames, n)
  }

  ghost predicate CompleteMoreThan(fs: seq<Frame>, n: nat) {
    Assemble(fs).Assembly? && |Assemble(fs).done| > n
  }

  /** A reader that has run dry inside a message has not been delivered the rest of it. */
  lemma DryMeansMissing(log: seq<Frame>, deflate: bool, r: MsgReader.MsgReader)
    requires Written(log, !r.c.client, deflate) && r.c.Data() <= EncodeFrames(log)
    requires r.Valid() && !r.sound && r.RanDry() && r.Unfinished() && r.c.br.Buffered() == 0
    ensures !Arrived(r.c.Data()[..r.c.br.source.pos], |r.received|)
  {
    var s, more, t := r.c.Data()[..r.c.br.source.pos], r.c.Data()[r.c.br.source.pos..], r.track;
    DryIs(r, s, more);
    hide *;
    forall k: nat | FirstFrames(s, k).Some?
      ensures !CompleteMoreThan(FirstFrames(s, k).value.frames, |r.received|)
    {
      NoneMissing(s, more, log, t.k, t.at, r.received, k);
    }
    NotArrived(s, |r.received|);
  }

  lemma NotArrived(s: seq<bv8>, n: nat)
    requires forall k: nat :: FirstFrames(s, k).Some? ==> !CompleteMoreThan(FirstFrames(s, k).value.frames, n)
    ensures !Arrived(s, n)
  {
    hide FirstFrames, CompleteMoreThan;
  }

  /** Where a reader that has run dry stands in what it has been delivered. */
  lemma DryIs(r: MsgReader.MsgReader, s: seq<bv8>, more: seq<bv8>)
    requires r.Valid() && !r.sound && r.RanDry() && r.Unfinished() && r.c.br.Buffered() == 0
    requires s == r.c.Data()[..r.c.br.source.pos] && more == r.c.Data()[r.c.br.source.pos..]
    ensures
      var t := r.track;
      && s + more == r.c.Data() && IsBoundary(s + more, t.k, t.at) && t.at <= |s| && ParseFrame(s[t.at..]).NoFrame?
      && MsgReader.Holds(Assemble(FirstFrames(s + more, t.k).value.frames), r.received)
  {
    hide Assemble, ParseFrame, FirstFrames, IsBoundary, MsgReader.Holds, ParseHeader, MsgReader.PeerMasksRight;
    var t := r.track;
    assert r.c.Data() == s + more && r.c.Pos() == |s| && s[t.at..] == r.c.Data()[t.at..|s|];
  }

  lemma NoneMissing(s: seq<bv8>, more: seq<bv8>, log: seq<Frame>, last: nat, at: nat, done: seq<Message>, k: nat)
    requires s + more <= EncodeFrames(log) && forall i :: 0 <= i < |log| ==> log[i].Valid()
    requires IsBoundary(s + more, last, at) && at <= |s| && ParseFrame(s[at..]).NoFrame?
    requires MsgReader.Holds(Assemble(FirstFrames(s + more, last).value.frames), done)
    requires FirstFrames(s, k).Some?
    ensures k <= last && !CompleteMoreThan(FirstFrames(s, k).value.frames, |done|)
  {
    hide Assemble, EncodeFrames, ParseFrame, FirstFrames;
    FirstFramesArrived(s, more, last);
    NoneBehind(s, last, at);
    if k > last {
      FirstFramesMonotone(s, last + 1, k);
    }
    FirstFramesMonotone(s, k, last);
    AssembleContinues(FirstFrames(s, last).value.frames, k);
  }

  lemma NoneBehind(s: seq<bv8>, last: nat, at: nat)
    requires IsBoundary(s, last, at) && ParseFrame(s[at..]).NoFrame?
    ensures FirstFrames(s, last + 1).None?
  {
    hide ParseFrame;
  }

  /** A message read to its end has been delivered. */
  lemma CompleteMeansArrived(r: MsgReader.MsgReader, n: nat)
    requires r.Valid() && r.sound && !r.reading && |r.received| > n
    ensures Arrived(r.c.Data()[..r.c.br.source.pos], n)
  {
    var s, more := r.c.Data()[..r.c.br.source.pos], r.c.Data()[r.c.br.source.pos..];
    assert r.c.Data() == s + more && r.c.Pos() <= |s|;
    hide Assemble, FirstFrames;
    FirstFramesArrived(s, more, r.frames);
    assert CompleteMoreThan(FirstFrames(s, r.frames).value.frames, n);
  }

  /** Nothing has failed, and the last message has been read to its end. */
  ghost predicate InStep(r: MsgReader.MsgReader)
    reads r
  {
    r.sound && r.fin && r.payloadLength == 0
  }

  /** The bytes that Conn.Read returns for a message: its payload, and for a compressed one the marker. */
  function Read(m: Message): seq<bv8> {
    m.payload + if m.compressed then DEFLATE_MESSAGE_TAIL else []
  }

  /**
   Conn.Read at one end against everything written at the other, message after message, each read to
   its end. Without an error it returns the next message sent, byte for byte, if and only if the
   transport has delivered all of that message; if not, the transport has reported an end. It fails
   only because of the transport or the end of the connection, or because the message being received
   is longer than allowed.
   */
  method ReceiveNext(w: MsgWriter.MsgWriter, r: MsgReader.MsgReader)
    returns (opcode: bv8, b: seq<bv8>, e: Option<Error>)
    requires Connected(w, r) && MsgWriter.ControlsFit(w.c.log)
    requires InStep(r)
    requires w.c.bw.slab !in {r.c.br.buffer, r.c.headerBuf, r.c.controlBuf}
    modifies r, r.c, r.c.br, r.c.br.source, r.c.br.buffer, r.c.headerBuf, r.c.controlBuf
    ensures Connected(w, r)
    ensures e.None? ==>
      var n := |old(r.Through())|;
      if Arrived(r.c.Data()[..r.c.br.source.pos], n) then
        && n < |w.sent| && r.Through() == w.sent[..n + 1] && InStep(r)
        && w.sent[n].opcode == opcode && b == Read(w.sent[n]) && (!r.flate && r.allowed >= 0 ==> |b| <= r.allowed)
      else
        r.EndReported()
    ensures e.Some? ==>
      || r.c.Excuse(e.value)
      || (e == Some(MessageTooBig)
          && Numbered(w, |r.received|).Some? && |Numbered(w, |r.received|).value.payload| > r.allowed)
  {
    hide MsgWriter.MsgWriter.Valid, MsgWriter.ControlsFit, MsgReader.MsgReader.Valid, Arrived;
    hide MsgReader.MsgReader.EndReported, MsgReader.MsgReader.Excused, FrameReader.Conn.Excuse;
    ghost var before := r.Through();
    opcode, b, e := r.ReadMessage();
    if e.None? {
      if r.sound {
        BetweenMessages(r);
        CompletedIsSent(w, r, before);
        CompleteMeansArrived(r, |before|);
        assert b + [] == b;
      } else {
        EndedInside(w, r);
      }
    } else {
      r.AheadIsNat();
      if r.Excused(e.value, true) {
        AcceptedByPeer(w, r, e.value);
      } else {
        TooBigWasSent(w, r);
      }
    }
  }

  lemma EndedInside(w: MsgWriter.MsgWriter, r: MsgReader.MsgReader)
    requires Connected(w, r) && !r.sound && r.EndReported() && r.RanDry()
    ensures !Arrived(r.c.Data()[..r.c.br.source.pos], |r.received|)
  {
    hide MsgWriter.MsgWriter.Valid, Arrived, Written;
    WireIsWritten(w);
    DryMeansMissing(w.c.log, w.deflate, r);
  }

  lemma BetweenMessages(r: MsgReader.MsgReader)
    requires r.Valid() && r.sound && !r.reading
    ensures InStep(r)
  {
  }
}
