/** What a reader may refuse of the frames a writer has sent: control frames that do not fit, and nothing else. */
module Acceptance {
  import opened Frame
  import opened FrameStream
  import opened Messages
  import opened Seqs
  import FrameReader
  import MsgWriter

  /** Frames as a message writer of the given role leaves them on the stream. */
  ghost predicate Written(log: seq<Frame>, client: bool, deflate: bool) {
    && (forall i :: 0 <= i < |log| ==>
          log[i].Valid() && log[i].h.masked == client && !log[i].h.rsv2 && !log[i].h.rsv3)
    && MsgWriter.AsNegotiated(log, deflate) && Assemble(log).Assembly?
  }

  /** In any part of a written stream, what stands where k frames end is the next frame written. */
  lemma NextWritten(s: seq<bv8>, log: seq<Frame>, k: nat, start: nat)
    requires s <= EncodeFrames(log) && k < |log| && log[k].Valid()
    requires start == |EncodeFrames(log[..k])| <= |s|
    ensures ParseHeader(s[start..]) != NegativeLength
    ensures ParseHeader(s[start..]).Parsed? ==>
      var h, n := ParseHeader(s[start..]).h, ParseHeader(s[start..]).n;
      && h == log[k].h
      && (start + n + h.payloadLength <= |s| ==>
            WirePayload(h, s[start + n..start + n + h.payloadLength]) == log[k].payload)
  {
    hide *;
    var all, f := EncodeFrames(log), log[k];
    var here, more, rest := s[start..], all[|s|..], EncodeFrames(log[k + 1..]) + [];
    assert all + [] == all && all[start..] == here + more;
    FrameAfter(log, [], k);
    WrittenHeader(f, rest);
    if ParseHeader(here) == NegativeLength {
      NegativeLengthStable(here, more);
      assert false;
    }
    if ParseHeader(here).Parsed? {
      ParseHeaderStable(here, more);
      PayloadHere(s, start, f, rest, more);
    }
  }

  lemma WrittenHeader(f: Frame, rest: seq<bv8>)
    requires f.Valid()
    ensures ParseHeader(EncodeFrame(f) + rest) == Parsed(f.h, |EncodeHeader(f.h)|)
  {
    hide ParseHeader, EncodeHeader, WirePayload, Header.Valid;
    var body := WirePayload(f.h, f.payload);
    HeaderRoundTrip(f.h, body + rest);
    Assoc(EncodeHeader(f.h), body, rest);
  }

  lemma PayloadHere(s: seq<bv8>, start: nat, f: Frame, rest: seq<bv8>, more: seq<bv8>)
    requires start <= |s| && f.Valid() && ParseHeader(s[start..]).Parsed?
    requires s[start..] + more == EncodeFrame(f) + rest
    ensures
      var h, n := ParseHeader(s[start..]).h, ParseHeader(s[start..]).n;
      start + n + h.payloadLength <= |s| ==> WirePayload(h, s[start + n..start + n + h.payloadLength]) == f.payload
  {
    hide *;
    var h, n := ParseHeader(s[start..]).h, ParseHeader(s[start..]).n;
    if start + n + h.payloadLength <= |s| {
      FrameReader.ParsedHere(s, start, h, n);
      ParseFrameStable(s[start..], more);
      FrameRoundTrip(f, rest);
    }
  }

  /** Any part of its payload that has arrived is that part of what was written. */
  lemma PartWritten(s: seq<bv8>, log: seq<Frame>, k: nat, start: nat, from: nat, at: nat)
    requires s <= EncodeFrames(log) && k < |log| && log[k].Valid() && start == |EncodeFrames(log[..k])|
    requires start <= from <= at <= |s| && at - from <= |log[k].payload|
    requires ParseHeader(s[start..]) == Parsed(log[k].h, from - start)
    ensures s[from..at] == WirePayload(log[k].h, log[k].payload)[..at - from]
  {
    hide *;
    var all, f := EncodeFrames(log), log[k];
    var rest := EncodeFrames(log[k + 1..]) + [];
    assert all + [] == all && all[start..] == s[start..] + all[|s|..];
    FrameAfter(log, [], k);
    WrittenHeader(f, rest);
    ParseHeaderStable(s[start..], all[|s|..]);
    FrameParts(f, rest);
    assert s[from..at] == all[start..][from - start..at - start];
  }

  lemma FrameParts(f: Frame, rest: seq<bv8>)
    ensures
      var head, body := EncodeHeader(f.h), WirePayload(f.h, f.payload);
      forall m :: 0 <= m <= |f.payload| ==> (EncodeFrame(f) + rest)[|head|..|head| + m] == body[..m]
  {
    hide EncodeHeader, WirePayload;
  }

  /** A written frame continues the messages before it. */
  lemma WrittenContinues(log: seq<Frame>, k: nat)
    requires k < |log| && Assemble(log).Assembly?
    ensures Feed(Assemble(log[..k]), log[k]).Assembly?
  {
    hide Feed;
    AssembleContinues(log, k + 1);
    AssembleSnoc(log[..k], log[k]);
    assert log[..k + 1] == log[..k] + [log[k]];
  }

  /** What its header alone says of a frame that continues messages. */
  lemma HeaderAccepted(a: Assembly, f: Frame, client: bool, deflate: bool)
    requires Feed(a, f).Assembly? && f.h.masked == !client && !f.h.rsv2 && !f.h.rsv3 && (f.h.rsv1 ==> deflate)
    ensures FrameReader.BadHeader(f.h, client, deflate) <==>
      IsControl(f.h.opcode) && f.h.payloadLength > MAX_CONTROL_PAYLOAD
    ensures Feed(a, Frame(f.h, [])).Assembly?
  {
  }

  /** Where a written frame starts, a reader finds something to refuse only in a control frame that does not fit. */
  lemma NothingToRefuse(s: seq<bv8>, log: seq<Frame>, client: bool, deflate: bool, k: nat, start: nat)
    requires Written(log, !client, deflate) && MsgWriter.ControlsFit(log)
    requires s <= EncodeFrames(log) && IsBoundary(s, k, start)
    ensures !FrameReader.OffendsAt(s, start, client, deflate) && !FrameReader.BreaksAt(s, k, start)
  {
    hide EncodeFrames, FirstFrames, ParseHeader, Assemble, Feed, WirePayload, FrameReader.BadHeader;
    FramesOfPrefix(s, log, k);
    if k == |log| {
      assert log[..k] == log && s[start..] == [];
      NothingParsed();
    } else {
      NextWritten(s, log, k, start);
      WrittenContinues(log, k);
      HeaderAccepted(Assemble(log[..k]), log[k], client, deflate);
    }
  }

  lemma NothingParsed()
    ensures ParseHeader([]) == Incomplete
  {
  }

  /** Where a header is found, there is a frame written. */
  lemma OneMoreIsWritten(s: seq<bv8>, log: seq<Frame>, k: nat, start: nat)
    requires s <= EncodeFrames(log) && k <= |log| && start == |EncodeFrames(log[..k])| <= |s|
    requires ParseHeader(s[start..]).Parsed?
    ensures k < |log|
  {
    hide EncodeFrames, ParseHeader;
    NothingParsed();
    assert log[..|log|] == log && s[start..] != [];
  }

  /** Any part of a written stream whose control frames fit is accepted by the peer. */
  lemma PrefixAccepted(s: seq<bv8>, log: seq<Frame>, client: bool, deflate: bool)
    requires Written(log, !client, deflate) && MsgWriter.ControlsFit(log) && s <= EncodeFrames(log)
    ensures !FrameReader.Offends(s, client, deflate)
  {
    hide *;
    forall k: nat, start: nat | IsBoundary(s, k, start)
      ensures !FrameReader.OffendsAt(s, start, client, deflate) && !FrameReader.BreaksAt(s, k, start)
    {
      NothingToRefuse(s, log, client, deflate, k, start);
    }
    NoOffence(s, client, deflate);
  }

  lemma NoOffence(s: seq<bv8>, client: bool, deflate: bool)
    requires forall k: nat, start: nat :: IsBoundary(s, k, start) ==>
      !FrameReader.OffendsAt(s, start, client, deflate) && !FrameReader.BreaksAt(s, k, start)
    ensures !FrameReader.Offends(s, client, deflate)
  {
    hide IsBoundary, FrameReader.OffendsAt, FrameReader.BreaksAt;
  }

  /** A control frame that does not fit is refused where it starts. */
  lemma MisfitRefused(log: seq<Frame>, client: bool, deflate: bool, i: nat)
    requires Written(log, !client, deflate) && i < |log|
    requires IsControl(log[i].h.opcode) && !MsgWriter.ControlFits(log[i].h.opcode, log[i].payload)
    ensures FrameReader.Offends(EncodeFrames(log), client, deflate)
  {
    hide EncodeFrames, FirstFrames, ParseHeader, Assemble, WirePayload, EncodeFrame, EncodeHeader;
    hide FrameReader.OffendsAt;
    var all, start, f := EncodeFrames(log), |EncodeFrames(log[..i])|, log[i];
    assert all + [] == all;
    FirstFramesWritten(log, [], i);
    FrameAfter(log, [], i);
    WrittenHeader(f, EncodeFrames(log[i + 1..]) + []);
    NextWritten(all, log, i, start);
    FrameInside(log, i, start);
    MisfitOffends(all, start, f, |EncodeHeader(f.h)|, client, deflate);
    assert IsBoundary(all, i, start);
  }

  lemma MisfitOffends(s: seq<bv8>, start: nat, f: Frame, n: nat, client: bool, deflate: bool)
    requires f.Valid() && start <= |s| && ParseHeader(s[start..]) == Parsed(f.h, n)
    requires start + n + f.h.payloadLength <= |s|
    requires WirePayload(f.h, s[start + n..start + n + f.h.payloadLength]) == f.payload
    requires IsControl(f.h.opcode) && !MsgWriter.ControlFits(f.h.opcode, f.payload)
    ensures FrameReader.OffendsAt(s, start, client, deflate)
  {
    hide ParseHeader, WirePayload;
  }

  lemma FrameInside(log: seq<Frame>, i: nat, start: nat)
    requires i < |log| && log[i].Valid() && start == |EncodeFrames(log[..i])| <= |EncodeFrames(log)|
    ensures start + |EncodeHeader(log[i].h)| + log[i].h.payloadLength <= |EncodeFrames(log)|
  {
    hide EncodeHeader, WirePayload;
    FrameAfter(log, [], i);
    assert EncodeFrames(log) + [] == EncodeFrames(log);
  }

  /**
   What a peer refuses of a written stream: it finds something to refuse if and only if some
   control frame is too long or a close frame with a malformed payload. Data frames, compressed
   or not, with any masking keys and any fragmentation, are never refused.
   */
  lemma RefusedExactly(log: seq<Frame>, client: bool, deflate: bool)
    requires Written(log, !client, deflate)
    ensures FrameReader.Offends(EncodeFrames(log), client, deflate) <==> !MsgWriter.ControlsFit(log)
  {
    hide EncodeFrames, Assemble, IsControl, MsgWriter.ControlFits, FrameReader.Offends, Written;
    if MsgWriter.ControlsFit(log) {
      PrefixAccepted(EncodeFrames(log), log, client, deflate);
    } else {
      var i: nat :| i < |log| && IsControl(log[i].h.opcode) && !MsgWriter.ControlFits(log[i].h.opcode, log[i].payload);
      MisfitRefused(log, client, deflate, i);
    }
  }

  /**
   writeControl does not look at the length: the peer of a connection whose frames were all
   acceptable refuses the stream with one more ping or pong if and only if its payload is longer
   than 125 bytes, and with one more close frame also if its payload is no status and reason.
   */
  lemma ControlRefused(log: seq<Frame>, f: Frame, client: bool, deflate: bool)
    requires Written(log + [f], !client, deflate) && MsgWriter.ControlsFit(log) && IsControl(f.h.opcode)
    ensures FrameReader.Offends(EncodeFrames(log + [f]), client, deflate) <==>
      |f.payload| > 125 || FrameReader.BadClose(f.h, f.payload)
  {
    hide EncodeFrames, Assemble, FrameReader.Offends, Written, MsgWriter.ControlsFit, IsControl;
    RefusedExactly(log + [f], client, deflate);
    MsgWriter.OneMoreFits(log, f);
  }
}
