/** The message reader: reassembly over frames, read sizes, the size limit and the end of a message. */
module MsgReader {
  import opened Wrappers
  import opened Mask
  import opened Frame
  import opened FrameStream
  import opened Messages
  import opened Seqs
  import Close
  import FrameReader

  /**
   What Read reports for the error, if any, that ended the read below it: a transport's EOF passes
   as the message's.
   */
  function Surface(cause: Option<Error>, fin: bool, flate: bool): Option<Error> {
    if cause == Some(EOF) || (cause == Some(UnexpectedEOF) && fin && flate) then Some(EOF) else cause
  }

  /** What a server sends is not masked; the client does not check. */
  ghost predicate PeerMasksRight(client: bool, s: seq<bv8>) {
    forall k: nat :: client && FirstFrames(s, k).Some? ==> NoneMasked(FirstFrames(s, k).value.frames)
  }

  ghost predicate NoneMasked(fs: seq<Frame>) {
    forall i :: 0 <= i < |fs| ==> !fs[i].h.masked
  }

  /** The server unmasks; the client takes the payload as it is. */
  function Unmasked(client: bool, s: seq<bv8>, key: Key): (u: seq<bv8>)
    ensures |u| == |s|
  {
    if client then s else Masked(s, key)
  }

  /** Unmasking a stretch of the stream piece by piece. */
  lemma UnmaskedSplit(client: bool, s: seq<bv8>, from: nat, n: nat, left: nat, key: Key, next: Key)
    requires n <= left && from + left <= |s| && (client || next == key.Turned(n))
    ensures Unmasked(client, s[from..from + left], key)
         == Unmasked(client, s[from..from + n], key) + Unmasked(client, s[from + n..from + left], next)
  {
    Join(s, from, from + n, from + left);
    MaskedAppend(s[from..from + n], s[from + n..from + left], key);
  }

  /** The frames mean these complete messages, and perhaps one more that is open. */
  predicate Holds(a: Assembly, done: seq<Message>) {
    a.Assembly? && a.done == done
  }

  /** A frame being read: where it starts and its payload starts, its header, what had been delivered before it. */
  datatype Place = Place(start: nat, from: nat, head: Header, base: seq<bv8>)

  /**
   What is known of the reader's position: the bookkeeping is right; or a read has failed on the way
   through the frame that starts behind k whole ones (dry: at the end of all that has come; kept:
   those frames mean the messages that are over); or the reader has left the frames of the stream.
   */
  datatype Track = Here | Stopped(k: nat, at: nat, dry: bool, kept: bool) | Astray

  class MsgReader {
    const c: FrameReader.Conn
    var fin: bool
    var payloadLength: nat
    var maskKey: Key
    var flate: bool
    var tailPos: nat
    /** What SetReadLimit was given last, and one more; negative for no limit. */
    ghost var allowed: int
    var limit: int
    var limitLeft: int
    ghost var limitHere: int
    /** Set until a read fails, or a message is abandoned before its last byte. */
    ghost var sound: bool
    /** Frames taken so far, the current one included, and where that one is. */
    ghost var frames: nat
    ghost var place: Place
    ghost var track: Track
    /** Messages read to their end; the current one: its type, its payload and everything returned. */
    ghost var received: seq<Message>
    ghost var reading: bool
    ghost var typ: bv8
    ghost var delivered: seq<bv8>
    ghost var returned: seq<bv8>

    constructor (c: FrameReader.Conn)
      requires c.Valid() && c.Pos() == 0 && PeerMasksRight(c.client, c.Data())
      ensures Valid() && Limited() && sound && received == [] && !reading && fin && payloadLength == 0
      ensures this.c == c && allowed == 32768
    {
      this.c := c;
      fin, payloadLength, maskKey, flate, tailPos := true, 0, NoKey(), false, 0;
      allowed, limit, limitLeft, limitHere := 32768, 32769, 32769, 32769;
      sound, frames, place := true, 0, Place(0, 0, Header(true, false, false, false, 0, 0, false, NoKey()), []);
      track, received, reading, typ, delivered, returned := Here, [], false, OP_TEXT, [], [];
      new;
      hide *;
      StartsAligned();
    }

    /** Before the first frame. */
    lemma StartsAligned()
      requires c.Valid() && c.Pos() == 0 && PeerMasksRight(c.client, c.Data()) && (limitHere < 0 <==> limitLeft < 0)
      requires fin && payloadLength == 0 && frames == 0 && tailPos == 0 && received == [] && !reading && track == Here
      ensures Valid()
    {
      hide PeerMasksRight, FrameReader.Conn.Valid;
    }

    /** As long as nothing has failed, the reader is inside a frame, or behind the last one taken. */
    ghost predicate Valid()
      reads `fin, `payloadLength, `maskKey, `flate, `tailPos, `limitLeft, `limitHere, `sound, `frames
      reads `place, `track, `received, `reading, `typ, `delivered, `returned
      reads c, c.br, c.br.source, c.br.buffer
    {
      && c.Valid() && Settled()
      && (if sound then track == Here && InOrder() else Tracked())
    }

    ghost predicate InOrder()
      requires c.Valid() && tailPos <= 4
      reads `fin, `payloadLength, `maskKey, `flate, `tailPos, `frames
      reads `place, `received, `reading, `typ, `delivered, `returned
      reads c, c.br, c.br.source, c.br.buffer
    {
      if payloadLength > 0 then InFrame(c.Pos(), maskKey) else Aligned()
    }

    /** Where the reader is once something has failed, whatever the frames mean. */
    ghost predicate Tracked()
      requires c.Valid()
      reads `payloadLength, `fin, `frames, `place, `track, `received, `reading, `typ, `flate, `delivered
      reads c, c.br, c.br.source, c.br.buffer
    {
      match track
      case Here => if payloadLength > 0 then InPart(c.Pos()) else IsBoundary(c.Data(), frames, c.Pos())
      case Stopped(k, at, dry, kept) =>
        && IsBoundary(c.Data(), k, at) && FrameReader.Within(c.Data(), at, c.Pos())
        && (dry ==> c.br.Buffered() == 0 && FrameReader.Short(c.Data(), at, c.Pos()))
        && (kept ==> Holds(Assemble(FirstFrames(c.Data(), k).value.frames), Over()))
      case Astray => true
    }

    /** At the given position inside a frame, as far as lengths go. */
    ghost predicate InPart(at: nat)
      reads `payloadLength, `frames, `place
    {
      && frames > 0 && IsBoundary(c.Data(), frames - 1, place.start)
      && place.start < place.from <= at <= |c.Data()|
      && ParseHeader(c.Data()[place.start..]) == Parsed(place.head, place.from - place.start)
      && at - place.from + payloadLength == place.head.payloadLength
    }

    /** The messages received, and the current one once none of its frames is left. */
    ghost function Over(): seq<Message>
      reads `payloadLength, `fin, `received, `reading, `typ, `flate, `delivered
    {
      if reading && fin && payloadLength == 0 then received + [Message(typ, flate, delivered)] else received
    }

    /** What holds even after a failure. */
    ghost predicate Settled()
      reads `fin, `payloadLength, `tailPos, `limitLeft, `limitHere
    {
      && PeerMasksRight(c.client, c.Data())
      && tailPos <= 4 && (tailPos > 0 ==> fin && payloadLength == 0)
      && (limitHere < 0 <==> limitLeft < 0)
    }

    /** The position is where the frames taken so far end, and they mean what has been delivered. */
    ghost predicate Aligned()
      requires c.Valid() && tailPos <= 4
      reads `fin, `flate, `tailPos, `frames, `received, `reading, `typ, `delivered, `returned
      reads c, c.br, c.br.source, c.br.buffer
    {
      && IsBoundary(c.Data(), frames, c.Pos())
      && Assemble(FirstFrames(c.Data(), frames).value.frames) == Meaning()
      && (reading ==> returned == delivered + (if flate then DEFLATE_MESSAGE_TAIL[..tailPos] else []))
      && (!reading ==> fin)
    }

    /** What the frames so far mean if the current message has what has been delivered. */
    ghost function Meaning(): Assembly
      reads `reading, `received, `typ, `flate, `fin, `delivered
    {
      if !reading then Assembly(received, None)
      else Settle(received, Message(typ, flate, delivered), fin)
    }

    /** At the given position inside a frame that extends the current message, whether or not all of it has come. */
    ghost predicate InFrame(at: nat, key: Key)
      reads `fin, `payloadLength, `flate, `frames, `place, `received, `reading, `typ, `delivered, `returned
    {
      && reading && returned == delivered && frames > 0
      && IsBoundary(c.Data(), frames - 1, place.start) && InPayload(at, key)
      && Takes(Assemble(FirstFrames(c.Data(), frames - 1).value.frames), place.head, place.base)
    }

    /** What has been delivered of the current frame is its payload up to the given position, unmasked. */
    ghost predicate InPayload(at: nat, key: Key)
      reads `fin, `payloadLength, `place, `delivered
    {
      && place.start < place.from <= at <= |c.Data()|
      && ParseHeader(c.Data()[place.start..]) == Parsed(place.head, place.from - place.start)
      && at - place.from + payloadLength == place.head.payloadLength && fin == place.head.fin
      && (c.client || (place.head.masked && key == place.head.maskKey.Turned(at - place.from)))
      && delivered == place.base + Unmasked(c.client, c.Data()[place.from..at], place.head.maskKey)
    }

    /** After frames that mean a, a frame with this header extends the current message. */
    ghost predicate Takes(a: Assembly, h: Header, base: seq<bv8>)
      reads `typ, `flate, `received
    {
      forall payload :: Feed(a, Frame(h, payload)) == Settle(received, Message(typ, flate, base + payload), h.fin)
    }

    /** The whole payload of a frame, unmasked as this reader does it, is the payload of the frame in the stream. */
    lemma PayloadRead(h: Header, k: nat, start: nat, from: nat, end: nat)
      requires PeerMasksRight(c.client, c.Data()) && (c.client || h.masked)
      requires start < from <= end <= |c.Data()| && end - from == h.payloadLength
      requires IsBoundary(c.Data(), k, start) && ParseHeader(c.Data()[start..]) == Parsed(h, from - start)
      ensures
        var payload := Unmasked(c.client, c.Data()[from..end], h.maskKey);
        && IsBoundary(c.Data(), k + 1, end)
        && Assemble(FirstFrames(c.Data(), k + 1).value.frames)
        == Feed(Assemble(FirstFrames(c.Data(), k).value.frames), Frame(h, payload))
    {
      hide ParseHeader, Masked, Assemble, Feed;
      FrameReader.FrameHere(c.Data(), k, start, h, from - start);
      if c.client {
        assert NoneMasked(FirstFrames(c.Data(), k + 1).value.frames);
        assert FirstFrames(c.Data(), k + 1).value.frames[k].h == h;
      }
    }

    /** With nothing left of its payload, the frame is behind the reader. */
    lemma FrameEnds(key: Key)
      requires c.Valid() && PeerMasksRight(c.client, c.Data()) && payloadLength == 0 && tailPos == 0
      requires InFrame(c.Pos(), key)
      ensures Aligned()
    {
      hide ParseHeader, FirstFrames, Assemble, Feed, Settle, Unmasked, IsBoundary, PeerMasksRight;
      PayloadRead(place.head, frames - 1, place.start, place.from, c.Pos());
      assert DEFLATE_MESSAGE_TAIL[..0] == [] && delivered + [] == delivered;
    }

    /** msgReader.setFrame, for the frame behind j whole ones that starts at `at`, whose payload starts here. */
    method StoreFrame(h: Header, ghost j: nat, ghost at: nat, ghost aligned: bool)
      requires c.Valid()
      modifies this`fin, this`payloadLength, this`maskKey, this`frames, this`place, this`track
      ensures fin == h.fin && payloadLength == h.payloadLength && maskKey == h.maskKey && frames == j + 1
      ensures place == Place(at, c.Pos(), h, delivered) && track == if aligned then Here else Astray
    {
      fin, payloadLength, maskKey := h.fin, h.payloadLength, h.maskKey;
      frames, place := j + 1, Place(at, c.Pos(), h, delivered);
      track := if aligned then Here else Astray;
    }

    /** Whatever the frame means, the reader is inside it, or behind it if it is empty. */
    lemma PartStarts(h: Header, j: nat, at: nat)
      requires c.Valid() && c.HeaderRead(h, at) && IsBoundary(c.Data(), j, at)
      requires place.start == at && place.from == c.Pos() && place.head == h
      requires frames == j + 1 && payloadLength == h.payloadLength
      ensures if payloadLength > 0 then InPart(c.Pos()) else IsBoundary(c.Data(), frames, c.Pos())
    {
      hide ParseHeader, FirstFrames, Assemble, WirePayload;
      if payloadLength == 0 {
        FrameReader.FrameHere(c.Data(), j, at, h, c.Pos() - at);
      }
    }

    /** At the start of a payload. */
    lemma PayloadStarts(h: Header, j: nat)
      requires c.Valid() && c.Pos() <= |c.Data()| && (c.client || h.masked) && reading && returned == delivered
      requires IsBoundary(c.Data(), j, place.start) && place.start < c.Pos()
      requires ParseHeader(c.Data()[place.start..]) == Parsed(h, c.Pos() - place.start)
      requires place == Place(place.start, c.Pos(), h, delivered) && frames == j + 1
      requires fin == h.fin && payloadLength == h.payloadLength && maskKey == h.maskKey
      requires Takes(Assemble(FirstFrames(c.Data(), j).value.frames), h, delivered)
      ensures InFrame(c.Pos(), maskKey)
    {
      hide ParseHeader, FirstFrames, Assemble, IsBoundary, Takes;
      assert delivered + [] == delivered;
    }

    /** Takes a data frame whose header has just been read behind j whole frames. */
    method SetFrame(h: Header, ghost j: nat, ghost at: nat, ghost aligned: bool)
      requires c.Valid() && PeerMasksRight(c.client, c.Data()) && c.HeaderRead(h, at)
      requires (c.client || h.masked) && (aligned ==> IsBoundary(c.Data(), j, at))
      requires reading && tailPos == 0 && (limitHere < 0 <==> limitLeft < 0)
      requires sound ==>
        aligned && returned == delivered && Takes(Assemble(FirstFrames(c.Data(), j).value.frames), h, delivered)
      modifies this`fin, this`payloadLength, this`maskKey, this`frames, this`place, this`track
      ensures Valid() && reading && fin == h.fin && payloadLength == h.payloadLength
      ensures track == (if aligned then Here else Astray) && frames == j + 1
    {
      hide ParseHeader, FirstFrames, Assemble, IsBoundary, PeerMasksRight, Aligned, InFrame, InPart, Takes;
      StoreFrame(h, j, at, aligned);
      if sound {
        PayloadStarts(h, j);
        if payloadLength == 0 {
          FrameEnds(maskKey);
        }
      } else if aligned {
        PartStarts(h, j, at);
      }
    }

    /** What a failed read leaves behind: no promise about messages any more, and the position it stopped at. */
    ghost method GiveUp(where: Track)
      requires c.Valid() && Settled() && !where.Here?
      requires where.Stopped? ==>
        && IsBoundary(c.Data(), where.k, where.at) && FrameReader.Within(c.Data(), where.at, c.Pos())
        && (where.dry ==> c.br.Buffered() == 0 && FrameReader.Short(c.Data(), where.at, c.Pos()))
        && (where.kept ==> Holds(Assemble(FirstFrames(c.Data(), where.k).value.frames), Over()))
      modifies this`sound, this`track
      ensures Valid() && !sound && track == where
    {
      hide Aligned, InFrame, InPart, FirstFrames, IsBoundary, Assemble, PeerMasksRight;
      hide FrameReader.Within, FrameReader.Short;
      sound, track := false, where;
    }

    /** The reader stands on a frame boundary, as far as is known. */
    ghost predicate OnTrack()
      requires c.Valid()
      reads `track, c, c.br, c.br.source, c.br.buffer
    {
      track != Astray && OnBoundary(c.Data(), c.Pos())
    }

    /** Between two frames of a message. */
    lemma WithinMessage()
      requires Valid() && reading && !fin && payloadLength == 0
      ensures c.Valid() && Settled()
      ensures sound ==>
        && IsBoundary(c.Data(), frames, c.Pos()) && returned == delivered
        && Assemble(FirstFrames(c.Data(), frames).value.frames) ==
             Assembly(received, Some(Message(typ, flate, delivered)))
    {
      hide FirstFrames, Assemble, IsBoundary, PeerMasksRight;
      assert DEFLATE_MESSAGE_TAIL[..0] == [] && delivered + [] == delivered;
    }

    /** There any continuation extends the message. */
    lemma Continues(a: Assembly, h: Header)
      requires a == Assembly(received, Some(Message(typ, flate, delivered)))
      requires h.opcode == OP_CONTINUATION && !h.rsv1
      ensures Takes(a, h, delivered)
    {
    }

    /** The transport has nothing more, and nothing else can go wrong. */
    ghost predicate AtEnd()
      reads c, c.br, c.br.source
    {
      c.br.HungUp() && c.calm && c.closeReceived.None?
    }

    /**
     Not the reader's fault; and if everything was in order, the peer's only if the stream shows it.
     At an end of the stream everything that has come is used up; a refusal has left the reader
     where refusing that frame ends.
     */
    ghost predicate Excused(e: Error, inOrder: bool)
      requires c.Valid()
      reads `track, c, c.br, c.br.source, c.br.buffer
    {
      && (c.Excuse(e) || (e == ProtocolViolation && (inOrder ==> c.Offended())))
      && (e in {EOF, UnexpectedEOF} ==> c.br.Buffered() == 0 && (inOrder ==> RanDry()))
      && (e == ProtocolViolation && track.Stopped? ==> c.Excuse(e) || c.RefusalEnded(track.at))
    }

    /** The same of a search for a header, the last one looked for at `at`. */
    ghost predicate Blamed(e: Error, inOrder: bool, at: nat)
      requires c.Valid()
      reads c, c.br, c.br.source, c.br.buffer
    {
      && (c.Excuse(e) || (e == ProtocolViolation && (inOrder ==> c.Offended())))
      && c.Left(e, at) && (e == ProtocolViolation ==> c.Excuse(e) || c.RefusalEnded(at))
    }

    /** After how many frames the reader stands, if it is on a boundary. */
    lemma Standing() returns (aligned: bool, k: nat)
      requires Valid()
      ensures aligned == OnTrack() && (aligned ==> IsBoundary(c.Data(), k, c.Pos()))
      ensures sound ==> (aligned <==> payloadLength == 0) && (aligned ==> k == frames)
    {
      hide FirstFrames, Assemble, Unmasked, PeerMasksRight, ParseHeader, Takes;
      if sound {
        ParseStartsOnBoundary();
        aligned, k := payloadLength == 0, frames;
      } else {
        aligned := OnTrack();
        k :| aligned ==> IsBoundary(c.Data(), k, c.Pos());
      }
    }

    /** What a failed search for a header leaves. */
    ghost function AfterSearch(aligned: bool, j: nat, at: nat, e: Error, inOrder: bool): Track {
      if aligned then Stopped(j, at, e in {EOF, UnexpectedEOF}, inOrder) else Astray
    }

    /**
     Every ping between a position behind whole frames and the j-th frame has been answered in order,
     with nothing else behind the pongs sent before.
     */
    ghost predicate Answered(pos: nat, before: seq<seq<bv8>>, j: nat)
      reads c`pongs
    {
      forall k: nat :: IsBoundary(c.Data(), k, pos) ==>
        && k <= j && FirstFrames(c.Data(), j).Some?
        && c.pongs == before + FrameReader.PingsBetween(c.Data(), k, j)
    }

    lemma AnswersAll(pos: nat, before: seq<seq<bv8>>, k: nat, j: nat)
      requires IsBoundary(c.Data(), k, pos) && k <= j && FirstFrames(c.Data(), j).Some?
      requires c.pongs == before + FrameReader.PingsBetween(c.Data(), k, j)
      ensures Answered(pos, before, j)
    {
      hide IsBoundary, FirstFrames, FrameReader.PingsBetween;
      forall i: nat | IsBoundary(c.Data(), i, pos)
        ensures i == k
      {
        FrameStream.OneBoundary(c.Data(), i, k, pos);
      }
    }

    /** The next frame of the current message. */
    method NextFrame() returns (e: Option<Error>)
      requires Valid() && reading && !fin && payloadLength == 0
      modifies this`fin, this`payloadLength, this`maskKey, this`frames, this`place, this`sound, this`track
      modifies c, c.br, c.br.source, c.br.buffer, c.headerBuf, c.controlBuf
      ensures Valid() && (sound ==> old(sound)) && c.Pos() >= old(c.Pos())
      ensures e.None? ==> sound == old(sound) && c.Pos() > old(c.Pos())
      ensures e.None? ==> track == if old(OnTrack()) then Here else Astray
      ensures e.Some? ==> !sound && fin == old(fin) && (if old(OnTrack()) then track.Stopped? else track.Astray?)
      ensures e.Some? ==> Excused(e.value, old(sound))
      ensures old(AtEnd()) ==> e == Some(EOF)
      ensures e.None? && old(OnTrack()) ==> frames > 0 && Answered(old(c.Pos()), old(c.pongs), frames - 1)
      ensures e.Some? && old(OnTrack()) ==> Answered(old(c.Pos()), old(c.pongs), track.k)
    {
      hide Valid, Aligned, InFrame, InPart, AtEnd, FirstFrames, IsBoundary, Assemble, PeerMasksRight, ParseHeader;
      hide Takes, FrameReader.Conn.HeaderRead, FrameReader.Conn.Valid, FrameReader.Conn.Excuse, OnTrack;
      ReaderIsValid();
      WithinMessage();
      ghost var aligned, k := Standing();
      ghost var pos, pongs := c.Pos(), c.pongs;
      ghost var open := Assembly(received, Some(Message(typ, flate, delivered)));
      var h;
      ghost var j, at;
      h, e, j, at := FindContinuation(k, open, sound);
      if aligned {
        AnswersAll(pos, pongs, k, j);
      }
      if e.Some? {
        GiveUp(AfterSearch(aligned, j, at, e.value, sound));
        return;
      }
      if sound {
        Continues(open, h);
      }
      SetFrame(h, j, at, aligned);
    }

    /** Waits for a data frame that is a continuation, with a message open. */
    method FindContinuation(ghost k: nat, ghost a: Assembly, ghost inOrder: bool)
      returns (h: Header, e: Option<Error>, ghost j: nat, ghost at: nat)
      requires c.Valid()
      requires inOrder ==>
        && IsBoundary(c.Data(), k, c.Pos()) && Assemble(FirstFrames(c.Data(), k).value.frames) == a
        && a.Assembly? && a.open.Some?
      modifies c, c.br, c.br.source, c.br.buffer, c.headerBuf, c.controlBuf
      ensures c.Valid() && old(c.Pos()) <= c.Pos() <= |c.Data()| && (e.Some? ==> Blamed(e.value, inOrder, at))
      ensures e.None? ==>
        && c.Pos() > old(c.Pos()) && c.HeaderRead(h, at)
        && (c.client || h.masked) && h.opcode == OP_CONTINUATION && !h.rsv1
      ensures IsBoundary(c.Data(), k, old(c.Pos())) ==>
        && j >= k && IsBoundary(c.Data(), j, at) && FirstFrames(c.Data(), j).Some?
        && c.pongs == old(c.pongs) + FrameReader.PingsBetween(c.Data(), k, j)
      ensures inOrder ==> FirstFrames(c.Data(), j).Some? && Assemble(FirstFrames(c.Data(), j).value.frames) == a
      ensures old(AtEnd()) ==> e == Some(EOF)
    {
      hide FirstFrames, Assemble, ParseHeader, FrameReader.Conn.DataAhead, FrameReader.Conn.BadAhead;
      hide FrameReader.Conn.CloseAhead, FrameReader.Conn.Offended, FrameReader.Conn.Valid, FrameReader.Conn.Excuse;
      hide FrameReader.OffendsAt, FrameReader.Within, FrameReader.Short;
      h, e, j, at := c.ReadLoop(k);
      if e.Some? {
        RefusalShows(e.value, j, at, inOrder);
      } else if h.opcode != OP_CONTINUATION {
        e := Some(ProtocolViolation);
        Misplaced(h, at);
        if inOrder {
          Breaks(h, j, at);
        }
      }
    }

    /** What is refused behind whole frames offends. */
    lemma RefusalShows(e: Error, j: nat, at: nat, inOrder: bool)
      requires c.Valid() && c.Left(e, at) && (c.Excuse(e) || (e == ProtocolViolation && c.Refused(at)))
      requires inOrder ==> IsBoundary(c.Data(), j, at)
      ensures Blamed(e, inOrder, at)
    {
      hide IsBoundary, FrameReader.Conn.Excuse, ParseHeader, FrameReader.BadHeader;
    }

    /** A data frame that is refused for its place is left behind its header. */
    lemma Misplaced(h: Header, at: nat)
      requires c.Valid() && c.HeaderRead(h, at) && FrameReader.DataOpcode(h.opcode)
      ensures c.Left(ProtocolViolation, at) && c.RefusalEnded(at)
    {
      hide ParseHeader, FrameReader.BadHeader;
    }

    /** Unmasks p[lo..hi] in place on the server and turns the key. */
    method Unmask(p: array<bv8>, lo: nat, hi: nat)
      requires lo <= hi <= p.Length
      modifies this`maskKey, p
      ensures p[lo..hi] == Unmasked(c.client, old(p[lo..hi]), old(maskKey))
      ensures p[..lo] == old(p[..lo]) && p[hi..] == old(p[hi..])
      ensures c.client || maskKey == old(maskKey).Turned(hi - lo)
    {
      if !c.client {
        maskKey := MaskGo(p, lo, hi, maskKey);
      }
    }

    /**
     How a read of payload ends: an error is the transport's or a closed connection's; at the end of
     the stream it is EOF; with the bytes buffered there is none, and `left` bytes stay buffered.
     */
    ghost predicate Settles(e: Option<Error>, atEnd: bool, served: bool, left: int, ended: bool)
      requires c.Valid()
      reads c, c.br, c.br.source, c.br.buffer
    {
      && (e.Some? ==> c.Excuse(e.value))
      && (e in {Some(EOF), Some(UnexpectedEOF)} ==> c.br.Buffered() == 0)
      && (atEnd ==> e == Some(EOF))
      && (served ==> e.None? && c.br.Buffered() == left)
      && (ended ==> c.br.Ended())
    }

    /** Reads and unmasks exactly the next m payload bytes. */
    method FetchPiece(p: array<bv8>, lo: nat, m: nat) returns (n: nat, e: Option<Error>)
      requires c.Valid() && lo + m <= p.Length && p != c.br.buffer
      modifies this`maskKey, c.br, c.br.source, c.br.buffer, p
      ensures c.Valid() && p[..lo] == old(p[..lo]) && p[lo + m..] == old(p[lo + m..]) && n <= m
      ensures old(c.Pos()) <= c.Pos() <= |c.Data()| && c.Pos() <= old(c.Pos()) + m
      ensures e in {Some(EOF), Some(UnexpectedEOF)} ==> c.Pos() < old(c.Pos()) + m
      ensures e.None? ==>
        && n == m && c.Pos() == old(c.Pos()) + m && (c.client || maskKey == old(maskKey).Turned(m))
        && p[lo..lo + m] == Unmasked(c.client, c.Data()[old(c.Pos())..c.Pos()], old(maskKey))
      ensures Settles(e, old(AtEnd()) && m > 0, old(c.Served(m)), old(c.br.Buffered()) - m, old(c.br.Ended()))
    {
      hide Unmasked, FrameReader.Conn.Valid, FrameReader.Conn.Excuse, FrameReader.Conn.Served;
      n, e := c.ReadFramePayload(p, lo, lo + m);
      if e.None? {
        Unmask(p, lo, lo + m);
      }
    }

    lemma BufferIsValid()
      requires c.Valid()
      ensures c.br.Valid()
    {
    }

    lemma ReaderIsValid()
      requires Valid()
      ensures c.br.Valid()
    {
    }

    /** The next m payload bytes, read and accounted for. */
    method TakePiece(p: array<bv8>, lo: nat, m: nat) returns (n: nat, e: Option<Error>)
      requires Valid() && reading && 0 < payloadLength && m <= payloadLength && lo + m <= p.Length && p != c.br.buffer
      modifies this`payloadLength, this`maskKey, this`sound, this`track, this`delivered, this`returned, c.br
      modifies c.br.source, c.br.buffer, p
      ensures Valid() && p[..lo] == old(p[..lo]) && p[lo + m..] == old(p[lo + m..]) && c.Pos() >= old(c.Pos())
      ensures e.Some? ==> !sound && n <= m
      ensures e.None? ==> n == m && sound == old(sound) && c.Pos() == old(c.Pos()) + n
      ensures e.None? ==> delivered == old(delivered) + p[lo..lo + m] && returned == old(returned) + p[lo..lo + m]
      ensures Settles(e, old(AtEnd()) && m > 0, old(c.Served(m)), old(c.br.Buffered()) - m, old(c.br.Ended()))
      ensures e.Some? ==> Excused(e.value, old(sound)) && payloadLength == old(payloadLength)
    {
      hide Unmasked, PeerMasksRight, InFrame, InPart, Aligned, FrameReader.Conn.Excuse, FrameReader.Conn.Served;
      hide FirstFrames, Assemble, IsBoundary, FrameReader.Within, FrameReader.Short, FrameReader.Conn.Valid, Key.Turned;
      hide ParseHeader, AtEnd;
      ReaderIsValid();
      ghost var at, key := c.Pos(), maskKey;
      n, e := FetchPiece(p, lo, m);
      if e.Some? {
        if sound {
          FrameHolds(at, key);
        }
        if track.Here? {
          StopsInPayload(at, m, e.value);
        }
        ghost var dry := e.value in {EOF, UnexpectedEOF};
        GiveUp(if track.Here? then Stopped(frames - 1, place.start, dry, sound) else Astray);
        return;
      }
      PieceTaken(p[lo..lo + m], m, at, key);
    }

    /** A frame that extends the current message is part of the stream; those before it mean the messages received. */
    lemma FrameHolds(at: nat, key: Key)
      requires InFrame(at, key)
      ensures InPart(at) && FirstFrames(c.Data(), frames - 1).Some?
      ensures Holds(Assemble(FirstFrames(c.Data(), frames - 1).value.frames), received)
    {
      hide FirstFrames, Assemble, ParseHeader, Unmasked;
      TakesMeans(Assemble(FirstFrames(c.Data(), frames - 1).value.frames), place.head, place.base);
    }

    lemma TakesMeans(a: Assembly, h: Header, base: seq<bv8>)
      requires Takes(a, h, base)
      ensures Holds(a, received)
    {
      var m, n := Message(typ, flate, base + []), Message(typ, flate, base + [0]);
      assert Feed(a, Frame(h, [])) == Settle(received, m, h.fin);
      assert Feed(a, Frame(h, [0])) == Settle(received, n, h.fin);
      assert |n.payload| != |m.payload|;
      if IsControl(h.opcode) {
        if a.Assembly? && h.fin && !h.rsv1 {
          SameSettled(received, m, received, n, h.fin);
        }
      } else if a.Assembly? {
        var first := Message(h.opcode, h.rsv1, []);
        var longer := if a.open.Some? then a.open.value.(payload := a.open.value.payload + []) else first;
        SameSettled(received, m, a.done, if h.opcode == OP_CONTINUATION then longer else first, h.fin);
      }
    }

    static lemma SameSettled(done: seq<Message>, m: Message, done': seq<Message>, m': Message, fin: bool)
      requires Settle(done, m, fin) == Settle(done', m', fin)
      ensures done == done' && m == m'
    {
      assert (done + [m])[..|done|] == done && (done' + [m'])[..|done'|] == done';
      assert (done + [m])[|done|] == m && (done' + [m'])[|done'|] == m';
    }

    /** A failure while a piece of m bytes is read. */
    lemma StopsInPayload(at: nat, m: nat, e: Error)
      requires c.Valid() && InPart(at) && m <= payloadLength && at <= c.Pos() <= |c.Data()| && c.Pos() <= at + m
      requires e in {EOF, UnexpectedEOF} ==> c.Pos() < at + m
      ensures frames > 0 && IsBoundary(c.Data(), frames - 1, place.start)
      ensures FrameReader.Within(c.Data(), place.start, c.Pos())
      ensures e in {EOF, UnexpectedEOF} ==> FrameReader.Short(c.Data(), place.start, c.Pos())
    {
      hide FirstFrames, ParseHeader, ParseFrame, IsBoundary;
      if c.Pos() < at + m {
        FrameReader.PayloadCut(c.Data(), place.start, c.Pos(), place.head, place.from - place.start);
      }
    }

    /** One more piece of the current frame's payload. */
    lemma PieceAdds(piece: seq<bv8>, at: nat, m: nat, key: Key, next: Key)
      requires InPayload(at, key) && m <= payloadLength && at + m <= |c.Data()| && (c.client || next == key.Turned(m))
      requires piece == Unmasked(c.client, c.Data()[at..at + m], key)
      ensures c.client || next == place.head.maskKey.Turned(at + m - place.from)
      ensures delivered + piece == place.base + Unmasked(c.client, c.Data()[place.from..at + m], place.head.maskKey)
    {
      hide Unmasked, ParseHeader;
      var n := at - place.from;
      TurnedAdds(place.head.maskKey, n, m);
      UnmaskedSplit(c.client, c.Data(), place.from, n, n + m, place.head.maskKey, key);
      Assoc(place.base, Unmasked(c.client, c.Data()[place.from..at], place.head.maskKey), piece);
    }

    /** Up to hi - lo payload bytes of the current frame. */
    method ReadPiece(p: array<bv8>, lo: nat, hi: nat) returns (n: nat, e: Option<Error>)
      requires Valid() && reading && payloadLength > 0 && lo <= hi <= p.Length && p != c.br.buffer
      modifies this`payloadLength, this`maskKey, this`sound, this`track, this`delivered, this`returned, c.br
      modifies c.br.source, c.br.buffer, p
      ensures Valid() && p[..lo] == old(p[..lo]) && p[hi..] == old(p[hi..]) && c.Pos() >= old(c.Pos())
      ensures e.Some? ==> !sound && n <= hi - lo
      ensures e.None? ==> n <= hi - lo && (lo < hi ==> n > 0) && sound == old(sound) && p[lo + n..] == old(p[lo + n..])
      ensures e.None? ==> c.Pos() == old(c.Pos()) + n
      ensures e.None? ==> delivered == old(delivered) + p[lo..lo + n] && returned == old(returned) + p[lo..lo + n]
      ensures
        var m := Min(hi - lo, old(payloadLength));
        && (e.None? ==> n == m)
        && Settles(e, old(AtEnd()) && lo < hi, old(c.Served(m)), old(c.br.Buffered()) - m, old(c.br.Ended()))
      ensures e.Some? ==> Excused(e.value, old(sound)) && payloadLength == old(payloadLength)
    {
      hide FirstFrames, Assemble, PeerMasksRight, Valid, Settled, Settles, Excused, FrameReader.Conn.Valid;
      hide FrameReader.Conn.Served;
      var m := if hi - lo > payloadLength then payloadLength else hi - lo;
      n, e := TakePiece(p, lo, m);
      Tail(p[..], old(p[..]), lo + m, hi);
    }

    static lemma Tail<T>(s: seq<T>, before: seq<T>, i: nat, j: nat)
      requires i <= j <= |s| == |before| && s[i..] == before[i..]
      ensures s[j..] == before[j..]
    {
      assert s[j..] == s[i..][j - i..] && before[j..] == before[i..][j - i..];
    }

    /** Accounts for a piece of m bytes that has just been read at a position. */
    method PieceTaken(ghost piece: seq<bv8>, m: nat, ghost at: nat, ghost key: Key)
      requires c.Valid() && Settled() && reading && 0 < payloadLength && m <= payloadLength
      requires at + m == c.Pos() <= |c.Data()| && (c.client || maskKey == key.Turned(m))
      requires piece == Unmasked(c.client, c.Data()[at..c.Pos()], key)
      requires if sound then track.Here? && InFrame(at, key) else track.Here? ==> InPart(at)
      modifies this`payloadLength, this`delivered, this`returned, this`track
      ensures Valid() && payloadLength == old(payloadLength) - m
      ensures delivered == old(delivered) + piece && returned == old(returned) + piece
    {
      hide Valid, Tracked, Takes, Unmasked, PeerMasksRight, ParseHeader, IsBoundary, FirstFrames, Assemble, Key.Turned;
      hide FrameReader.Conn.Valid;
      if track.Stopped? {
        track := Astray;
      }
      if sound {
        PieceAdds(piece, at, m, key, maskKey);
      }
      payloadLength := payloadLength - m;
      delivered := delivered + piece;
      returned := returned + piece;
      if sound {
        hide InPart;
        FrameGoesOn();
      } else {
        hide InFrame;
        PartGoesOn();
      }
    }

    lemma FrameGoesOn()
      requires c.Valid() && Settled() && sound && track.Here? && InFrame(c.Pos(), maskKey) && tailPos == 0
      ensures Valid()
    {
      hide InFrame, Aligned, PeerMasksRight;
      if payloadLength == 0 {
        FrameEnds(maskKey);
      }
    }

    lemma PartGoesOn()
      requires c.Valid() && Settled() && !sound && (track == Astray || (track.Here? && InPart(c.Pos())))
      ensures Valid()
    {
      hide InPart, PeerMasksRight;
      if track.Here? && payloadLength == 0 {
        PartEnds();
      }
    }

    /** With nothing left of its payload, the frame is behind the reader, whatever it means. */
    lemma PartEnds()
      requires c.Valid() && InPart(c.Pos()) && payloadLength == 0
      ensures IsBoundary(c.Data(), frames, c.Pos())
    {
      hide ParseHeader, FirstFrames, Assemble, WirePayload;
      FrameReader.FrameHere(c.Data(), frames - 1, place.start, place.head, place.from - place.start);
    }

    /** flateTail.Read: the four bytes the sender dropped, then the end. */
    method ReadTail(p: array<bv8>, lo: nat, hi: nat) returns (n: nat, complete: bool)
      requires Valid() && reading && fin && payloadLength == 0 && flate && lo <= hi <= p.Length
      requires p != c.br.buffer
      modifies this`tailPos, this`returned, p
      ensures Valid() && n <= hi - lo && p[..lo] == old(p[..lo]) && p[lo + n..] == old(p[lo + n..])
      ensures complete <==> old(tailPos) == 4
      ensures complete ==> n == 0 && tailPos == 4 && returned == old(returned)
      ensures !complete ==> (lo < hi ==> n > 0) && returned == old(returned) + p[lo..lo + n]
      ensures tailPos == old(tailPos) + n
    {
      complete := tailPos >= 4;
      n := 0;
      if complete {
        return;
      }
      n := if hi - lo < 4 - tailPos then hi - lo else 4 - tailPos;
      var piece := DEFLATE_MESSAGE_TAIL[tailPos..tailPos + n];
      Paste(p, lo, piece);
      ShowTail(piece);
    }

    /** Accounts for a piece of the tail. */
    method ShowTail(piece: seq<bv8>)
      requires Valid() && reading && fin && payloadLength == 0 && flate && tailPos + |piece| <= 4
      requires piece == DEFLATE_MESSAGE_TAIL[tailPos..tailPos + |piece|]
      modifies this`tailPos, this`returned
      ensures Valid() && tailPos == old(tailPos) + |piece| && returned == old(returned) + piece
    {
      hide FirstFrames, Assemble, Unmasked, PeerMasksRight, IsBoundary, Meaning;
      TailGrows(delivered, tailPos, |piece|);
      tailPos := tailPos + |piece|;
      returned := returned + piece;
    }

    static lemma TailGrows(delivered: seq<bv8>, i: nat, n: nat)
      requires i + n <= 4
      ensures delivered + DEFLATE_MESSAGE_TAIL[..i] + DEFLATE_MESSAGE_TAIL[i..i + n]
           == delivered + DEFLATE_MESSAGE_TAIL[..i + n]
    {
      Join(DEFLATE_MESSAGE_TAIL, 0, i, i + n);
      Assoc(delivered, DEFLATE_MESSAGE_TAIL[..i], DEFLATE_MESSAGE_TAIL[i..i + n]);
    }

    /** The message is over and every byte of it has been returned. */
    ghost predicate Finished()
      requires c.Valid() && tailPos <= 4
      reads `fin, `payloadLength, `maskKey, `flate, `tailPos, `frames, `place, `received, `reading, `typ
      reads `delivered, `returned
      reads c, c.br, c.br.source, c.br.buffer
    {
      && fin && payloadLength == 0 && (flate ==> tailPos == 4)
      && IsBoundary(c.Data(), frames, c.Pos())
      && Assemble(FirstFrames(c.Data(), frames).value.frames) ==
           Assembly(received + [Message(typ, flate, delivered)], None)
      && returned == delivered + (if flate then DEFLATE_MESSAGE_TAIL else [])
    }

    lemma EndReached()
      requires Valid() && reading && sound && fin && payloadLength == 0 && (flate ==> tailPos == 4)
      ensures Finished() && returned == delivered + (if flate then DEFLATE_MESSAGE_TAIL else [])
    {
      hide FirstFrames, Assemble, Unmasked, PeerMasksRight, IsBoundary;
      assert DEFLATE_MESSAGE_TAIL[..4] == DEFLATE_MESSAGE_TAIL;
    }

    /** There is something of the current frame, or nothing more of the message. */
    predicate AtHand()
      reads `payloadLength, `fin
    {
      payloadLength > 0 || fin
    }

    /** Takes frames until one has payload left or the last one has none. */
    method NextPayload() returns (e: Option<Error>)
      requires Valid() && reading
      modifies this`fin, this`payloadLength, this`maskKey, this`frames, this`place, this`sound, this`track
      modifies c, c.br, c.br.source, c.br.buffer, c.headerBuf, c.controlBuf
      ensures Valid() && (sound ==> old(sound)) && c.Pos() >= old(c.Pos())
      ensures e.Some? ==> !sound && Excused(e.value, old(sound)) && !fin
      ensures e.None? ==> sound == old(sound) && AtHand()
      ensures old(!AtHand() && AtEnd()) ==> e == Some(EOF) && fin == old(fin)
      ensures old(AtHand()) ==>
        && e.None? && payloadLength == old(payloadLength) && fin == old(fin) && unchanged(c, c.br, c.br.source)
    {
      hide FirstFrames, Assemble, PeerMasksRight, IsBoundary, Aligned, InFrame, Excused;
      e := None;
      while payloadLength == 0 && !fin
        invariant Valid() && sound == old(sound) && e.None? && c.Pos() >= old(c.Pos())
        invariant old(AtHand()) ==>
          AtHand() && payloadLength == old(payloadLength) && fin == old(fin) && unchanged(c, c.br, c.br.source)
        invariant old(!AtHand() && AtEnd()) ==> !AtHand() && AtEnd()
        decreases |c.Data()| - c.Pos()
      {
        e := NextFrame();
        if e.Some? {
          return;
        }
      }
    }

    /** Bytes of the current frame or of the tail, once NextPayload has found some, or the message's end. */
    method ReadHere(p: array<bv8>, lo: nat, hi: nat) returns (n: nat, e: Option<Error>, complete: bool)
      requires Valid() && reading && lo <= hi <= p.Length && AtHand()
      requires p != c.br.buffer && p != c.headerBuf && p != c.controlBuf
      modifies this`payloadLength, this`maskKey, this`sound, this`track, this`tailPos, this`delivered, this`returned
      modifies c.br, c.br.source, c.br.buffer, p
      ensures Valid() && n <= hi - lo && (sound ==> old(sound)) && p[..lo] == old(p[..lo]) && p[hi..] == old(p[hi..])
      ensures e.Some? ==> !sound && !complete && Excused(e.value, old(sound))
      ensures e.None? ==> sound == old(sound)
      ensures complete ==> n == 0 && returned == old(returned) && delivered == old(delivered) && (sound ==> Finished())
      ensures complete ==> fin && payloadLength == 0
      ensures e.Some? ==> Unfinished()
      ensures e.None? && !complete ==>
        && (lo < hi ==> n > 0) && returned == old(returned) + p[lo..lo + n]
        && (!flate ==> delivered == old(delivered) + p[lo..lo + n])
        && c.Pos() + tailPos == old(c.Pos() + tailPos) + n
      ensures old(payloadLength == 0) ==> e.None? && (complete <==> !flate || old(tailPos) == 4)
      ensures old(payloadLength > 0 && AtEnd()) && lo < hi ==> e == Some(EOF)
      ensures
        var m := Min(hi - lo, old(payloadLength));
        old(payloadLength > 0 && c.Served(m)) ==>
          && e.None? && !complete && n == m && c.closeReceived.None?
          && c.Pos() == old(c.Pos()) + m && c.br.Buffered() == old(c.br.Buffered()) - m
          && (old(c.br.Ended()) ==> c.br.Ended())
    {
      hide FirstFrames, Assemble, PeerMasksRight, IsBoundary, Aligned, InFrame, Finished, FrameReader.Conn.Valid;
      n, e, complete := 0, None, false;
      if payloadLength > 0 {
        n, e := ReadPiece(p, lo, hi);
        return;
      }
      if flate {
        n, complete := ReadTail(p, lo, hi);
        Tail(p[..], old(p[..]), lo + n, hi);
      } else {
        complete := true;
      }
      if complete && sound {
        EndReached();
      }
    }

    /** The message has not been used up: there is payload left, or the last frame is still to come. */
    predicate Unfinished()
      reads `payloadLength, `fin
    {
      payloadLength > 0 || !fin
    }

    /**
     The reader below the size limit: bytes of the current message, frame after frame, or the
     report that it is complete, or an error.
     */
    method ReadRaw(p: array<bv8>, lo: nat, hi: nat) returns (n: nat, e: Option<Error>, complete: bool)
      requires Valid() && reading && lo <= hi <= p.Length
      requires p != c.br.buffer && p != c.headerBuf && p != c.controlBuf
      modifies this`fin, this`payloadLength, this`maskKey, this`frames, this`place, this`sound, this`track
      modifies this`tailPos, this`delivered, this`returned
      modifies c, c.br, c.br.source, c.br.buffer, c.headerBuf, c.controlBuf, p
      ensures Valid() && n <= hi - lo && (sound ==> old(sound)) && p[..lo] == old(p[..lo]) && p[hi..] == old(p[hi..])
      ensures e.Some? ==> !sound && !complete && Excused(e.value, old(sound))
      ensures e.None? ==> sound == old(sound)
      ensures complete ==> n == 0 && returned == old(returned) && delivered == old(delivered) && (sound ==> Finished())
      ensures complete ==> fin && payloadLength == 0
      ensures e.Some? ==> Unfinished()
      ensures e.None? && !complete ==>
        && (lo < hi ==> n > 0) && returned == old(returned) + p[lo..lo + n]
        && (!flate ==> delivered == old(delivered) + p[lo..lo + n])
        && c.Pos() + tailPos >= old(c.Pos() + tailPos) + n
      ensures old(Unfinished() && AtEnd()) && lo < hi ==> e == Some(EOF)
      ensures old(!Unfinished()) ==> e.None? && (complete <==> !flate || old(tailPos) == 4)
      ensures
        var m := Min(hi - lo, old(payloadLength));
        old(payloadLength > 0 && c.Served(m)) ==>
          && e.None? && !complete && n == m && c.closeReceived.None?
          && c.Pos() == old(c.Pos()) + m && c.br.Buffered() == old(c.br.Buffered()) - m
          && (old(c.br.Ended()) ==> c.br.Ended())
    {
      hide FirstFrames, Assemble, PeerMasksRight, IsBoundary, Aligned, InFrame, Finished;
      hide FrameReader.Conn.Valid, Valid, FrameReader.Conn.Offended;
      n, complete := 0, false;
      e := NextPayload();
      if e.Some? {
        return;
      }
      n, e, complete := ReadHere(p, lo, hi);
    }

    /** The size limit counts exactly the bytes returned of an uncompressed message. */
    ghost predicate Limited()
      reads `sound, `reading, `flate, `limitHere, `limitLeft, `delivered, `allowed, `limit
    {
      && limit == (if allowed >= 0 then allowed + 1 else allowed)
      && (sound && reading && !flate && limitHere >= 0 ==> limitLeft == limitHere - |delivered|)
    }

    /** From the next message on, at most n bytes a message; -1 for no limit. One more is for the fin frame. */
    method SetReadLimit(n: int)
      requires Valid() && Limited()
      modifies this`limit, this`allowed
      ensures Valid() && Limited() && allowed == n
    {
      hide Valid;
      allowed := n;
      limit := if n >= 0 then n + 1 else n;
    }

    /** The limit of the current message is used up. */
    predicate LimitHit()
      reads `flate, `limitLeft
    {
      !flate && limitLeft == 0
    }

    /** The size limit does not stand in the way of n bytes. */
    predicate Allows(n: nat)
      reads `flate, `limitLeft
    {
      flate || limitLeft < 0 || n <= limitLeft
    }

    /** limitReader.Read: nothing once the limit is used up, and never more bytes than it leaves. */
    method ReadLimited(p: array<bv8>, lo: nat, hi: nat) returns (n: nat, e: Option<Error>, complete: bool)
      requires Valid() && Limited() && reading && lo <= hi <= p.Length
      requires p != c.br.buffer && p != c.headerBuf && p != c.controlBuf
      modifies this`fin, this`payloadLength, this`maskKey, this`frames, this`place, this`sound, this`track
      modifies this`tailPos, this`delivered, this`returned
      modifies this`limitLeft
      modifies c, c.br, c.br.source, c.br.buffer, c.headerBuf, c.controlBuf, p
      ensures Valid() && Limited() && n <= hi - lo && (sound ==> old(sound))
      ensures p[..lo] == old(p[..lo]) && p[hi..] == old(p[hi..])
      ensures complete ==> e.None? && n == 0 && sound == old(sound) && returned == old(returned)
      ensures complete ==> fin && payloadLength == 0
      ensures e.Some? ==> Unfinished() || (e == Some(MessageTooBig) && old(LimitHit()))
      ensures complete && sound ==> Finished() && (!flate && limitHere >= 0 ==> |delivered| < limitHere)
      ensures e.Some? && e != Some(MessageTooBig) ==> !sound
      ensures e == Some(MessageTooBig) && sound ==>
        !flate && limitHere >= 0 && |delivered| == limitHere && returned == old(returned) && n == 0
      ensures !complete && e.None? ==>
        && sound == old(sound) && (lo < hi ==> n > 0) && returned == old(returned) + p[lo..lo + n]
        && c.Pos() + tailPos >= old(c.Pos() + tailPos) + n
      ensures e.Some? ==>
        Excused(e.value, old(sound)) || (e == Some(MessageTooBig) && old(LimitHit()) && sound == old(sound))
      ensures lo < hi && old(Unfinished() && AtEnd() && !LimitHit()) ==> e == Some(EOF)
      ensures old(!Unfinished() && !LimitHit()) ==> e.None? && (complete <==> !flate || old(tailPos) == 4)
      ensures
        var m := Min(hi - lo, old(payloadLength));
        old(payloadLength > 0 && c.Served(m) && Allows(hi - lo)) && lo < hi ==>
          && e.None? && !complete && n == m && c.closeReceived.None?
          && c.Pos() == old(c.Pos()) + m && c.br.Buffered() == old(c.br.Buffered()) - m
          && (old(c.br.Ended()) ==> c.br.Ended())
    {
      hide FirstFrames, Assemble, PeerMasksRight, IsBoundary, Valid, Finished;
      hide FrameReader.Conn.Valid, Excused, FrameReader.Conn.Served, Min, AtEnd;
      LimitStands();
      var upTo := hi;
      if !flate && limitLeft == 0 {
        return 0, Some(MessageTooBig), false;
      }
      if !flate && 0 <= limitLeft < hi - lo {
        upTo := lo + limitLeft;
      }
      n, e, complete := ReadRaw(p, lo, upTo);
      Tail(p[..], old(p[..]), upTo, hi);
      if !flate && limitLeft >= 0 {
        Count(n);
      }
    }

    lemma LimitStands()
      requires Valid()
      ensures limitHere < 0 <==> limitLeft < 0
    {
    }

    /** n bytes less are allowed. */
    method Count(n: nat)
      requires Valid() && n <= limitLeft
      modifies this`limitLeft
      ensures Valid() && limitLeft == old(limitLeft) - n
    {
      hide InOrder, Tracked, PeerMasksRight, FrameReader.Conn.Valid;
      limitLeft := limitLeft - n;
    }

    /**
     msgReader.Read over the frames (for a compressed message, what the decompressor is fed).
     complete is the end of the message itself; cause is the error below, if there was one.
     */
    method Read(p: array<bv8>, lo: nat, hi: nat)
      returns (n: nat, e: Option<Error>, ghost complete: bool, ghost cause: Option<Error>)
      requires Valid() && Limited() && reading && lo <= hi <= p.Length
      requires p != c.br.buffer && p != c.headerBuf && p != c.controlBuf
      modifies this`fin, this`payloadLength, this`maskKey, this`frames, this`place, this`sound, this`track
      modifies this`tailPos, this`delivered, this`returned
      modifies this`limitLeft, this`received, this`reading
      modifies c, c.br, c.br.source, c.br.buffer, c.headerBuf, c.controlBuf, p
      ensures Valid() && Limited() && n <= hi - lo && (sound ==> old(sound))
      ensures p[..lo] == old(p[..lo]) && p[hi..] == old(p[hi..])
      ensures e == if complete then Some(EOF) else Surface(cause, fin, flate)
      ensures !complete && (cause == Some(EOF) || (cause == Some(UnexpectedEOF) && flate && fin)) ==> e == Some(EOF)
      ensures !complete && cause != Some(EOF) && !(cause == Some(UnexpectedEOF) && flate && fin) ==> e == cause
      ensures complete ==> n == 0 && cause.None? && sound == old(sound) && returned == old(returned)
      ensures complete && sound ==> Completed(old(received))
      ensures !complete ==> reading && received == old(received)
      ensures cause.Some? && cause != Some(MessageTooBig) ==> !sound
      ensures cause == Some(MessageTooBig) && sound ==>
        !flate && limitHere >= 0 && |delivered| == limitHere && returned == old(returned) && n == 0
      ensures !complete && cause.None? ==>
        && sound == old(sound) && (lo < hi ==> n > 0) && returned == old(returned) + p[lo..lo + n]
        && c.Pos() + tailPos >= old(c.Pos() + tailPos) + n
      ensures cause.Some? ==>
        Excused(cause.value, old(sound)) || (cause == Some(MessageTooBig) && old(LimitHit()) && sound == old(sound))
      ensures e == Some(EOF) && !complete ==> EndReported() && (old(sound) ==> RanDry())
      ensures lo < hi && old(AtEnd() && !LimitHit()) ==>
        (e == Some(EOF) && !complete <==> old(Unfinished()))
      ensures
        var m := Min(hi - lo, old(payloadLength));
        old(payloadLength > 0 && c.Served(m) && Allows(hi - lo)) && lo < hi ==>
          && e.None? && n == m && c.closeReceived.None?
          && c.Pos() == old(c.Pos()) + m && c.br.Buffered() == old(c.br.Buffered()) - m
          && (old(c.br.Ended()) ==> c.br.Ended())
    {
      hide FirstFrames, Assemble, PeerMasksRight, IsBoundary, Aligned, InFrame, FrameReader.Conn.Valid;
      hide FrameReader.Conn.Offended, Excused, EndReported, Settled;
      var done;
      n, e, done := ReadLimited(p, lo, hi);
      complete, cause := done, e;
      if done {
        FinishMessage();
        e := Some(EOF);
      } else {
        if e.Some? {
          EndComesFromTransport(e.value, old(sound));
        }
        e := Surface(e, fin, flate);
      }
    }

    /**
     The transport has reported an end: of the stream, or in the last frame of a compressed message
     an unexpected one. All it has delivered is used up, and there is more of the message to come.
     */
    ghost predicate EndReported()
      requires c.Valid()
      reads `fin, `payloadLength, `flate, c, c.br, c.br.source, c.br.buffer
    {
      && Unfinished() && c.br.Buffered() == 0
      && (EOF in c.br.source.reported || (fin && flate && UnexpectedEOF in c.br.source.reported))
    }

    /** The stream has ended inside a frame, and the frames before it mean the messages that are over. */
    ghost predicate RanDry()
      reads `track
    {
      track.Stopped? && track.dry && track.kept
    }

    /** What Read passes off as the end of the message is the transport's doing. */
    lemma EndComesFromTransport(cause: Error, inOrder: bool)
      requires c.Valid() && ((Excused(cause, inOrder) && Unfinished()) || cause == MessageTooBig)
      ensures Surface(Some(cause), fin, flate) == Some(EOF) ==> EndReported() && (inOrder ==> RanDry())
    {
    }

    /** The message goes on the list of those received. */
    ghost method FinishMessage()
      requires Valid() && reading && fin && payloadLength == 0 && (sound ==> Finished())
      modifies this`received, this`reading
      ensures Valid() && !reading && received == old(received) + [Message(typ, flate, delivered)]
    {
      hide FirstFrames, Assemble, Unmasked, PeerMasksRight, FrameReader.Within, FrameReader.Short;
      received := received + [Message(typ, flate, delivered)];
      reading := false;
    }

    /**
     Nothing is left of the current frame; or what has failed has failed before the first byte of a
     frame or behind its last one.
     */
    ghost predicate AtFrameEnd()
      requires c.Valid()
      reads `payloadLength, `track, c, c.br, c.br.source, c.br.buffer
    {
      match track
      case Here => payloadLength == 0
      case Stopped(_, at, _, _) =>
        || c.Pos() == at
        || (at <= |c.Data()| && ParseHeader(c.Data()[at..]).Parsed?
            && c.Pos() == at + ParseHeader(c.Data()[at..]).n + ParseHeader(c.Data()[at..]).h.payloadLength)
      case Astray => false
    }

    /**
     The next header parse would start on a frame boundary exactly when nothing is left of the
     current frame, and after a failure exactly when the frame it failed on was not begun or is gone.
     */
    lemma ParseStartsOnBoundary()
      requires Valid() && !track.Astray?
      ensures OnBoundary(c.Data(), c.Pos()) <==> AtFrameEnd()
    {
      hide FirstFrames, Assemble, Unmasked, PeerMasksRight, ParseHeader, Takes;
      if track.Stopped? {
        FrameReader.BoundaryWithin(c.Data(), track.k, track.at, c.Pos());
      } else if payloadLength > 0 {
        FrameReader.NoBoundaryBehind(c.Data(), frames - 1, place.start, place.head, place.from - place.start, c.Pos());
      } else {
        assert IsBoundary(c.Data(), frames, c.Pos());
      }
    }

    /**
     After a frame has been refused, the next header parse starts on a frame boundary if and only if
     the frame has no payload or is a close frame, whose payload has been consumed.
     */
    lemma ParseAfterRefusal()
      requires Valid() && track.Stopped? && c.RefusalEnded(track.at)
      ensures OnBoundary(c.Data(), c.Pos()) <==>
        && ParseHeader(c.Data()[track.at..]).Parsed?
        && var h := ParseHeader(c.Data()[track.at..]).h;
           h.payloadLength == 0 || (h.opcode == OP_CLOSE && !FrameReader.BadHeader(h, c.client, c.deflate))
    {
      hide ParseHeader, FrameReader.BadHeader, IsBoundary, FirstFrames, Assemble;
      FrameReader.RefusedOnBoundary(c.Data(), track.k, track.at, c.client, c.deflate);
    }

    /** The messages received, once the one the reader is at counts too. */
    ghost function Through(): seq<Message>
      reads `reading, `received, `typ, `flate, `delivered
    {
      if reading then received + [Message(typ, flate, delivered)] else received
    }

    /** With no message open, a text or binary frame begins one. */
    lemma ReadyForMessage(received': seq<Message>)
      requires c.Valid() && tailPos <= 4 && Aligned() && fin && payloadLength == 0
      requires received' == Through()
      ensures Assemble(FirstFrames(c.Data(), frames).value.frames) == Assembly(received', None)
    {
      hide FirstFrames, Assemble, IsBoundary;
    }

    /** Between two messages the reader stands at a boundary. */
    lemma NothingOpen(received': seq<Message>)
      requires Valid() && fin
      requires received' == Through()
      ensures c.Valid() && Settled()
      ensures sound && payloadLength == 0 ==>
        && IsBoundary(c.Data(), frames, c.Pos()) && FirstFrames(c.Data(), frames).Some?
        && Assemble(FirstFrames(c.Data(), frames).value.frames) == Assembly(received', None)
    {
      hide FirstFrames, Assemble, Meaning, PeerMasksRight;
      if sound && payloadLength == 0 {
        ReadyForMessage(received');
      }
    }

    lemma BeginsMessage(a: Assembly, h: Header)
      requires a == Assembly(received, None) && delivered == []
      requires h.opcode in {OP_TEXT, OP_BINARY} && typ == h.opcode && flate == h.rsv1
      ensures Takes(a, h, delivered)
    {
      assert forall payload: seq<bv8> :: [] + payload == payload;
    }

    /** A message whose last byte has been delivered counts as received, read to EOF or not. */
    ghost method SettleReceived()
      requires fin
      modifies this`received, this`reading
      ensures !reading && received == old(Through())
    {
      if reading {
        received := received + [Message(typ, flate, delivered)];
        reading := false;
      }
    }

    /**
     Conn.reader: waits for the first frame of the next message. Only fin is checked, so a message
     left before its last byte puts the parser in the middle of a payload; and so does a refused
     frame, whose header is gone and whose payload is not.
     */
    method Reader() returns (opcode: bv8, e: Option<Error>)
      requires Valid() && Limited()
      modifies this, c, c.br, c.br.source, c.br.buffer, c.headerBuf, c.controlBuf
      ensures Valid() && Limited()
      ensures old(!fin) ==> e == Some(ProtocolViolation) && sound == old(sound) && c.Pos() == old(c.Pos())
      ensures e.None? ==>
        && reading && typ == opcode && opcode in {OP_TEXT, OP_BINARY} && delivered == [] && returned == []
        && limitHere == old(limit)
        && sound == (old(sound) && old(payloadLength) == 0)
      ensures e.None? ==> received == old(Through()) && track == if old(OnTrack()) then Here else Astray
      ensures e.Some? && old(fin) ==>
        && !sound && Excused(e.value, old(sound && payloadLength == 0))
        && (if old(OnTrack()) then track.Stopped? else track.Astray?)
      ensures e.Some? ==> fin == old(fin) && payloadLength == old(payloadLength)
      ensures allowed == old(allowed) && (e.None? ==> limitLeft == limitHere && c.closeReceived.None?)
      ensures e.None? && old(OnTrack()) ==> frames > 0 && Answered(old(c.Pos()), old(c.pongs), frames - 1)
      ensures e.Some? && old(fin && OnTrack()) ==> Answered(old(c.Pos()), old(c.pongs), track.k)
      ensures old(c.closeReceived).Some? ==> e.Some? && c.Pos() == old(c.Pos())
      ensures old(fin && c.DataAhead() && ParseHeader(c.Ahead()).h.opcode != OP_CONTINUATION) ==>
        e.None? && TakesOver(old(ParseHeader(c.Ahead()).h)) && c.Consumed(old(ParseHeader(c.Ahead()).n))
      ensures old(fin && c.BadAhead()) ==>
        e == Some(ProtocolViolation) && c.closeReceived.None? && c.Consumed(old(ParseHeader(c.Ahead()).n))
      ensures old(fin && c.CloseAhead()) ==>
        && e.Some? && c.Consumed(old(ParseHeader(c.Ahead()).n + ParseHeader(c.Ahead()).h.payloadLength))
        && (c.closeReceived.Some? <==> old(Close.ParseClosePayload(c.PayloadAhead()).Ok?))
        && (if c.closeReceived.None? then e == Some(ProtocolViolation)
            else e == c.closeReceived == Some(FrameReader.Reported(old(c.PayloadAhead()))))
    {
      hide *;
      opcode := OP_TEXT;
      if !fin {
        return OP_TEXT, Some(ProtocolViolation);
      }
      var h;
      ghost var j, at;
      NothingOpen(Through());
      ghost var aligned, k := Standing();
      h, e, j, at := AwaitMessage(Through(), k, aligned);
      if e.Some? {
        return;
      }
      SettleReceived();
      opcode := h.opcode;
      BeginMessage(h, j, at, aligned);
    }

    /** The current frame is the one with this header, nothing of it read yet. */
    ghost predicate TakesOver(h: Header)
      reads `fin, `payloadLength, `flate, `typ
    {
      fin == h.fin && payloadLength == h.payloadLength && typ == h.opcode && flate == h.rsv1
    }

    /** Waits for a text or binary frame; everything returned so far has to mean the messages received'. */
    method AwaitMessage(ghost received': seq<Message>, ghost k: nat, ghost aligned: bool)
      returns (h: Header, e: Option<Error>, ghost j: nat, ghost at: nat)
      requires c.Valid() && Settled() && Limited() && fin && received' == Through()
      requires aligned ==> IsBoundary(c.Data(), k, c.Pos())
      requires sound && payloadLength == 0 ==>
        && aligned && FirstFrames(c.Data(), k).Some?
        && Assemble(FirstFrames(c.Data(), k).value.frames) == Assembly(received', None)
      modifies this`sound, this`track, c, c.br, c.br.source, c.br.buffer, c.headerBuf, c.controlBuf
      ensures e.Some? ==> Valid() && Limited() && !sound && Excused(e.value, old(sound && payloadLength == 0))
      ensures e.Some? ==>
        if aligned then track.Stopped? && Answered(old(c.Pos()), old(c.pongs), track.k) else track.Astray?
      ensures e.None? && aligned ==> Answered(old(c.Pos()), old(c.pongs), j)
      ensures c.Valid() && limit == if allowed >= 0 then allowed + 1 else allowed
      ensures e.None? ==> c.closeReceived.None?
      ensures old(c.closeReceived).Some? ==> e.Some? && c.Pos() == old(c.Pos())
      ensures old(c.DataAhead() && ParseHeader(c.Ahead()).h.opcode != OP_CONTINUATION) ==>
        e.None? && h == old(ParseHeader(c.Ahead()).h) && c.Consumed(old(ParseHeader(c.Ahead()).n))
      ensures old(c.BadAhead()) ==>
        e == Some(ProtocolViolation) && c.closeReceived.None? && c.Consumed(old(ParseHeader(c.Ahead()).n))
      ensures old(c.CloseAhead()) ==>
        && e.Some? && c.Consumed(old(ParseHeader(c.Ahead()).n + ParseHeader(c.Ahead()).h.payloadLength))
        && (c.closeReceived.Some? <==> old(Close.ParseClosePayload(c.PayloadAhead()).Ok?))
        && (if c.closeReceived.None? then e == Some(ProtocolViolation)
            else e == c.closeReceived == Some(FrameReader.Reported(old(c.PayloadAhead()))))
      ensures e.None? ==>
        && c.Valid() && PeerMasksRight(c.client, c.Data()) && c.HeaderRead(h, at)
        && (c.client || h.masked) && h.opcode in {OP_TEXT, OP_BINARY} && (aligned ==> IsBoundary(c.Data(), j, at))
        && sound == (old(sound) && payloadLength == 0)
      ensures e.None? && sound ==>
        && aligned && FirstFrames(c.Data(), j).Some?
        && Assemble(FirstFrames(c.Data(), j).value.frames) == Assembly(received', None)
    {
      hide Valid, FirstFrames, IsBoundary, Assemble, PeerMasksRight, ParseHeader;
      hide FrameReader.Conn.HeaderRead, FrameReader.Conn.DataAhead, FrameReader.Conn.Ahead, FrameReader.Conn.Valid;
      hide FrameReader.Conn.BadAhead, FrameReader.Conn.CloseAhead, FrameReader.Conn.Excuse;
      hide FrameReader.Conn.PayloadAhead, FrameReader.Within, FrameReader.Short, FrameReader.BadHeader;
      hide FrameReader.PingsBetween, FrameReader.Reported, Close.ParseClosePayload, Answered;
      BufferIsValid();
      ghost var pos, pongs := c.Pos(), c.pongs;
      sound := sound && payloadLength == 0;
      h, e, j, at := FindStart(k, received', sound);
      if aligned {
        AnswersAll(pos, pongs, k, j);
      }
      if e.Some? {
        GiveUp(AfterSearch(aligned, j, at, e.value, sound));
      }
    }

    /** Waits for a data frame that is no continuation, with no message open. */
    method FindStart(ghost k: nat, ghost done: seq<Message>, ghost inOrder: bool)
      returns (h: Header, e: Option<Error>, ghost j: nat, ghost at: nat)
      requires c.Valid()
      requires inOrder ==>
        IsBoundary(c.Data(), k, c.Pos()) && Assemble(FirstFrames(c.Data(), k).value.frames) == Assembly(done, None)
      modifies c, c.br, c.br.source, c.br.buffer, c.headerBuf, c.controlBuf
      ensures c.Valid() && c.Pos() <= |c.Data()| && (e.Some? ==> Blamed(e.value, inOrder, at))
      ensures e.None? ==>
        (c.client || h.masked) && h.opcode in {OP_TEXT, OP_BINARY} && c.closeReceived.None? && c.HeaderRead(h, at)
      ensures IsBoundary(c.Data(), k, old(c.Pos())) ==>
        && j >= k && IsBoundary(c.Data(), j, at) && FirstFrames(c.Data(), j).Some?
        && c.pongs == old(c.pongs) + FrameReader.PingsBetween(c.Data(), k, j)
      ensures inOrder ==>
        FirstFrames(c.Data(), j).Some? && Assemble(FirstFrames(c.Data(), j).value.frames) == Assembly(done, None)
      ensures old(c.closeReceived).Some? ==> e.Some? && c.Pos() == old(c.Pos())
      ensures old(c.DataAhead() && ParseHeader(c.Ahead()).h.opcode != OP_CONTINUATION) ==>
        e.None? && h == old(ParseHeader(c.Ahead()).h) && c.Consumed(old(ParseHeader(c.Ahead()).n))
      ensures old(c.BadAhead()) ==>
        e == Some(ProtocolViolation) && c.closeReceived.None? && c.Consumed(old(ParseHeader(c.Ahead()).n))
      ensures old(c.CloseAhead()) ==>
        && e.Some? && c.Consumed(old(ParseHeader(c.Ahead()).n + ParseHeader(c.Ahead()).h.payloadLength))
        && (c.closeReceived.Some? <==> old(Close.ParseClosePayload(c.PayloadAhead()).Ok?))
        && (if c.closeReceived.None? then e == Some(ProtocolViolation)
            else e == c.closeReceived == Some(FrameReader.Reported(old(c.PayloadAhead()))))
    {
      hide FirstFrames, Assemble, ParseHeader, FrameReader.Conn.DataAhead, FrameReader.Conn.BadAhead;
      hide FrameReader.Conn.CloseAhead, FrameReader.Conn.Offended, FrameReader.Conn.Valid, FrameReader.Conn.Excuse;
      hide FrameReader.OffendsAt, FrameReader.Within, FrameReader.Short, FrameReader.Conn.PayloadAhead;
      h, e, j, at := c.ReadLoop(k);
      if e.Some? {
        RefusalShows(e.value, j, at, inOrder);
      } else if h.opcode == OP_CONTINUATION {
        e := Some(ProtocolViolation);
        Misplaced(h, at);
        if inOrder {
          Breaks(h, j, at);
        }
      }
    }

    /** A data frame that does not fit what was read before offends. */
    lemma Breaks(h: Header, j: nat, at: nat)
      requires c.Valid() && c.HeaderRead(h, at) && IsBoundary(c.Data(), j, at)
      requires Feed(Assemble(FirstFrames(c.Data(), j).value.frames), Frame(h, [])).Broken?
      ensures c.Offended()
    {
      hide FirstFrames, Assemble, Feed, ParseHeader, FrameReader.OffendsAt;
    }

    /** A new message: nothing of it returned yet, the whole limit left. */
    method OpenMessage(opcode: bv8, compressed: bool)
      modifies this`flate, this`tailPos, this`limitLeft, this`limitHere, this`reading, this`typ
      modifies this`delivered, this`returned
      ensures flate == compressed && tailPos == 0 && limitLeft == limitHere == limit
      ensures reading && typ == opcode && delivered == [] && returned == []
    {
      flate, tailPos, limitLeft := compressed, 0, limit;
      limitHere, reading, typ, delivered, returned := limit, true, opcode, [], [];
    }

    /** msgReader.reset. */
    method BeginMessage(h: Header, ghost j: nat, ghost at: nat, ghost aligned: bool)
      requires c.Valid() && PeerMasksRight(c.client, c.Data()) && c.HeaderRead(h, at)
      requires (c.client || h.masked) && h.opcode in {OP_TEXT, OP_BINARY} && !reading
      requires aligned ==> IsBoundary(c.Data(), j, at)
      requires sound ==>
        && aligned && FirstFrames(c.Data(), j).Some?
        && Assemble(FirstFrames(c.Data(), j).value.frames) == Assembly(received, None)
      modifies this
      requires limit == if allowed >= 0 then allowed + 1 else allowed
      ensures Valid() && Limited() && reading && typ == h.opcode && delivered == [] && returned == []
      ensures limitHere == limitLeft == old(limit) && sound == old(sound) && received == old(received) && TakesOver(h)
      ensures allowed == old(allowed) && track == (if aligned then Here else Astray) && frames == j + 1
    {
      hide Assemble, FirstFrames, PeerMasksRight, FrameReader.Conn.HeaderRead, FrameReader.Conn.Valid;
      hide IsBoundary, Aligned, Takes, Valid, Settled, InFrame, Feed, Settle;
      OpenMessage(h.opcode, h.rsv1);
      if sound {
        BeginsMessage(Assemble(FirstFrames(c.Data(), j).value.frames), h);
      }
      SetFrame(h, j, at, aligned);
    }

    /** How much room the caller offers next; io.ReadAll offers at least one byte. */
    method Room() returns (n: nat)
      ensures n > 0
    {
      var k: int := *;
      n := if k > 0 then k else 512;
    }

    /** One round of io.ReadAll. */
    method ReadChunk() returns (b: seq<bv8>, e: Option<Error>, ghost complete: bool, ghost cause: Option<Error>)
      requires Valid() && Limited() && reading
      modifies this, c, c.br, c.br.source, c.br.buffer, c.headerBuf, c.controlBuf
      ensures Valid() && Limited() && c.Valid() && (sound ==> old(sound))
      ensures typ == old(typ) && flate == old(flate) && limitHere == old(limitHere)
      ensures e == if complete then Some(EOF) else Surface(cause, fin, flate)
      ensures complete ==> b == [] && cause.None? && sound == old(sound) && returned == old(returned)
      ensures complete && sound ==> Completed(old(received))
      ensures !complete ==> reading && received == old(received)
      ensures cause.Some? && cause != Some(MessageTooBig) ==> !sound
      ensures cause == Some(MessageTooBig) && sound ==>
        !flate && limitHere >= 0 && |delivered| == limitHere && returned == old(returned) && b == []
      ensures !complete && cause.None? ==>
        sound == old(sound) && returned == old(returned) + b && 0 <= Ahead() < old(Ahead())
      ensures allowed == old(allowed) && (e == Some(EOF) && !complete ==> EndReported() && (old(sound) ==> RanDry()))
      ensures cause.Some? ==> Excused(cause.value, old(sound)) || (cause == Some(MessageTooBig) && sound == old(sound))
      ensures old(AtEnd() && !LimitHit()) ==> (e == Some(EOF) && !complete <==> old(Unfinished()))
    {
      hide FirstFrames, Assemble, PeerMasksRight, FrameReader.Conn.Valid, Valid, Limited, Settle, Surface;
      hide Excused, EndReported;
      AheadIsNat();
      var room := Room();
      var p := new bv8[room];
      var n;
      n, e, complete, cause := Read(p, 0, room);
      b := p[0..n];
      AheadIsNat();
    }

    /** A message has been read to its end, and everything returned is its payload. */
    ghost predicate Completed(received': seq<Message>)
      reads `reading, `received, `typ, `flate, `delivered, `returned, `limitHere
    {
      && !reading && received == received' + [Message(typ, flate, delivered)]
      && returned == delivered + (if flate then DEFLATE_MESSAGE_TAIL else [])
      && (!flate && limitHere >= 0 ==> |delivered| < limitHere)
    }

    /** io.ReadAll on the message, in reads of any sizes. */
    method ReadAll() returns (b: seq<bv8>, e: Option<Error>, ghost complete: bool, ghost cause: Option<Error>)
      requires Valid() && Limited() && reading
      modifies this, c, c.br, c.br.source, c.br.buffer, c.headerBuf, c.controlBuf
      ensures Valid() && Limited() && (sound ==> old(sound)) && typ == old(typ) && flate == old(flate)
      ensures limitHere == old(limitHere)
      ensures e == if complete || Surface(cause, fin, flate) == Some(EOF) then None else Surface(cause, fin, flate)
      ensures complete ==> cause.None? && sound == old(sound) && returned == old(returned) + b
      ensures complete && sound ==> Completed(old(received))
      ensures !complete ==> cause.Some? && reading && received == old(received)
      ensures cause.Some? && cause != Some(MessageTooBig) ==> !sound
      ensures cause == Some(MessageTooBig) && sound ==>
        !flate && limitHere >= 0 && |delivered| == limitHere && returned == old(returned) + b
      ensures allowed == old(allowed) && (e.None? && !complete ==> EndReported() && (old(sound) ==> RanDry()))
      ensures cause.Some? ==> Excused(cause.value, old(sound)) || (cause == Some(MessageTooBig) && sound == old(sound))
    {
      hide FirstFrames, Assemble, PeerMasksRight, FrameReader.Conn.Valid, Valid, Limited, Ahead, Settle;
      hide Completed, Excused, EndReported;
      b, complete, cause := [], false, None;
      assert returned + [] == returned;
      AheadIsNat();
      while true
        invariant Valid() && Limited() && reading && cause.None? && sound == old(sound)
        invariant typ == old(typ) && flate == old(flate) && limitHere == old(limitHere) && received == old(received)
        invariant allowed == old(allowed)
        invariant returned == old(returned) + b && c.Valid()
        decreases Ahead()
      {
        var chunk;
        chunk, e, complete, cause := ReadChunk();
        Assoc(old(returned), b, chunk);
        b := b + chunk;
        if e.Some? {
          assert chunk == [] ==> old(returned) + b == old(returned) + b[..|b|];
          e := if e == Some(EOF) then None else e;
          return;
        }
      }
    }

    /** More of the current message has been returned than is allowed. */
    ghost predicate TooBig()
      reads `reading, `flate, `allowed, `delivered
    {
      reading && !flate && 0 <= allowed < |delivered|
    }

    /**
     Conn.Read: one whole message. What it returns without an error is exactly the payload of the
     next message, and no more than allowed, or the transport has reported an end. An error is not
     the peer's fault, or the stream shows it, or it is the message's size.
     */
    method ReadMessage() returns (opcode: bv8, b: seq<bv8>, e: Option<Error>)
      requires Valid() && Limited()
      modifies this, c, c.br, c.br.source, c.br.buffer, c.headerBuf, c.controlBuf
      ensures Valid() && Limited() && allowed == old(allowed)
      ensures e.Some? ==> b == []
      ensures e.None? && old(sound && payloadLength == 0) ==>
        || sound
        || (EndReported() && RanDry() && received == old(Through()))
      ensures e.None? && sound ==>
        && opcode == typ && opcode in {OP_TEXT, OP_BINARY} && returned == b
        && Completed(old(Through()))
        && (!flate && allowed >= 0 ==> |b| <= allowed)
      ensures e.Some? && old(fin) ==>
        || Excused(e.value, old(sound && payloadLength == 0))
        || (e == Some(MessageTooBig) && sound == old(sound && payloadLength == 0))
      ensures e == Some(MessageTooBig) && old(fin) && sound ==> TooBig()
    {
      hide FirstFrames, Assemble, PeerMasksRight, FrameReader.Conn.Valid, Valid, Settle, EndReported, Excused;
      opcode, b := OP_TEXT, [];
      var closed := c.Environment();
      if closed {
        e := Some(NetworkClosed);
        ClosedIsExcuse(sound && payloadLength == 0);
        return;
      }
      opcode, e := Reader();
      if e.Some? {
        return;
      }
      ghost var complete, cause;
      b, e, complete, cause := ReadAll();
      assert [] + b == b;
      if e.Some? {
        b := [];
      }
    }

    lemma ClosedIsExcuse(inOrder: bool)
      requires Valid() && !c.calm
      ensures Excused(NetworkClosed, inOrder)
    {
    }

    /** If all of the current frame has come, the frames taken so far end where it does. */
    lemma EndOfFrame()
      requires Valid()
      ensures track.Here? && c.Pos() + payloadLength <= |c.Data()| ==>
        IsBoundary(c.Data(), frames, c.Pos() + payloadLength)
    {
      hide FirstFrames, Assemble, ParseHeader, Takes, Unmasked, PeerMasksRight, WirePayload;
      if track.Here? && payloadLength > 0 && c.Pos() + payloadLength <= |c.Data()| {
        FrameReader.FrameHere(c.Data(), frames - 1, place.start, place.head, place.from - place.start);
      }
    }

    /** Where nothing has failed, what is skipped before the drain ends on a boundary. */
    lemma SkipEnds(end: nat)
      requires Valid() && track.Here? && end == c.Pos() + payloadLength <= |c.Data()|
      ensures OnBoundary(c.Data(), end)
    {
      hide *;
      EndOfFrame();
      FrameStream.AtBoundary(c.Data(), frames, end);
    }

    /** Where something has failed, the drain starts on a boundary exactly at the end of a frame. */
    lemma DrainStarts(start: nat)
      requires Valid() && track.Stopped? && payloadLength == 0 && start == c.Pos() + payloadLength
      ensures OnBoundary(c.Data(), start) <==> AtFrameEnd()
    {
      hide *;
      ParseStartsOnBoundary();
    }

    /** Where the wait looks for its first frame. */
    lemma WaitStarts() returns (start: nat)
      requires Valid()
      ensures start == c.Pos() + payloadLength
      ensures track.Here? && start <= |c.Data()| ==> OnBoundary(c.Data(), start)
      ensures track.Stopped? && payloadLength == 0 ==> (OnBoundary(c.Data(), start) <==> AtFrameEnd())
    {
      start := c.Pos() + payloadLength;
      hide *;
      if track.Here? && start <= |c.Data()| {
        SkipEnds(start);
      } else if track.Stopped? && payloadLength == 0 {
        DrainStarts(start);
      }
    }

    /**
     waitCloseHandshake: skips the rest of the current frame, then every frame up to the error that
     ends the wait, as a rule the peer's close frame. starts are the positions the frames were
     looked for at: frame boundaries if nothing has failed before, and after a refusal exactly if
     nothing of the refused frame is left. A close frame received is what it ends with; otherwise it
     ends because of the transport or a closed connection, or because the frame at `at`, the last one
     looked for, is refused.
     */
    method WaitCloseHandshake() returns (e: Error, ghost starts: seq<nat>, ghost at: nat)
      requires Valid()
      modifies this`sound, this`track, c, c.br, c.br.source, c.br.buffer, c.headerBuf, c.controlBuf
      ensures Valid() && !sound && track == Astray
      ensures starts != [] ==>
        && starts[0] == old(c.Pos()) + payloadLength
        && (OnBoundaries(c.Data(), starts) <==> OnBoundary(c.Data(), old(c.Pos()) + payloadLength))
      ensures old(track.Here?) ==> OnBoundaries(c.Data(), starts)
      ensures old(track.Stopped?) && payloadLength == 0 && starts != [] ==>
        (OnBoundaries(c.Data(), starts) <==> old(AtFrameEnd()))
      ensures old(track.Here?) && starts != [] ==> OnBoundary(c.Data(), at)
      ensures c.Excuse(e) || (starts != [] && e == ProtocolViolation && c.Refused(at))
      ensures c.closeReceived != old(c.closeReceived) ==> old(c.closeReceived).None? && c.closeReceived == Some(e)
      ensures old(c.closeReceived).Some? && payloadLength == 0 ==>
        c.Pos() == old(c.Pos()) && c.Ends(e, old(c.closeReceived))
      ensures old(c.CloseBehind(payloadLength)) ==>
        && (c.closeReceived.Some? <==> old(Close.ParseClosePayload(c.PayloadBehind(payloadLength)).Ok?))
        && e == if c.closeReceived.None? then ProtocolViolation
                else FrameReader.Reported(old(c.PayloadBehind(payloadLength)))
    {
      hide *;
      ghost var start := WaitStarts();
      OnNoBoundary(c.Data());
      e, starts, at := SkipAndDrain(start);
    }

    /** From here on it is not known where the reader is. */
    method SkipAndDrain(ghost start: nat) returns (e: Error, ghost starts: seq<nat>, ghost at: nat)
      requires Valid() && start == c.Pos() + payloadLength
      modifies this`sound, this`track, c, c.br, c.br.source, c.br.buffer, c.headerBuf, c.controlBuf
      ensures Valid() && !sound && track == Astray
      ensures start > |c.Data()| ==> starts == []
      ensures starts != [] ==> starts[0] == start && (OnBoundaries(c.Data(), starts) <==> OnBoundary(c.Data(), start))
      ensures starts != [] && OnBoundary(c.Data(), start) ==> OnBoundary(c.Data(), at)
      ensures c.Excuse(e) || (starts != [] && e == ProtocolViolation && c.Refused(at))
      ensures c.closeReceived != old(c.closeReceived) ==> old(c.closeReceived).None? && c.closeReceived == Some(e)
      ensures old(c.closeReceived).Some? && payloadLength == 0 ==>
        c.Pos() == old(c.Pos()) && c.Ends(e, old(c.closeReceived))
      ensures old(c.CloseBehind(payloadLength)) ==>
        && (c.closeReceived.Some? <==> old(Close.ParseClosePayload(c.PayloadBehind(payloadLength)).Ok?))
        && e == if c.closeReceived.None? then ProtocolViolation
                else FrameReader.Reported(old(c.PayloadBehind(payloadLength)))
    {
      hide FrameReader.Conn.CloseBehind, FrameReader.Conn.PayloadBehind, FrameReader.Reported, FrameReader.Conn.Refused;
      hide Close.ParseClosePayload, FrameReader.Conn.Excuse, FrameReader.Conn.Ends;
      hide InOrder, InPart, IsBoundary, OnBoundaries, OnBoundary, PeerMasksRight, Over, Holds, Assemble;
      hide FirstFrames, FrameReader.Conn.Valid, FrameReader.Within, FrameReader.Short, ParseHeader;
      GiveUp(Astray);
      e, starts, at := c.SkipAndDrain(payloadLength);
    }

    /** Bytes that may still come. */
    ghost function Ahead(): int
      requires c.Valid()
      reads this, c, c.br, c.br.source, c.br.buffer
    {
      |c.Data()| + 4 - c.Pos() - tailPos
    }

    lemma AheadIsNat()
      requires Valid()
      ensures c.Valid() && Ahead() == |c.Data()| + 4 - c.Pos() - tailPos >= 0
    {
    }
  }
}
