/** One connection's frame writer: headers, payloads masked inside the write buffer, flushing. */
module FrameWriter {
  import opened Wrappers
  import opened Bytes
  import opened Mask
  import opened Frame
  import opened BufioWriter
  import opened Seqs

  /** The header writeFrame fills in: compression shows on the first frame of a message only. */
  function FrameHeader(fin: bool, flate: bool, opcode: bv8, length: nat, client: bool, key: Key): Header {
    Header(fin, flate && (opcode == OP_TEXT || opcode == OP_BINARY), false, false, opcode, length,
           client, if client then key else NoKey())
  }

  method BuildFirstByte(fin: bool, rsv1: bool, rsv2: bool, rsv3: bool, opcode: bv8) returns (b: bv8)
    ensures b == FlagsByte(fin, rsv1, rsv2, rsv3, opcode)
  {
    b := 0;
    if fin { b := b | 0x80; }
    if rsv1 { b := b | 0x40; }
    if rsv2 { b := b | 0x20; }
    if rsv3 { b := b | 0x10; }
    b := b | opcode;
  }

  method BuildLengthByte(masked: bool, payloadLength: nat) returns (b: bv8)
    ensures b == Flag(masked, 0x80) | ShortLength(payloadLength)
  {
    b := 0;
    if masked { b := b | 0x80; }
    if payloadLength > 0xffff {
      b := b | Byte(127);
    } else if payloadLength > 125 {
      b := b | Byte(126);
    } else {
      b := b | Byte(payloadLength);
    }
  }

  class Conn {
    const client: bool
    const bw: Writer<bv8>
    var closeSent: bool
    var closeReceived: bool
    /** The frames accepted in full, and whether anything else has been accepted. */
    ghost var log: seq<Frame>
    ghost var intact: bool
    /** How often the connection was found closed or closing, or there was no masking key. */
    ghost var hindered: nat

    constructor (client: bool, bw: Writer<bv8>)
      requires bw.Valid() && bw.Stream() == [] && bw.err.None?
      ensures Valid() && intact && log == [] && !closeSent && !closeReceived
      ensures this.client == client && this.bw == bw
    {
      this.client, this.bw := client, bw;
      closeSent, closeReceived := false, false;
      log, intact, hindered := [], true, 0;
    }

    /** How much has gone wrong outside so far. */
    ghost function Troubles(): nat
      reads `hindered, bw.sink
    {
      hindered + bw.sink.faults
    }

    ghost predicate Valid()
      reads `closeSent, `log, `intact, bw, bw.slab, bw.sink
    {
      && bw.Valid()
      && LogOk()
      && (intact ==> bw.err.None? && bw.Stream() == EncodeFrames(log))
    }

    /** Masked by the client only; at most one close frame, and nothing behind it. */
    ghost predicate LogOk()
      reads `log, `closeSent
    {
      forall i :: 0 <= i < |log| ==>
        && log[i].Valid() && log[i].h.masked == client && !log[i].h.rsv2 && !log[i].h.rsv3
        && (log[i].h.opcode == OP_CLOSE ==> closeSent && i == |log| - 1)
    }

    /** Writes one field of a header or a payload whose whole stream is to be `whole`. */
    method Put(s: seq<bv8>, ghost whole: seq<bv8>) returns (e: Option<Error>)
      requires bw.Valid() && bw.Stream() + s <= whole
      modifies bw, bw.slab, bw.sink
      ensures bw.Valid() && bw.Outside() == old(bw.Outside()) && old(bw.sink.wire) <= bw.sink.wire
      ensures e == bw.err && (e.None? ==> bw.Stream() == old(bw.Stream()) + s)
      ensures bw.Stream() <= whole
      ensures old(bw.err).Some? ==> e == old(bw.err) && bw.sink.wire == old(bw.sink.wire)
      ensures old(Troubles()) <= Troubles() && (e.Some? ==> old(bw.err).Some? || Troubles() > old(Troubles()))
    {
      var nn;
      nn, e := bw.Write(s);
      assert s[..nn] <= s && s[..|s|] == s;
    }

    /** The two or eight length bytes of a longer form. */
    method WriteExtendedLength(n: nat, ghost whole: seq<bv8>) returns (e: Option<Error>)
      requires bw.Valid() && bw.Stream() + ExtendedLength(n) <= whole && bw.err.None?
      modifies bw, bw.slab, bw.sink
      ensures bw.Valid() && bw.Outside() == old(bw.Outside()) && old(bw.sink.wire) <= bw.sink.wire
      ensures e == bw.err && (e.None? ==> bw.Stream() == old(bw.Stream()) + ExtendedLength(n))
      ensures bw.Stream() <= whole
      ensures old(Troubles()) <= Troubles() && (e.Some? ==> Troubles() > old(Troubles()))
    {
      e := None;
      if n > 0xffff {
        e := Put(BigEndian(n, 8), whole);
      } else if n > 125 {
        e := Put(BigEndian(n, 2), whole);
      }
    }

    /** The masking key, if there is one. */
    method WriteKey(h: Header, ghost whole: seq<bv8>) returns (e: Option<Error>)
      requires bw.Valid() && bw.Stream() + KeyBytes(h) <= whole && bw.err.None?
      modifies bw, bw.slab, bw.sink
      ensures bw.Valid() && bw.Outside() == old(bw.Outside()) && old(bw.sink.wire) <= bw.sink.wire
      ensures e == bw.err && (e.None? ==> bw.Stream() == old(bw.Stream()) + KeyBytes(h))
      ensures bw.Stream() <= whole
      ensures old(Troubles()) <= Troubles() && (e.Some? ==> Troubles() > old(Troubles()))
    {
      e := None;
      if h.masked {
        e := Put(Bytes4(h.maskKey), whole);
      }
    }

    /** Writes a header field by field; a failure leaves a prefix of it. */
    method WriteFrameHeader(h: Header) returns (e: Option<Error>)
      requires bw.Valid() && h.Valid()
      modifies bw, bw.slab, bw.sink
      ensures bw.Valid() && bw.Outside() == old(bw.Outside()) && old(bw.sink.wire) <= bw.sink.wire
      ensures e == bw.err
      ensures e.None? ==> bw.Stream() == old(bw.Stream()) + EncodeHeader(h)
      ensures bw.Stream() <= old(bw.Stream()) + EncodeHeader(h)
      ensures old(bw.err).Some? ==> e == old(bw.err) && bw.sink.wire == old(bw.sink.wire)
      ensures old(Troubles()) <= Troubles() && (e.Some? ==> old(bw.err).Some? || Troubles() > old(Troubles()))
    {
      var b := BuildFirstByte(h.fin, h.rsv1, h.rsv2, h.rsv3, h.opcode);
      var lengthByte := BuildLengthByte(h.masked, h.payloadLength);
      hide *;
      ghost var one := bw.Stream() + [b];
      ghost var two := one + [lengthByte];
      ghost var three := two + ExtendedLength(h.payloadLength);
      HeaderInParts(bw.Stream(), b, lengthByte, ExtendedLength(h.payloadLength), KeyBytes(h));
      HeaderParts(h, b, lengthByte);
      e := WriteFields(h, b, lengthByte, one, two, three, three + KeyBytes(h));
    }

    method WriteFields(h: Header, b: bv8, lengthByte: bv8, ghost one: seq<bv8>, ghost two: seq<bv8>,
                       ghost three: seq<bv8>, ghost whole: seq<bv8>)
      returns (e: Option<Error>)
      requires bw.Valid() && bw.Stream() + [b] == one && one + [lengthByte] == two
      requires two + ExtendedLength(h.payloadLength) == three && three + KeyBytes(h) == whole
      requires one <= whole && two <= whole && three <= whole
      modifies bw, bw.slab, bw.sink
      ensures bw.Valid() && bw.Outside() == old(bw.Outside()) && old(bw.sink.wire) <= bw.sink.wire
      ensures e == bw.err && (e.None? ==> bw.Stream() == whole)
      ensures bw.Stream() <= whole
      ensures old(bw.err).Some? ==> e == old(bw.err) && bw.sink.wire == old(bw.sink.wire)
      ensures old(Troubles()) <= Troubles() && (e.Some? ==> old(bw.err).Some? || Troubles() > old(Troubles()))
    {
      hide *;
      e := Put([b], whole);
      if e.Some? {
        return;
      }
      e := Put([lengthByte], whole);
      if e.Some? {
        return;
      }
      e := WriteExtendedLength(h.payloadLength, whole);
      if e.Some? {
        return;
      }
      e := WriteKey(h, whole);
    }

    static lemma HeaderParts(h: Header, b: bv8, l: bv8)
      requires b == FlagsByte(h.fin, h.rsv1, h.rsv2, h.rsv3, h.opcode)
      requires l == Flag(h.masked, 0x80) | ShortLength(h.payloadLength)
      ensures EncodeHeader(h) == [b, l] + ExtendedLength(h.payloadLength) + KeyBytes(h)
    {
      hide FlagsByte, ExtendedLength, KeyBytes, Flag, ShortLength;
    }

    static lemma HeaderInParts(start: seq<bv8>, b: bv8, l: bv8, ext: seq<bv8>, key: seq<bv8>)
      ensures
        var whole := start + [b] + [l] + ext + key;
        && start + [b] <= whole && start + [b] + [l] <= whole && start + [b] + [l] + ext <= whole
        && whole == start + ([b, l] + ext + key)
    {
    }

    /** c.closedFlag.Load(): another goroutine may be closing the connection at any time. */
    method ClosedFlag() returns (closed: bool)
      modifies this`hindered
      ensures hindered == old(hindered) + if closed then 1 else 0
    {
      closed := *;
      if closed {
        hindered := hindered + 1;
      }
    }

    /** Masks what the last write put at the end of the buffer, in place. */
    method MaskBuffered(i: nat, key: Key) returns (next: Key)
      requires bw.Valid() && i <= bw.bufferedLen
      modifies bw.slab
      ensures bw.Valid() && bw.Outside() == old(bw.Outside())
      ensures bw.Pending() == old(bw.Pending())[..i] + Masked(old(bw.Pending())[i..], key)
      ensures next == key.Turned(bw.bufferedLen - i)
    {
      var slab, lo, hi, end := bw.slab, bw.base + i, bw.base + bw.Buffered(), bw.base + bw.size;
      ghost var before, pending := slab[..], bw.Pending();
      next := MaskGo(slab, lo, hi, key);
      Spliced(slab[..], before, bw.base, lo, hi, end, Masked(pending[i..], key));
    }

    /** Replacing s[lo..hi] changes nothing before and after it. */
    static lemma Spliced(s: seq<bv8>, before: seq<bv8>, base: nat, lo: nat, hi: nat, end: nat, mid: seq<bv8>)
      requires base <= lo <= hi <= end <= |s| == |before|
      requires s[..lo] == before[..lo] && s[hi..] == before[hi..] && s[lo..hi] == mid
      ensures s[base..hi] == before[base..hi][..lo - base] + mid
      ensures s[..base] == before[..base] && s[end..] == before[end..]
      ensures before[lo..hi] == before[base..hi][lo - base..]
    {
      assert s[..base] == s[..lo][..base] == before[..lo][..base];
      assert s[end..] == s[hi..][end - hi..] == before[hi..][end - hi..];
      assert s[base..lo] == s[..lo][base..] == before[..lo][base..] == before[base..hi][..lo - base];
      Join(s, base, lo, hi);
    }

    /**
     One piece that fits: buffered and masked. Nothing goes to the sink, and when the connection
     turns out to be closed the piece is abandoned unmasked in the buffer.
     */
    method WritePiece(piece: seq<bv8>, key: Key) returns (next: Key, closed: bool)
      requires bw.Valid() && bw.err.None? && |piece| <= bw.Available()
      modifies this`hindered, bw, bw.slab, bw.sink
      ensures bw.Valid() && bw.err.None? && bw.Outside() == old(bw.Outside()) && bw.sink.wire == old(bw.sink.wire)
      ensures !closed ==> next == key.Turned(|piece|) && bw.Stream() == old(bw.Stream()) + Masked(piece, key)
      ensures Troubles() == old(Troubles()) + (if closed then 1 else 0) && (!closed ==> hindered == old(hindered))
    {
      ghost var wire, pending := bw.sink.wire, bw.Pending();
      var i := bw.Buffered();
      var _, we := bw.Write(piece);
      closed := ClosedFlag();
      next := key;
      if closed {
        return;
      }
      next := MaskBuffered(i, key);
      assert (pending + piece)[..i] == pending && (pending + piece)[i..] == piece;
      Assoc(wire, pending, Masked(piece, key));
    }

    /** One round of the loop: flush a full buffer, then buffer and mask what fits. */
    method MaskedRound(rest: seq<bv8>, key: Key) returns (j: nat, next: Key, e: Option<Error>)
      requires bw.Valid() && bw.err.None? && rest != []
      modifies this`hindered, bw, bw.slab, bw.sink
      ensures bw.Valid() && bw.Outside() == old(bw.Outside())
      ensures old(bw.sink.wire) <= bw.sink.wire <= old(bw.Stream())
      ensures e.None? ==> hindered == old(hindered)
      ensures old(Troubles()) <= Troubles() && (e.Some? ==> Troubles() > old(Troubles()))
      ensures e.None? ==>
        && 0 < j <= |rest| && bw.err.None? && next == key.Turned(j)
        && bw.Stream() == old(bw.Stream()) + Masked(rest[..j], key)
    {
      j, next, e := 0, key, None;
      WireIsPrefix();
      if bw.Available() == 0 {
        e := bw.Flush();
        WireIsPrefix();
        if e.Some? {
          return;
        }
      }
      j := if |rest| < bw.Available() then |rest| else bw.Available();
      var closed;
      next, closed := WritePiece(rest[..j], key);
      if closed {
        e := Some(NetworkClosed);
      }
    }

    /**
     The client's payload: copied piece by piece into the write buffer and masked there. A byte
     that reaches the sink has been masked, whatever happens on the way.
     */
    method WriteMaskedPayload(p: seq<bv8>, key: Key) returns (n: nat, e: Option<Error>)
      requires bw.Valid() && bw.err.None?
      modifies this`hindered, bw, bw.slab, bw.sink
      ensures bw.Valid() && bw.Outside() == old(bw.Outside()) && old(bw.sink.wire) <= bw.sink.wire
      ensures old(Troubles()) <= Troubles() && (e.Some? ==> Troubles() > old(Troubles()))
      ensures e.None? ==> hindered == old(hindered)
      ensures e.None? ==> n == |p| && bw.err.None? && bw.Stream() == old(bw.Stream()) + Masked(p, key)
      ensures bw.sink.wire <= old(bw.Stream()) + Masked(p, key)
    {
      n, e := 0, None;
      var maskKey := key;
      ghost var start := bw.Stream();
      assert p[..0] == [] && start + Masked(p[..0], key) == start;
      WireIsPrefix();
      hide *;
      while n < |p|
        invariant n <= |p| && maskKey == key.Turned(n) && e.None?
        invariant bw.Valid() && bw.err.None? && bw.Outside() == old(bw.Outside()) && old(bw.sink.wire) <= bw.sink.wire
        invariant bw.Stream() == start + Masked(p[..n], key)
        invariant bw.sink.wire <= bw.Stream() && old(Troubles()) <= Troubles() && hindered == old(hindered)
      {
        var j;
        j, maskKey, e := MaskedStep(p, n, maskKey, key, start);
        if e.Some? {
          return;
        }
        n := n + j;
      }
      assert p[..n] == p;
    }

    /** A round in the middle of a payload of which n bytes are through. */
    method MaskedStep(p: seq<bv8>, n: nat, maskKey: Key, ghost key: Key, ghost start: seq<bv8>)
      returns (j: nat, next: Key, e: Option<Error>)
      requires bw.Valid() && bw.err.None? && n < |p| && maskKey == key.Turned(n)
      requires bw.Stream() == start + Masked(p[..n], key)
      modifies this`hindered, bw, bw.slab, bw.sink
      ensures e.None? ==> hindered == old(hindered)
      ensures old(Troubles()) <= Troubles() && (e.Some? ==> Troubles() > old(Troubles()))
      ensures bw.Valid() && bw.Outside() == old(bw.Outside()) && old(bw.sink.wire) <= bw.sink.wire
      ensures bw.sink.wire <= start + Masked(p, key)
      ensures e.None? ==>
        && 0 < j <= |p| - n && bw.err.None? && next == key.Turned(n + j)
        && bw.Stream() == start + Masked(p[..n + j], key) && bw.sink.wire <= bw.Stream()
    {
      MaskedPrefix(p, n, key, start);
      hide *;
      j, next, e := MaskedRound(p[n..], maskKey);
      if e.Some? {
        return;
      }
      WireIsPrefix();
      MaskedGrows(p, n, j, key, start);
      MaskedPrefix(p, n + j, key, start);
      assert p[n..][..j] == p[n..n + j];
    }

    lemma WireIsPrefix()
      requires bw.Valid()
      ensures bw.sink.wire <= bw.Stream()
    {
    }

    static lemma MaskedPrefix(p: seq<bv8>, n: nat, key: Key, start: seq<bv8>)
      requires n <= |p|
      ensures start + Masked(p[..n], key) <= start + Masked(p, key)
    {
      hide *;
      MaskedAppend(p[..n], p[n..], key);
      Split(p, n);
      Assoc(start, Masked(p[..n], key), Masked(p[n..], key.Turned(n)));
    }

    static lemma MaskedGrows(p: seq<bv8>, n: nat, j: nat, key: Key, start: seq<bv8>)
      requires n + j <= |p|
      ensures key.Turned(n).Turned(j) == key.Turned(n + j)
      ensures start + Masked(p[..n], key) + Masked(p[n..n + j], key.Turned(n)) == start + Masked(p[..n + j], key)
    {
      hide *;
      TurnedAdds(key, n, j);
      MaskedAppend(p[..n], p[n..n + j], key);
      assert p[..n + j] == p[..n] + p[n..n + j];
      Assoc(start, Masked(p[..n], key), Masked(p[n..n + j], key.Turned(n)));
    }

    method WriteFramePayload(h: Header, p: seq<bv8>) returns (n: nat, e: Option<Error>)
      requires bw.Valid() && bw.err.None?
      modifies this`hindered, bw, bw.slab, bw.sink
      ensures e.None? ==> hindered == old(hindered)
      ensures old(Troubles()) <= Troubles() && (e.Some? ==> Troubles() > old(Troubles()))
      ensures bw.Valid() && bw.Outside() == old(bw.Outside()) && old(bw.sink.wire) <= bw.sink.wire
      ensures e.None? ==> n == |p| && bw.err.None? && bw.Stream() == old(bw.Stream()) + WirePayload(h, p)
      ensures bw.sink.wire <= old(bw.Stream()) + WirePayload(h, p)
    {
      if !h.masked {
        n, e := bw.Write(p);
        assert p[..n] <= p && p[..|p|] == p;
        WireIsPrefix();
        var closed := ClosedFlag();
        if e.None? && closed {
          e := Some(NetworkClosed);
        }
        return;
      }
      n, e := WriteMaskedPayload(p, h.maskKey);
    }

    /** Header, payload and, for a final frame, a flush. */
    method WriteWhole(f: Frame) returns (n: nat, e: Option<Error>)
      requires bw.Valid() && f.Valid()
      modifies this`hindered, bw, bw.slab, bw.sink
      ensures e.None? ==> hindered == old(hindered)
      ensures old(Troubles()) <= Troubles() && (e.Some? ==> old(bw.err).Some? || Troubles() > old(Troubles()))
      ensures bw.Valid() && bw.Outside() == old(bw.Outside()) && old(bw.sink.wire) <= bw.sink.wire
      ensures e.None? ==> n == |f.payload| && bw.err.None? && bw.Stream() == old(bw.Stream()) + EncodeFrame(f)
      ensures e.None? && f.h.fin ==> bw.sink.wire == bw.Stream()
      ensures bw.sink.wire <= old(bw.Stream()) + EncodeFrame(f)
    {
      ghost var start, head, body := bw.Stream(), EncodeHeader(f.h), WirePayload(f.h, f.payload);
      assert EncodeFrame(f) == head + body;
      Assoc(start, head, body);
      assert start + head <= start + head + body;
      n := 0;
      e := WriteFrameHeader(f.h);
      WireIsPrefix();
      if e.Some? {
        return;
      }
      n, e := WriteFramePayload(f.h, f.payload);
      WireIsPrefix();
      if e.Some? {
        return;
      }
      if f.h.fin {
        e := bw.Flush();
        WireIsPrefix();
        assert e.None? ==> bw.Pending() == [];
      }
    }

    /** Writes a frame that nothing stands against. */
    method SendFrame(f: Frame) returns (n: nat, e: Option<Error>)
      requires Valid() && f.Valid() && f.h.masked == client && !f.h.rsv2 && !f.h.rsv3 && !closeSent
      modifies this`closeSent, this`log, this`intact, this`hindered, bw, bw.slab, bw.sink
      ensures Valid() && bw.Outside() == old(bw.Outside()) && old(bw.sink.wire) <= bw.sink.wire
      ensures old(Troubles()) <= Troubles() && (e.Some? ==> old(bw.err).Some? || Troubles() > old(Troubles()))
      ensures e.None? ==> hindered == old(hindered)
      ensures bw.err.Some? ==> old(bw.err).Some? || Troubles() > old(Troubles())
      ensures bw.sink.wire <= old(bw.Stream()) + EncodeFrame(f)
      ensures e.None? ==> n == |f.payload| && log == old(log) + [f] && intact == old(intact)
      ensures e.Some? ==> log == old(log) && !intact
      ensures e.None? && f.h.fin ==> bw.sink.wire == bw.Stream()
      ensures closeSent == (old(closeSent) || (e.None? && f.h.opcode == OP_CLOSE))
    {
      EncodeFramesSnoc(log, f);
      hide EncodeFrame, EncodeFrames, Writer.Stream, Writer.Outside, Frame.Valid;
      n, e := WriteWhole(f);
      if e.Some? {
        intact := false;
        return;
      }
      log := log + [f];
      if f.h.opcode == OP_CLOSE {
        closeSent := true;
      }
    }

    /**
     Writes one frame. Refused, with nothing touched, once a close frame has been sent, when the
     connection is closed, or when no masking key could be drawn. It fails otherwise only if the
     writer had failed before, or the sink fails or the connection is seen closing during the call.
     Whatever fails, the sink has received a prefix of the frames in order.
     */
    method WriteFrame(fin: bool, flate: bool, opcode: bv8, p: seq<bv8>, key: Option<Key>, connClosed: bool)
      returns (n: nat, e: Option<Error>)
      requires Valid() && opcode < 16 && |p| < MaxLength()
      modifies this`closeSent, this`log, this`intact, this`hindered, bw, bw.slab, bw.sink
      ensures Valid() && bw.Outside() == old(bw.Outside()) && old(bw.sink.wire) <= bw.sink.wire
      ensures old(Troubles()) <= Troubles() && (e.None? ==> hindered == old(hindered))
      ensures bw.err.Some? ==> old(bw.err).Some? || Troubles() > old(Troubles())
      ensures e.Some? ==>
        || old(closeSent) || connClosed || (client && key.None?)
        || old(bw.err).Some? || Troubles() > old(Troubles())
      ensures e.None? && client ==> key.Some? && log != [] && log[|log| - 1].h.maskKey == key.value
      ensures
        var f := Frame(FrameHeader(fin, flate, opcode, |p|, client, key.GetOr(NoKey())), p);
        && bw.sink.wire <= old(bw.Stream()) + EncodeFrame(f)
        && log == (if e.None? then old(log) + [f] else old(log))
        && (e.None? ==> n == |p| && intact == old(intact)) && (intact ==> old(intact))
        && (e.None? && fin ==> bw.sink.wire == bw.Stream())
      ensures old(closeSent) || connClosed || (client && key.None?) ==>
        e.Some? && bw.sink.wire == old(bw.sink.wire) && bw.Stream() == old(bw.Stream()) && intact == old(intact)
      ensures closeSent == (old(closeSent) || (e.None? && opcode == OP_CLOSE))
      ensures old(closeSent) || connClosed ==> e == Some(NetworkClosed)
    {
      n := 0;
      var f := Frame(FrameHeader(fin, flate, opcode, |p|, client, key.GetOr(NoKey())), p);
      assert f.Valid() && f.h.fin == fin && f.h.opcode == opcode && f.h.masked == client && !f.h.rsv2 && !f.h.rsv3;
      WireIsPrefix();
      PrefixExtends(bw.sink.wire, bw.Stream(), EncodeFrame(f));
      hide *;
      if closeSent || connClosed {
        return 0, Some(NetworkClosed);
      }
      if client && key.None? {
        return 0, Some(IO(0));
      }
      n, e := SendFrame(f);
    }

    static lemma PrefixExtends(a: seq<bv8>, b: seq<bv8>, c: seq<bv8>)
      requires a <= b
      ensures a <= b + c
    {
    }
  }
}
