/** The message writer: fragments, optional compression, and the fin frame. */
module MsgWriter {
  import opened Wrappers
  import opened Mask
  import opened Frame
  import opened Messages
  import FrameWriter
  import BufioWriter
  import Close
  import opened Seqs

  /** Compression shows in the frames only if it was negotiated. */
  ghost predicate AsNegotiated(log: seq<Frame>, deflate: bool) {
    forall i :: 0 <= i < |log| ==> (log[i].h.rsv1 ==> deflate)
  }

  /** What a peer accepts of a control frame: at most 125 bytes, and a close frame has to be well-formed. */
  predicate ControlFits(opcode: bv8, payload: seq<bv8>) {
    |payload| <= MAX_CONTROL_PAYLOAD && (opcode == OP_CLOSE ==> Close.ParseClosePayload(payload).Ok?)
  }

  ghost predicate ControlsFit(log: seq<Frame>) {
    forall i :: 0 <= i < |log| && IsControl(log[i].h.opcode) ==> ControlFits(log[i].h.opcode, log[i].payload)
  }

  lemma OneMoreFits(log: seq<Frame>, f: Frame)
    ensures ControlsFit(log + [f]) <==>
      ControlsFit(log) && (IsControl(f.h.opcode) ==> ControlFits(f.h.opcode, f.payload))
  {
    if ControlsFit(log + [f]) {
      forall i | 0 <= i < |log| && IsControl(log[i].h.opcode)
        ensures ControlFits(log[i].h.opcode, log[i].payload)
      {
        assert (log + [f])[i] == log[i];
      }
      assert (log + [f])[|log|] == f;
    }
  }

  /** What other goroutines' control frames have done: one could not be written, or one does not fit. */
  datatype Beside = Beside(failed: bool, misfit: bool)

  class MsgWriter {
    const c: FrameWriter.Conn
    /** Whether permessage-deflate was negotiated, and from which size on it is used. */
    const deflate: bool
    const threshold: nat
    var held: bool
    var closed: bool
    var opcode: bv8
    var flate: bool
    var tail: seq<bv8>
    /** The error at which the compressor has got stuck. */
    var stuck: Option<Error>
    ghost var beside: Beside
    /** Messages completed so far; type of the current one; its bytes; those already in frames. */
    ghost var sent: seq<Message>
    ghost var typ: bv8
    ghost var produced: seq<bv8>
    ghost var framed: seq<bv8>

    constructor (c: FrameWriter.Conn, deflate: bool, threshold: nat)
      requires c.Valid() && c.intact && c.log == []
      ensures Valid() && sent == [] && !held && this.c == c && this.deflate == deflate && this.threshold == threshold
      ensures stuck.None? && beside == Beside(false, false)
    {
      this.c, this.deflate, this.threshold := c, deflate, threshold;
      held, closed, opcode, flate, tail, stuck, beside := false, true, OP_TEXT, false, [], None, Beside(false, false);
      sent, typ, produced, framed := [], OP_TEXT, [], [];
    }

    /** While nothing has failed, the frames on the stream mean exactly the messages written. */
    ghost predicate Valid()
      reads `typ, `opcode, `sent, `framed, `held, `flate, `tail, `produced
      reads c`closeSent, c`log, c`intact, c.bw, c.bw.slab, c.bw.sink
    {
      && c.Valid() && FramesValid()
      && |tail| <= 4
      && (c.intact && held ==> Accounted())
    }

    ghost predicate FramesValid()
      reads `typ, `opcode, `sent, `framed, `held, `flate
      reads c`closeSent, c`log, c`intact, c.bw, c.bw.slab, c.bw.sink
    {
      && c.Valid()
      && typ in {OP_TEXT, OP_BINARY} && (flate ==> deflate) && AsNegotiated(c.log, deflate)
      && (opcode == typ || opcode == OP_CONTINUATION)
      && (c.intact ==> Assemble(c.log) == Assembly(sent, Open()) && (held && opcode == typ ==> framed == []))
    }

    /** The message begun and not finished, as far as it is in frames. */
    ghost function Open(): Option<Message>
      reads `typ, `opcode, `framed, `held, `flate
    {
      if held && opcode == OP_CONTINUATION then Some(Message(typ, flate, framed)) else None
    }

    /** How the bytes of the current message are spread over frames and tail. */
    ghost predicate Accounted()
      reads `framed, `tail, `produced, `flate
    {
      && (flate ==> framed + tail == produced && |tail| == Min(4, |produced|))
      && (!flate ==> framed == produced && tail == [])
    }

    /**
     Whatever control frames other goroutines have slipped in between: what was given up has not come
     back, success gives nothing up unless one of theirs has failed, and only one of theirs can have
     made the stream unacceptable.
     */
    twostate predicate OnlyData(ok: bool)
      reads `beside, c`intact, c`closeSent, c`log
    {
      && (c.intact ==> old(c.intact)) && (old(c.closeSent) ==> c.closeSent)
      && (ok && !beside.failed ==> c.intact == old(c.intact))
      && (ControlsFit(c.log) ==> old(ControlsFit(c.log)))
      && (!beside.misfit ==> (ControlsFit(c.log) <==> old(ControlsFit(c.log))))
      && (old(beside.failed) ==> beside.failed) && (old(beside.misfit) ==> beside.misfit)
    }

    /** The write buffer had failed before, or something outside has gone wrong meanwhile. */
    twostate predicate Trouble()
      reads c`hindered, c.bw, c.bw.sink
    {
      old(c.bw.err).Some? || c.Troubles() > old(c.Troubles())
    }

    /** Without trouble the write buffer does not fail, and nothing does unless a close frame has been sent. */
    twostate predicate Caused(fails: bool)
      reads c`hindered, c`closeSent, c.bw, c.bw.sink
    {
      old(c.Troubles()) <= c.Troubles() && (c.bw.err.Some? || (fails && !c.closeSent) ==> Trouble())
    }

    /** Begins a message, once the lock on the writer has been obtained. */
    method Reset(typ: bv8, lockFails: bool) returns (e: Option<Error>)
      requires Valid() && typ in {OP_TEXT, OP_BINARY}
      modifies this
      ensures Valid() && sent == old(sent) && stuck == old(stuck) && beside == old(beside)
      ensures e == if old(held) || lockFails then Some(Lock) else None
      ensures e.Some? ==> held == old(held) && closed == old(closed) && produced == old(produced)
      ensures e.None? ==> held && !closed && !flate && opcode == this.typ == typ && produced == []
    {
      hide BufioWriter.Writer.Valid, BufioWriter.Writer.Outside, BufioWriter.Writer.Stream;
      hide FrameWriter.Conn.Valid, Assemble;
      hide AsNegotiated;
      if held || lockFails {
        return Some(Lock);
      }
      held := true;
      opcode, flate, closed, tail := typ, false, false, [];
      this.typ, produced, framed := typ, [], [];
      return None;
    }

    /** Everything that decides one frame's fate outside this writer. */
    method Environment() returns (key: Option<Key>, connClosed: bool)
      modifies c`hindered
      ensures c.hindered == old(c.hindered) + if connClosed || (c.client && key.None?) then 1 else 0
    {
      key := *;
      connClosed := *;
      if connClosed || (c.client && key.None?) {
        c.hindered := c.hindered + 1;
      }
    }

    /** What one more data frame does to the meaning of the frames so far. */
    static lemma FeedData(sent: seq<Message>, open: Option<Message>, typ: bv8, flate: bool, opcode: bv8,
                          framed: seq<bv8>, f: Frame)
      requires typ in {OP_TEXT, OP_BINARY} && opcode in {typ, OP_CONTINUATION}
      requires open == if opcode == OP_CONTINUATION then Some(Message(typ, flate, framed)) else None
      requires opcode == typ ==> framed == []
      requires f.h.opcode == opcode && f.h.rsv1 == (flate && opcode == typ)
      ensures Feed(Assembly(sent, open), f) == Settle(sent, Message(typ, flate, framed + f.payload), f.h.fin)
    {
      assert [] + f.payload == f.payload;
    }

    lemma DataExtends(fin: bool, p: seq<bv8>, key: Key, f: Frame)
      requires FramesValid() && held
      requires f == Frame(FrameWriter.FrameHeader(fin, flate, opcode, |p|, c.client, key), p)
      ensures c.Valid() && opcode < 16 && opcode != OP_CLOSE && (ControlsFit(c.log + [f]) <==> ControlsFit(c.log))
      ensures AsNegotiated(c.log, deflate) && AsNegotiated(c.log + [f], deflate)
      ensures c.intact ==> Assemble(c.log) == Assembly(sent, Open())
      ensures c.intact ==> Assemble(c.log + [f]) == Settle(sent, Message(typ, flate, framed + p), fin)
    {
      hide Assemble, Feed, FrameWriter.Conn.Valid;
      AssembleSnoc(c.log, f);
      OneMoreFits(c.log, f);
      if c.intact {
        FeedData(sent, Open(), typ, flate, opcode, framed, f);
      }
    }

    /** Writes the next data frame of the current message, behind any control frames of other goroutines. */
    method WriteData(fin: bool, p: seq<bv8>) returns (n: nat, e: Option<Error>, ghost f: Frame)
      requires FramesValid() && |p| < MaxLength() && held
      modifies this`beside, c, c.bw, c.bw.slab, c.bw.sink
      ensures c.Valid() && AsNegotiated(c.log, deflate) && c.bw.Outside() == old(c.bw.Outside()) && OnlyData(e.None?)
      ensures Caused(e.Some?) && (old(c.closeSent) ==> e.Some?) && (e.None? ==> !c.closeSent)
      ensures e.None? ==> n == |p| && (fin ==> c.bw.sink.wire == c.bw.Stream())
      ensures c.intact && e.None? ==> Assemble(c.log) == Settle(sent, Message(typ, flate, framed + p), fin)
      ensures c.intact && e.Some? ==> Assemble(c.log) == Assembly(sent, Open())
    {
      hide FramesValid, ControlsFit, BufioWriter.Writer.Outside, BufioWriter.Writer.Stream, FrameWriter.Conn.Valid;
      hide Assemble, AsNegotiated;
      Others();
      n, e, f := SendData(fin, p);
    }

    /** Nothing comes between. */
    method SendData(fin: bool, p: seq<bv8>) returns (n: nat, e: Option<Error>, ghost f: Frame)
      requires FramesValid() && |p| < MaxLength() && held
      modifies c, c.bw, c.bw.slab, c.bw.sink
      ensures c.Valid() && AsNegotiated(c.log, deflate) && c.bw.Outside() == old(c.bw.Outside())
      ensures (c.intact ==> old(c.intact)) && (ControlsFit(c.log) <==> old(ControlsFit(c.log)))
      ensures Caused(e.Some?) && c.closeSent == old(c.closeSent) && (e.None? ==> !c.closeSent)
      ensures e.None? ==> n == |p| && c.intact == old(c.intact) && (fin ==> c.bw.sink.wire == c.bw.Stream())
      ensures c.intact && e.None? ==> Assemble(c.log) == Settle(sent, Message(typ, flate, framed + p), fin)
      ensures c.intact && e.Some? ==> Assemble(c.log) == Assembly(sent, Open())
    {
      hide FramesValid, ControlsFit, Assemble, AsNegotiated, FrameWriter.FrameHeader, FrameWriter.Conn.Valid, Settle;
      hide BufioWriter.Writer.Valid, BufioWriter.Writer.Outside, BufioWriter.Writer.Stream, EncodeFrame;
      var key, connClosed := Environment();
      f := Frame(FrameWriter.FrameHeader(fin, flate, opcode, |p|, c.client, key.GetOr(NoKey())), p);
      DataExtends(fin, p, key.GetOr(NoKey()), f);
      n, e := c.WriteFrame(fin, flate, opcode, p, key, connClosed);
    }

    /** Any number of control frames of other goroutines, between two data frames. */
    method Others()
      requires FramesValid()
      modifies this`beside, c, c.bw, c.bw.slab, c.bw.sink
      ensures c.Valid() && FramesValid() && c.bw.Outside() == old(c.bw.Outside()) && OnlyData(true) && Caused(false)
    {
      FramesAreValid();
      hide FramesValid, ControlsFit, FrameWriter.Conn.Valid;
      hide BufioWriter.Writer.Valid, BufioWriter.Writer.Outside, BufioWriter.Writer.Stream;
      var more: nat := *;
      while more > 0
        invariant c.Valid() && c.bw.Valid() && FramesValid() && c.bw.Outside() == old(c.bw.Outside())
        invariant OnlyData(true) && Caused(false)
      {
        Other();
        more := more - 1;
      }
    }

    /** One of them. */
    method Other()
      requires FramesValid()
      modifies this`beside, c, c.bw, c.bw.slab, c.bw.sink
      ensures c.Valid() && c.bw.Valid() && FramesValid() && c.bw.Outside() == old(c.bw.Outside())
      ensures OnlyData(true) && Caused(false)
    {
      hide FramesValid, ControlsFit, ControlFits, IsControl, FrameWriter.Conn.Valid;
      hide BufioWriter.Writer.Valid, BufioWriter.Writer.Outside, BufioWriter.Writer.Stream;
      var op, p := AnyControl();
      var e := SendControl(op, p);
      beside := Beside(beside.failed || e.Some?, beside.misfit || !ControlFits(op, p));
      FramesAreValid();
    }

    lemma FramesAreValid()
      requires FramesValid()
      ensures c.Valid() && c.bw.Valid()
    {
    }

    /** A control frame that another goroutine writes. */
    method AnyControl() returns (op: bv8, p: seq<bv8>)
      ensures IsControl(op) && |p| < MaxLength()
    {
      op, p := *, *;
      if !IsControl(op) || |p| >= MaxLength() {
        op, p := OP_PONG, [];
      }
    }

    /** One data frame that does not end the message. */
    method WriteFragment(p: seq<bv8>) returns (n: nat, e: Option<Error>)
      requires FramesValid() && |p| < MaxLength() && held
      modifies this`opcode, this`framed, this`beside, c, c.bw, c.bw.slab, c.bw.sink
      ensures c.Valid() && FramesValid() && held && c.bw.Outside() == old(c.bw.Outside())
      ensures OnlyData(e.None?) && Caused(e.Some?) && (e.None? ==> !c.closeSent)
      ensures e.None? ==> n == |p| && framed == old(framed) + p
      ensures e.Some? ==> framed == old(framed)
    {
      hide BufioWriter.Writer.Outside, BufioWriter.Writer.Stream, FrameWriter.Conn.Valid;
      ghost var f;
      n, e, f := WriteData(false, p);
      if e.Some? {
        return;
      }
      opcode := OP_CONTINUATION;
      framed := framed + p;
    }

    static lemma Regroup(framed: seq<bv8>, tail: seq<bv8>, extra: nat)
      requires extra <= |tail|
      ensures (framed + tail[..extra]) + tail[extra..] == framed + tail
    {
    }

    /** Hands the first bytes of the tail on as a frame and shifts the rest over. */
    method ReleaseTail(extra: nat) returns (e: Option<Error>)
      requires Valid() && held && flate && extra <= |tail|
      modifies this`opcode, this`framed, this`tail, this`beside, c, c.bw, c.bw.slab, c.bw.sink
      ensures c.Valid() && FramesValid() && held && c.bw.Outside() == old(c.bw.Outside())
      ensures OnlyData(e.None?) && Caused(e.Some?)
      ensures framed + tail == old(framed + tail)
      ensures e.Some? ==> tail == old(tail)
      ensures e.None? ==> |tail| == |old(tail)| - extra
    {
      hide BufioWriter.Writer.Outside, BufioWriter.Writer.Stream, FrameWriter.Conn.Valid;
      e := None;
      if extra > 0 {
        Regroup(framed, tail, extra);
        var _, we := WriteFragment(tail[..extra]);
        if we.Some? {
          return we;
        }
        tail := tail[extra..];
      }
    }

    /** Holds back the last four bytes of a longer piece and hands the rest on as a frame. */
    method ForwardFront(p: seq<bv8>) returns (n: nat, e: Option<Error>)
      requires FramesValid() && held && flate && tail == [] && 4 < |p| < MaxLength()
      modifies this`opcode, this`framed, this`tail, this`beside, c, c.bw, c.bw.slab, c.bw.sink
      ensures c.Valid() && FramesValid() && held && c.bw.Outside() == old(c.bw.Outside())
      ensures OnlyData(e.None?) && Caused(e.Some?) && |tail| == 4
      ensures e.None? ==> n == |p| && framed + tail == old(framed) + p
    {
      tail := p[|p| - 4..];
      Split(p, |p| - 4);
      Assoc(framed, p[..|p| - 4], p[|p| - 4..]);
      n, e := WriteFragment(p[..|p| - 4]);
      n := n + 4;
    }

    /** Consumes the compressor's output, holding back the last four bytes of it. */
    method TrimWrite(p: seq<bv8>) returns (n: nat, e: Option<Error>)
      requires Valid() && |p| < MaxLength() && held && flate
      modifies this`opcode, this`framed, this`tail, this`produced, this`beside, c, c.bw, c.bw.slab, c.bw.sink
      ensures Valid() && held && c.bw.Outside() == old(c.bw.Outside())
      ensures OnlyData(e.None?) && Caused(e.Some?)
      ensures e.None? ==> n == |p| && produced == old(produced) + p
    {
      hide FramesValid, ControlsFit, FrameWriter.Conn.Valid;
      hide BufioWriter.Writer.Valid, BufioWriter.Writer.Outside, BufioWriter.Writer.Stream;
      var extra := |tail| + |p| - 4;
      Assoc(framed, tail, p);
      if extra <= 0 {
        tail := tail + p;
        produced := produced + p;
        return |p|, None;
      }
      if extra > |tail| {
        extra := |tail|;
      }
      e := ReleaseTail(extra);
      if e.Some? {
        return 0, e;
      }
      Assoc(framed, tail, p);
      if |p| <= 4 {
        tail := tail + p;
        produced := produced + p;
        return |p|, None;
      }
      assert framed == framed + tail;
      n, e := ForwardFront(p);
      produced := if e.None? then produced + p else framed + tail;
    }

    /**
     The compressor writes its output in whatever pieces it likes. It stops at an error and from then
     on does nothing but report it.
     */
    method Compressor(outs: seq<seq<bv8>>) returns (e: Option<Error>)
      requires Valid() && held && flate
      requires forall i :: 0 <= i < |outs| ==> |outs[i]| < MaxLength()
      modifies this`opcode, this`framed, this`tail, this`produced, this`stuck, this`beside
      modifies c, c.bw, c.bw.slab, c.bw.sink
      ensures Valid() && held && c.bw.Outside() == old(c.bw.Outside())
      ensures OnlyData(e.None?)
      ensures Caused(e.Some? && old(stuck).None?)
      ensures e.None? ==> produced == old(produced) + Joined(outs)
      ensures stuck == if old(stuck).Some? then old(stuck) else e
      ensures old(stuck).Some? ==> e == old(stuck) && c.log == old(c.log) && c.bw.Stream() == old(c.bw.Stream())
    {
      hide Valid, FramesValid, Accounted, ControlsFit, FrameWriter.Conn.Valid, Joined;
      hide BufioWriter.Writer.Valid, BufioWriter.Writer.Outside, BufioWriter.Writer.Stream;
      BufferIsValid();
      e := stuck;
      if e.Some? {
        return;
      }
      var i := 0;
      assert outs[0..] == outs;
      while i < |outs|
        invariant i <= |outs| && Valid() && held && c.bw.Valid() && c.bw.Outside() == old(c.bw.Outside())
        invariant OnlyData(true) && Caused(false) && stuck.None?
        invariant produced + Joined(outs[i..]) == old(produced) + Joined(outs)
      {
        NextPiece(produced, outs, i);
        var _, we := TrimWrite(outs[i]);
        BufferIsValid();
        if we.Some? {
          stuck := we;
          return we;
        }
        i := i + 1;
      }
      NoPieces(produced, outs);
    }

    lemma BufferIsValid()
      requires Valid()
      ensures c.bw.Valid()
    {
    }

    static lemma NextPiece(produced: seq<bv8>, outs: seq<seq<bv8>>, i: nat)
      requires i < |outs|
      ensures produced + Joined(outs[i..]) == (produced + outs[i]) + Joined(outs[i + 1..])
    {
      assert outs[i..][0] == outs[i] && outs[i..][1..] == outs[i + 1..];
      Assoc(produced, outs[i], Joined(outs[i + 1..]));
    }

    static lemma NoPieces(produced: seq<bv8>, outs: seq<seq<bv8>>)
      ensures produced + Joined(outs[|outs|..]) == produced
    {
      assert produced + [] == produced;
    }

    /**
     Writes part of a message. Whether the message is compressed is decided by the first write
     that reaches a frame. outs is what the compressor emits if it is used. A handle that has been
     closed stays closed until its writer is taken for the next message.
     */
    method Write(p: seq<bv8>, outs: seq<seq<bv8>>, lockFails: bool) returns (e: Option<Error>)
      requires Valid() && (held || closed) && |p| < MaxLength()
      requires forall i :: 0 <= i < |outs| ==> |outs[i]| < MaxLength()
      modifies this`opcode, this`framed, this`tail, this`produced, this`stuck, this`flate, this`beside
      modifies c, c.bw, c.bw.slab, c.bw.sink
      ensures Valid() && c.bw.Outside() == old(c.bw.Outside()) && OnlyData(e.None?)
      ensures Caused(e.Some? && !(closed || lockFails || (flate && old(stuck).Some?)))
      ensures (e.None? && !flate ==> !c.closeSent) && (e.None? || !flate ==> stuck == old(stuck))
      ensures closed || lockFails ==>
        && e == Some(if lockFails then Lock else WriterClosed) && c.log == old(c.log)
        && c.bw.Stream() == old(c.bw.Stream())
        && c.bw.sink.wire == old(c.bw.sink.wire) && produced == old(produced)
      ensures old(stuck).Some? && flate && !closed && !lockFails ==> e == old(stuck) && c.log == old(c.log)
      ensures e.None? ==>
        produced == old(produced) + (if flate then Joined(outs) else p)
      ensures !closed && !lockFails ==>
        flate == (old(flate) || (deflate && old(opcode) != OP_CONTINUATION && |p| >= threshold))
    {
      hide FramesValid, BufioWriter.Writer.Outside, BufioWriter.Writer.Stream, FrameWriter.Conn.Valid;
      if lockFails {
        return Some(Lock);
      }
      if closed {
        return Some(WriterClosed);
      }
      if deflate && opcode != OP_CONTINUATION && |p| >= threshold {
        EnsureFlate();
      }
      if flate {
        e := Compressor(outs);
        return;
      }
      e := WritePlain(p);
    }

    /** An uncompressed part is a frame of its own. */
    method WritePlain(p: seq<bv8>) returns (e: Option<Error>)
      requires Valid() && held && !flate && |p| < MaxLength()
      modifies this`opcode, this`framed, this`produced, this`beside, c, c.bw, c.bw.slab, c.bw.sink
      ensures Caused(e.Some?) && (e.None? ==> !c.closeSent)
      ensures Valid() && c.bw.Outside() == old(c.bw.Outside()) && OnlyData(e.None?)
      ensures e.None? ==> produced == old(produced) + p
    {
      hide FramesValid, ControlsFit, FrameWriter.Conn.Valid;
      hide BufioWriter.Writer.Valid, BufioWriter.Writer.Outside, BufioWriter.Writer.Stream;
      var _, we := WriteFragment(p);
      e := we;
      if e.None? {
        produced := produced + p;
      }
    }

    method EnsureFlate()
      requires Valid() && held && deflate && opcode != OP_CONTINUATION
      modifies this`flate
      ensures Valid() && held && flate
    {
      hide Assemble, FrameWriter.Conn.Valid;
      flate := true;
    }

    /**
     Ends the message: what the compressor still has, then a final frame. On success exactly one
     more message is complete, and it is what was written. On any error, be it of the compressor's
     flush or of the final frame, the lock stays held, with the handle closed unless its own lock
     was not to be had: no other message can begin, and a second Close only fails again.
     */
    method Close(outs: seq<seq<bv8>>, lockFails: bool) returns (e: Option<Error>)
      requires Valid() && (held || closed)
      requires forall i :: 0 <= i < |outs| ==> |outs[i]| < MaxLength()
      modifies this`opcode, this`framed, this`tail, this`produced, this`stuck, this`closed, this`held, this`sent
      modifies this`beside, c, c.bw, c.bw.slab, c.bw.sink
      ensures Valid() && c.bw.Outside() == old(c.bw.Outside()) && OnlyData(e.None?)
      ensures old(closed) || lockFails ==>
        && e == Some(if lockFails then Lock else WriterClosed) && c.log == old(c.log) && closed == old(closed)
        && c.bw.Stream() == old(c.bw.Stream()) && c.bw.sink.wire == old(c.bw.sink.wire)
      ensures old(c.closeSent) || (old(stuck).Some? && flate) ==> e.Some?
      ensures Caused(false) && (e.None? ==> !c.closeSent)
      ensures !Trouble() ==>
        (e.Some? <==> old(closed) || lockFails || (flate && old(stuck).Some?) || c.closeSent)
      ensures e.Some? ==> sent == old(sent) && held == old(held) && (!lockFails ==> closed)
      ensures e.None? ==>
        && !held && c.bw.sink.wire == c.bw.Stream()
        && produced == old(produced) + (if flate then Joined(outs) else [])
        && sent == old(sent) + [Message(typ, flate, framed)]
        && (c.intact ==> Accounted() && (flate && EndsInMarker(produced) ==> framed + DEFLATE_MESSAGE_TAIL == produced))
    {
      hide Accounted, FramesValid, Valid, ControlsFit, Joined, EndsInMarker, BufioWriter.Writer.Outside;
      hide BufioWriter.Writer.Stream;
      if lockFails {
        return Some(Lock);
      }
      if closed {
        return Some(WriterClosed);
      }
      e := FlushRest(outs);
      if e.Some? {
        return;
      }
      e := WriteFinal();
    }

    /** No writes from here on; what the compressor still has goes out. */
    method FlushRest(outs: seq<seq<bv8>>) returns (e: Option<Error>)
      requires Valid() && held
      requires forall i :: 0 <= i < |outs| ==> |outs[i]| < MaxLength()
      modifies this`opcode, this`framed, this`tail, this`produced, this`stuck, this`closed
      modifies this`beside, c, c.bw, c.bw.slab, c.bw.sink
      ensures Valid() && c.bw.Outside() == old(c.bw.Outside()) && OnlyData(e.None?) && closed
      ensures old(stuck).Some? && flate ==> e == old(stuck)
      ensures Caused(e.Some? && !(flate && old(stuck).Some?))
      ensures e.None? ==>
        && produced == old(produced) + (if flate then Joined(outs) else [])
        && (c.intact && flate && EndsInMarker(produced) ==> framed + DEFLATE_MESSAGE_TAIL == produced)
    {
      hide FramesValid, BufioWriter.Writer.Outside, BufioWriter.Writer.Stream, FrameWriter.Conn.Valid;
      closed := true;
      e := None;
      assert produced + [] == produced;
      if flate {
        e := Compressor(outs);
        if e.None? && c.intact {
          TailRestored(produced, framed, tail);
        }
      }
    }

    /** The final frame, empty, and the release of the writer. */
    method WriteFinal() returns (e: Option<Error>)
      requires Valid() && held
      modifies this`held, this`sent, this`beside, c, c.bw, c.bw.slab, c.bw.sink
      ensures Valid() && c.bw.Outside() == old(c.bw.Outside()) && OnlyData(e.None?)
      ensures (old(c.closeSent) ==> e.Some?) && (e.Some? ==> sent == old(sent) && held)
      ensures Caused(e.Some?) && (e.None? ==> !c.closeSent)
      ensures e.None? ==>
        && !held && c.bw.sink.wire == c.bw.Stream()
        && sent == old(sent) + [Message(typ, flate, framed)]
        && (c.intact ==> Accounted())
    {
      hide BufioWriter.Writer.Outside, BufioWriter.Writer.Stream, FrameWriter.Conn.Valid;
      var _, we, f := WriteData(true, []);
      e := we;
      if e.Some? {
        return;
      }
      assert framed + [] == framed;
      held := false;
      sent := sent + [Message(typ, flate, framed)];
    }

    /** A whole message in one frame, when compression was not negotiated. */
    method WriteSingle(typ: bv8, p: seq<bv8>, lockFails: bool) returns (e: Option<Error>)
      requires Valid() && typ in {OP_TEXT, OP_BINARY} && |p| < MaxLength() && !deflate
      modifies this, c, c.bw, c.bw.slab, c.bw.sink
      ensures Valid() && c.bw.Outside() == old(c.bw.Outside()) && OnlyData(e.None?)
      ensures old(held) || lockFails ==> e == Some(Lock) && held == old(held) && c.log == old(c.log)
      ensures Caused(false) && (e.None? ==> !c.closeSent)
      ensures !Trouble() ==> (e.Some? <==> old(held) || lockFails || c.closeSent)
      ensures e.Some? ==> sent == old(sent) && (held <==> old(held))
      ensures e.None? ==>
        && !held && c.bw.sink.wire == c.bw.Stream()
        && sent == old(sent) + [Message(typ, false, p)]
    {
      hide Assemble, ControlsFit, AsNegotiated, FrameWriter.Conn.Valid;
      hide BufioWriter.Writer.Outside, BufioWriter.Writer.Stream;
      e := Reset(typ, lockFails);
      if e.Some? {
        return;
      }
      var _, we, f := WriteData(true, p);
      held := false;
      e := we;
      if e.None? {
        assert [] + p == p;
        sent := sent + [Message(typ, false, p)];
      }
    }

    /**
     Conn.write: a whole message. Compressed or not, it is complete on success. On a failure behind
     Reset the lock is released if compression was not negotiated, and stays held otherwise: the
     writer is not closed behind a failed Write, and a failed Close keeps it.
     */
    method WriteMessage(typ: bv8, p: seq<bv8>, outs: seq<seq<bv8>>, rest: seq<seq<bv8>>,
                        lockFails: bool, handleFails: bool)
      returns (e: Option<Error>)
      requires Valid() && typ in {OP_TEXT, OP_BINARY} && |p| < MaxLength()
      requires forall i :: 0 <= i < |outs| ==> |outs[i]| < MaxLength()
      requires forall i :: 0 <= i < |rest| ==> |rest[i]| < MaxLength()
      modifies this, c, c.bw, c.bw.slab, c.bw.sink
      ensures Valid() && c.bw.Outside() == old(c.bw.Outside()) && OnlyData(e.None?)
      ensures old(held) || lockFails ==> e == Some(Lock) && held == old(held) && c.log == old(c.log)
      ensures Caused(false) && (e.None? ==> !c.closeSent)
      ensures !Trouble() ==>
        (e.Some? <==>
          || old(held) || lockFails || c.closeSent
          || (deflate && (handleFails || (old(stuck).Some? && |p| >= threshold))))
      ensures e.Some? ==> sent == old(sent) && (held <==> old(held) || (deflate && !lockFails))
      ensures e.None? ==> !held && c.bw.sink.wire == c.bw.Stream()
      ensures e.None? && !deflate ==> sent == old(sent) + [Message(typ, false, p)]
      ensures e.None? && deflate ==>
        && sent == old(sent) + [Message(typ, flate, framed)] && (flate <==> |p| >= threshold)
        && produced == (if flate then Joined(outs) + Joined(rest) else p)
        && (c.intact ==> Accounted() && (flate && EndsInMarker(produced) ==> framed + DEFLATE_MESSAGE_TAIL == produced))
    {
      hide FramesValid, Accounted, ControlsFit, Joined, EndsInMarker, FrameWriter.Conn.Valid, Valid;
      hide BufioWriter.Writer.Valid, BufioWriter.Writer.Outside, BufioWriter.Writer.Stream;
      if !deflate {
        e := WriteSingle(typ, p, lockFails);
        return;
      }
      e := Reset(typ, lockFails);
      if e.Some? {
        return;
      }
      e := Write(p, outs, handleFails);
      if e.Some? {
        return;
      }
      assert [] + Joined(outs) == Joined(outs) && [] + p == p && p + [] == p;
      e := Close(rest, handleFails);
    }

    /** What one more control frame does: nothing to the messages. */
    lemma ControlExtends(op: bv8, p: seq<bv8>, key: Key, f: Frame)
      requires FramesValid() && IsControl(op)
      requires f == Frame(FrameWriter.FrameHeader(true, false, op, |p|, c.client, key), p)
      ensures op < 16 && AsNegotiated(c.log + [f], deflate) && f.h.opcode == op && f.h.fin && !f.h.rsv1
      ensures ControlsFit(c.log + [f]) <==> ControlsFit(c.log) && ControlFits(op, p)
      ensures c.intact ==> Assemble(c.log + [f]) == Assemble(c.log)
    {
      hide ControlFits, Assemble, FrameWriter.Conn.Valid;
      AssembleSnoc(c.log, f);
      OneMoreFits(c.log, f);
    }

    /** One more frame, final and with exactly this payload, or none. */
    ghost predicate Wrote(before: seq<Frame>, op: bv8, p: seq<bv8>, e: Option<Error>)
      reads c`log
    {
      if e.Some? then c.log == before
      else
        && |c.log| == |before| + 1 && before <= c.log && c.log[|before|].payload == p
        && c.log[|before|].h.opcode == op && c.log[|before|].h.fin && !c.log[|before|].h.rsv1
    }

    /** A control frame, whatever the state of the current message. */
    method SendControl(op: bv8, p: seq<bv8>) returns (e: Option<Error>)
      requires FramesValid() && IsControl(op) && |p| < MaxLength()
      modifies c, c.bw, c.bw.slab, c.bw.sink
      ensures c.Valid() && FramesValid() && c.bw.Outside() == old(c.bw.Outside()) && (c.intact ==> old(c.intact))
      ensures Caused(e.Some?) && c.closeSent == (old(c.closeSent) || (e.None? && op == OP_CLOSE))
      ensures (old(c.closeSent) ==> e == Some(NetworkClosed)) && Wrote(old(c.log), op, p, e)
      ensures e.None? ==> c.intact == old(c.intact) && c.bw.sink.wire == c.bw.Stream()
      ensures ControlsFit(c.log) <==> old(ControlsFit(c.log)) && (e.None? ==> ControlFits(op, p))
    {
      hide ControlsFit, ControlFits, Assemble, Feed, AsNegotiated, FrameWriter.FrameHeader, IsControl;
      hide BufioWriter.Writer.Outside, BufioWriter.Writer.Stream, FrameWriter.Conn.Valid;
      var key, connClosed := Environment();
      ghost var f := Frame(FrameWriter.FrameHeader(true, false, op, |p|, c.client, key.GetOr(NoKey())), p);
      ControlExtends(op, p, key.GetOr(NoKey()), f);
      var _, we := c.WriteFrame(true, false, op, p, key, connClosed);
      e := we;
    }

    /** A control frame from any goroutine, at any moment between data frames, also in the middle of a Write. */
    method WriteControl(op: bv8, p: seq<bv8>) returns (e: Option<Error>)
      requires Valid() && IsControl(op) && |p| < MaxLength()
      modifies c, c.bw, c.bw.slab, c.bw.sink
      ensures Valid() && c.bw.Outside() == old(c.bw.Outside()) && (c.intact ==> old(c.intact))
      ensures e.None? ==> c.intact == old(c.intact) && c.bw.sink.wire == c.bw.Stream()
      ensures c.closeSent == (old(c.closeSent) || (e.None? && op == OP_CLOSE))
      ensures (old(c.closeSent) ==> e == Some(NetworkClosed)) && Wrote(old(c.log), op, p, e)
      ensures Caused(false) && (!Trouble() ==> (e.Some? <==> old(c.closeSent)))
      ensures ControlsFit(c.log) <==> old(ControlsFit(c.log)) && (e.None? ==> ControlFits(op, p))
    {
      hide FramesValid, ControlsFit, ControlFits, FrameWriter.Conn.Valid;
      hide BufioWriter.Writer.Outside, BufioWriter.Writer.Stream;
      e := SendControl(op, p);
    }
  }
}
