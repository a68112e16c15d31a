/**
 What a sequence of frames means (RFC 6455, section 5.4; RFC 7692, section 6): the reference the
 message writer and the message reader are both held to.
 */
module Messages {
  import opened Wrappers
  import opened Frame
  import opened Seqs

  datatype Message = Message(opcode: bv8, compressed: bool, payload: seq<bv8>)

  /** The complete messages of a frame sequence and the one still open, or a broken sequence. */
  datatype Assembly =
    | Assembly(done: seq<Message>, open: Option<Message>)
    | Broken

  predicate IsControl(opcode: bv8) {
    opcode == OP_CLOSE || opcode == OP_PING || opcode == OP_PONG
  }

  /** A text or binary frame opens a message, continuations extend it, fin completes it. */
  function Feed(a: Assembly, f: Frame): Assembly {
    if a.Broken? then Broken
    else if IsControl(f.h.opcode) then
      if f.h.fin && !f.h.rsv1 then a else Broken
    else if f.h.opcode == OP_TEXT || f.h.opcode == OP_BINARY then
      if a.open.Some? then Broken
      else Settle(a.done, Message(f.h.opcode, f.h.rsv1, f.payload), f.h.fin)
    else if f.h.opcode == OP_CONTINUATION then
      if a.open.None? || f.h.rsv1 then Broken
      else Settle(a.done, a.open.value.(payload := a.open.value.payload + f.payload), f.h.fin)
    else Broken
  }

  function Settle(done: seq<Message>, m: Message, fin: bool): Assembly {
    if fin then Assembly(done + [m], None) else Assembly(done, Some(m))
  }

  function Assemble(fs: seq<Frame>): Assembly {
    if fs == [] then Assembly([], None) else Feed(Assemble(fs[..|fs| - 1]), fs[|fs| - 1])
  }

  lemma AssembleSnoc(fs: seq<Frame>, f: Frame)
    ensures Assemble(fs + [f]) == Feed(Assemble(fs), f)
  {
    assert (fs + [f])[..|fs|] == fs;
  }

  // ---- More frames only add to what has been received ----

  /** n is m with more payload. */
  predicate Extends(m: Message, n: Message) {
    n.opcode == m.opcode && n.compressed == m.compressed && m.payload <= n.payload
  }

  /** b comes after a: a's messages come first, and the one open in a is finished or longer in b. */
  predicate Continues(a: Assembly, b: Assembly) {
    && a.Assembly? && b.Assembly? && a.done <= b.done
    && (a.open.Some? ==>
          if |a.done| < |b.done| then Extends(a.open.value, b.done[|a.done|])
          else b.open.Some? && Extends(a.open.value, b.open.value))
  }

  lemma {:induction false} AssembleContinues(fs: seq<Frame>, k: nat)
    requires k <= |fs| && Assemble(fs).Assembly?
    ensures Continues(Assemble(fs[..k]), Assemble(fs))
  {
    if k == |fs| {
      assert fs[..k] == fs;
    } else {
      var front := fs[..|fs| - 1];
      AssembleContinues(front, k);
      assert front[..k] == fs[..k];
      hide Assemble;
      FeedContinues(Assemble(fs[..k]), Assemble(front), fs[|fs| - 1]);
    }
  }

  lemma FeedContinues(a: Assembly, b: Assembly, f: Frame)
    requires Continues(a, b) && Feed(b, f).Assembly?
    ensures Continues(a, Feed(b, f))
  {
  }

  // ---- The tail of a compressed message (RFC 7692, section 7.2) ----

  /** 00 00 ff ff: dropped by the sender, put back by the receiver. */
  const DEFLATE_MESSAGE_TAIL: seq<bv8> := [0, 0, 0xff, 0xff]

  predicate EndsInMarker(s: seq<bv8>) {
    |s| >= 4 && s[|s| - 4..] == DEFLATE_MESSAGE_TAIL
  }

  /** Holding back the last four bytes and putting the marker back restores the stream. */
  lemma TailRestored(produced: seq<bv8>, payload: seq<bv8>, tail: seq<bv8>)
    requires payload + tail == produced && |tail| == Min(4, |produced|)
    ensures EndsInMarker(produced) <==> payload + DEFLATE_MESSAGE_TAIL == produced
    ensures DEFLATE_MESSAGE_TAIL == [0x00, 0x00, 0xff, 0xff]
  {
    if EndsInMarker(produced) {
      assert produced[|produced| - 4..] == tail;
    }
    if payload + DEFLATE_MESSAGE_TAIL == produced {
      assert produced[|payload|..] == DEFLATE_MESSAGE_TAIL;
    }
  }
}
