/**
 Any number of goroutines that write messages and control frames on one connection: the lock on the
 message writer above the lock on frames, in small steps.
 */
module Handles {
  import opened Wrappers
  import opened Mask
  import opened Frame
  import opened FrameStream
  import opened Messages
  import Delivery
  import FrameWriter
  import W = Writers

  /** What has begun of the frames of a message: none, some, or the final one too. */
  datatype Phase = Untouched | Going | Over

  /** Whoever holds the lock on the message writer. */
  datatype Handle = Handle(
    typ: bv8,
    /** Conn.write without compression: one final frame, and the lock is released whatever became of it. */
    single: bool,
    /** What the next frame will be: of the message's type until a frame has gone through. */
    opcode: bv8,
    /** A final frame has failed: the handle is closed, and the lock stays held. */
    dead: bool,
    /** The goroutine in writeFrame for the handle; whether that frame has begun, and gone through. */
    at: Option<nat>,
    begun: bool,
    through: bool,
    /** For the record: what has begun of the message. */
    phase: Phase,
    flate: bool,
    body: seq<bv8>)

  datatype State = State(
    w: W.State,
    held: Option<Handle>,
    /** For the record: the frames begun while bytes could still reach the wire, and the messages in them. */
    good: seq<Frame>,
    sent: seq<Message>,
    open: Option<Message>,
    /** Set once a message has begun for the second time. */
    mixed: bool,
    /** How many messages had been sent, and how many frames begun, when last a message's final frame went through. */
    finished: nat,
    flushed: nat)

  datatype Action =
    /** A step of some goroutine inside writeFrame, or of the connection. */
    | Inner(a: W.Action)
    | Open(typ: bv8, single: bool)
    | WriteData(fin: bool, flate: bool, p: seq<bv8>, key: Key)
    | WriteControl(op: bv8, p: seq<bv8>, key: Key)
    /** The handle's goroutine comes back from writeFrame. */
    | Return

  function DataFrame(s: State, h: Handle, fin: bool, flate: bool, p: seq<bv8>, key: Key): Frame {
    Frame(FrameWriter.FrameHeader(fin, flate, h.opcode, |p|, s.w.client, key), p)
  }

  function ControlFrame(s: State, op: bv8, p: seq<bv8>, key: Key): Frame {
    Frame(FrameWriter.FrameHeader(true, false, op, |p|, s.w.client, key), p)
  }

  predicate Own(s: State, i: nat) {
    s.held.Some? && s.held.value.at == Some(i)
  }

  predicate Enabled(s: State, a: Action) {
    match a
    case Inner(a) => !a.Arrive? && W.Enabled(s.w, a)
    case Open(typ, _) => s.held.None? && typ in {OP_TEXT, OP_BINARY}
    case WriteData(fin, flate, p, _) =>
      && s.held.Some? && s.held.value.at.None? && !s.held.value.dead
      && (s.held.value.single ==> fin && !flate) && |p| < MaxLength()
    case WriteControl(op, p, _) => IsControl(op) && |p| < MaxLength()
    case Return => s.held.Some? && s.held.value.at.Some? && W.At(s.w, s.held.value.at.value, W.Done)
  }

  /** The message has begun, and its handle is about to begin it again. */
  predicate Again(h: Handle) {
    h.opcode == h.typ && h.phase.Going?
  }

  /** The handle's frame f begins. */
  function Begun(h: Handle, f: Frame): Handle {
    h.(begun := true, phase := if f.h.fin then Over else Going,
       flate := if h.phase.Untouched? then f.h.rsv1 else h.flate, body := h.body + f.payload)
  }

  function Told(h: Handle): Message {
    Message(h.typ, h.flate, h.body)
  }

  function NoteBegin(s: State, i: nat): State
    requires i < |s.w.threads|
  {
    var f := s.w.threads[i].f;
    var good := if W.SinkShut(s.w) then s.good else s.good + [f];
    if !Own(s, i) then s.(good := good)
    else
      var h := s.held.value;
      var b := Begun(h, f);
      if W.SinkShut(s.w) || s.mixed || Again(h) then
        s.(held := Some(b), good := good, mixed := s.mixed || !W.SinkShut(s.w))
      else
        s.(held := Some(b), good := good, sent := if f.h.fin then s.sent + [Told(b)] else s.sent,
           open := if f.h.fin then None else Some(Told(b)))
  }

  function Note(s: State, a: W.Action): State
    requires W.Enabled(s.w, a)
  {
    if a.Begin? then NoteBegin(s, a.i)
    else if a.EndFrame? && Own(s, a.i) then
      var through := s.(held := Some(s.held.value.(through := true)));
      if s.w.threads[a.i].f.h.fin then through.(finished := |s.sent|, flushed := |s.w.begun|) else through
    else s
  }

  function AfterReturn(h: Handle, fin: bool): Option<Handle> {
    if fin && (h.through || h.single) then None
    else Some(h.(at := None, begun := false, through := false, dead := fin,
                 opcode := if h.through then OP_CONTINUATION else h.opcode))
  }

  lemma FramesFit(s: State, op: bv8, fin: bool, flate: bool, p: seq<bv8>, key: Key)
    requires op < 16 && |p| < MaxLength()
    ensures
      var f := Frame(FrameWriter.FrameHeader(fin, flate, op, |p|, s.w.client, key), p);
      f.Valid() && f.h.masked == s.w.client
  {
  }

  ghost function Apply(s: State, a: Action): State
    requires Enabled(s, a)
  {
    match a
    case Inner(a) => Note(s, a).(w := W.Apply(s.w, a))
    case Open(typ, single) =>
      s.(held := Some(Handle(typ, single, typ, false, None, false, false, Untouched, false, [])))
    case WriteData(fin, flate, p, key) =>
      var h := s.held.value;
      s.(w := Arrives(s.w, DataFrame(s, h, fin, flate, p, key)), held := Some(h.(at := Some(|s.w.threads|))))
    case WriteControl(op, p, key) => s.(w := Arrives(s.w, ControlFrame(s, op, p, key)))
    case Return => s.(held := AfterReturn(s.held.value, s.w.threads[s.held.value.at.value].f.h.fin))
  }

  /** A goroutine calls writeFrame. */
  function Arrives(w: W.State, f: Frame): W.State {
    w.(threads := w.threads + [W.Thread(f, W.Waiting)])
  }

  function Fresh(client: bool, capacity: nat): State {
    State(W.Fresh(client, capacity), None, [], [], None, false, 0, 0)
  }

  ghost predicate IsRun(s: State, acts: seq<Action>)
    decreases |acts|
  {
    acts == [] || (Enabled(s, acts[0]) && IsRun(Apply(s, acts[0]), acts[1..]))
  }

  ghost function AfterAll(s: State, acts: seq<Action>): State
    requires IsRun(s, acts)
    decreases |acts|
  {
    if acts == [] then s else AfterAll(Apply(s, acts[0]), acts[1..])
  }

  // ---- What every step keeps ----

  /** In writeFrame, before its frame begins. */
  predicate Awaits(pc: W.PC) {
    pc.Waiting? || pc.Locked? || pc.Checked? || pc.Clear?
  }

  predicate Closing(w: W.State) {
    w.err || w.flag
  }

  /** The handle's frame in writeFrame. */
  ghost predicate InCall(h: Handle, t: W.Thread, closing: bool) {
    && !h.dead && t.f.h.opcode == h.opcode && (h.opcode == OP_CONTINUATION ==> !t.f.h.rsv1) && (h.single ==> t.f.h.fin)
    && (W.Works(t.pc) ==> h.begun) && (h.through ==> h.begun)
    && (h.begun ==> !Awaits(t.pc) && h.phase == if t.f.h.fin then Over else Going)
    && (!h.begun ==> !h.phase.Over? && (Again(h) ==> closing))
    && (h.begun && !h.through && !W.Works(t.pc) ==> closing)
  }

  ghost predicate HandleOk(h: Handle, w: W.State) {
    && h.typ in {OP_TEXT, OP_BINARY} && h.opcode in {h.typ, OP_CONTINUATION}
    && (h.opcode == OP_CONTINUATION ==> !h.phase.Untouched?) && (h.single ==> h.opcode == h.typ && !h.phase.Going?)
    && (h.phase.Untouched? ==> h.body == []) && (h.dead ==> !h.single && h.at.None?)
    && (if h.at.Some? then h.at.value < |w.threads| && InCall(h, w.threads[h.at.value], Closing(w))
        else !h.begun && !h.through && (h.phase.Over? ==> h.dead) && (Again(h) ==> Closing(w)))
  }

  /** Nothing but control frames can begin beside the handle's frame. */
  ghost predicate OthersControl(s: State) {
    forall i :: 0 <= i < |s.w.threads| && Awaits(s.w.threads[i].pc) && !Own(s, i) ==> IsControlFrame(s.w.threads[i].f)
  }

  predicate IsControlFrame(f: Frame) {
    IsControl(f.h.opcode) && f.h.fin && !f.h.rsv1
  }

  /** The frames that can be on the wire. */
  ghost predicate GoodOk(s: State) {
    && s.good <= s.w.begun && s.w.wire <= EncodeFrames(s.good)
    && (!W.SinkShut(s.w) ==> s.good == s.w.begun)
  }

  /** What those frames mean: the messages the handles wrote, or nothing if one has begun twice. */
  ghost predicate Meaning(s: State) {
    && Assemble(s.good) == (if s.mixed then Broken else Assembly(s.sent, s.open))
    && (s.good == s.w.begun && !s.mixed ==> s.open == Current(s.held) && LastIs(s.sent, s.held))
    && (s.mixed ==> !s.w.client && s.w.flag)
  }

  function Current(held: Option<Handle>): Option<Message> {
    if held.Some? && held.value.phase.Going? then Some(Told(held.value)) else None
  }

  /** A message whose final frame has begun is the last one sent. */
  predicate LastIs(sent: seq<Message>, held: Option<Handle>) {
    held.Some? && held.value.phase.Over? ==> sent != [] && sent[|sent| - 1] == Told(held.value)
  }

  /** The frames begun when last a message's final frame went through are on the wire, and that message in them. */
  ghost predicate Out(s: State) {
    && s.flushed <= |s.good| && EncodeFrames(s.good[..s.flushed]) <= s.w.wire
    && (!s.mixed ==>
          && Assemble(s.good[..s.flushed]).Assembly? && s.finished <= |Assemble(s.good[..s.flushed]).done|
          && (Ending(s) ==> s.finished == |s.sent| && LastIs(s.sent, s.held)))
    && s.finished <= |s.sent|
    && (!s.mixed && s.good == s.w.begun && !Ending(s) && s.held.Some? && s.held.value.phase.Over? ==>
          s.finished < |s.sent|)
  }

  /** The final frame of the handle's message has gone through, and its goroutine is about to return. */
  predicate Ending(s: State) {
    && s.held.Some? && s.held.value.through && s.held.value.at.Some? && s.held.value.at.value < |s.w.threads|
    && s.w.threads[s.held.value.at.value].f.h.fin
  }

  ghost predicate Inv(s: State) {
    && W.Inv(s.w) && Delivery.Forward(s.w) && OthersControl(s) && GoodOk(s) && Meaning(s) && Out(s)
    && (s.held.Some? ==> HandleOk(s.held.value, s.w))
  }

  /** Where a step takes the one goroutine it moves. */
  predicate Moves(w: W.State, w2: W.State, i: nat, pc: W.PC) {
    i < |w.threads| && w2.threads == w.threads[i := w.threads[i].(pc := pc)]
  }

  /** Steps that end a frame before it has gone through. */
  predicate GivesUp(a: W.Action) {
    a.Fail? || a.FailDirect? || a.Stick? || a.Abandon?
  }

  /** Steps around the lock, before the frame begins or behind it. */
  predicate Outer(a: W.Action) {
    || a.StopWaiting? || a.Acquire? || a.FindClosed? || a.FindAlive? || a.FindCloseSent? || a.FindNoCloseSent?
    || a.Refuse? || a.UnlockEarly? || a.Unlock?
  }

  /** Steps of a goroutine at work that leave it at work. */
  predicate Inside(a: W.Action) {
    a.Put? || a.Direct? || a.Pause? || a.FindOpen? || a.SkipLook? || a.Flushed?
  }

  lemma OuterMoves(w: W.State, a: W.Action) returns (k: nat, pc: W.PC)
    requires W.Enabled(w, a) && Outer(a)
    ensures Moves(w, W.Apply(w, a), k, pc) && !a.Begin? && !a.EndFrame?
    ensures !W.Works(pc) && !W.Works(w.threads[k].pc) && (Awaits(pc) ==> Awaits(w.threads[k].pc))
  {
    k, pc := a.i, W.Apply(w, a).threads[a.i].pc;
  }

  lemma InsideMoves(w: W.State, a: W.Action) returns (k: nat, pc: W.PC)
    requires W.Enabled(w, a) && Inside(a)
    ensures Moves(w, W.Apply(w, a), k, pc) && !a.Begin? && !a.EndFrame?
    ensures W.Works(pc) && W.Works(w.threads[k].pc)
  {
    k, pc := a.i, W.Apply(w, a).threads[a.i].pc;
  }

  lemma GivesUpMoves(w: W.State, a: W.Action) returns (k: nat)
    requires W.Enabled(w, a) && GivesUp(a)
    ensures Moves(w, W.Apply(w, a), k, W.Leaving) && Closing(W.Apply(w, a)) && !a.Begin? && !a.EndFrame?
  {
    k := a.i;
  }

  lemma BeginMoves(w: W.State, k: nat) returns (pc: W.PC)
    requires W.Enabled(w, W.Begin(k))
    ensures Moves(w, W.Apply(w, W.Begin(k)), k, pc) && w.threads[k].pc == W.Clear && W.Works(pc)
  {
    hide EncodeFrame;
    pc := W.Writing(EncodeFrame(w.threads[k].f));
  }

  lemma EndMoves(w: W.State, k: nat) returns (pc: W.PC)
    requires W.Enabled(w, W.EndFrame(k))
    ensures Moves(w, W.Apply(w, W.EndFrame(k)), k, pc) && W.Works(w.threads[k].pc) && !W.Works(pc) && !Awaits(pc)
  {
    pc := W.AfterFrame(w, k);
  }

  lemma NobodyMoves(w: W.State, a: W.Action)
    requires W.Enabled(w, a) && !Outer(a) && !Inside(a) && !GivesUp(a) && !a.Arrive? && !a.Begin? && !a.EndFrame?
    ensures W.Apply(w, a).threads == w.threads
  {
    hide W.Enabled;
    assert a.Spill? || a.ReceiveClose? || a.SetFlag? || a.CloseChannel?;
  }

  /** What step a does to goroutine i in writeFrame. */
  predicate GoesOn(t: W.Thread, t2: W.Thread, a: W.Action, i: nat, closing: bool) {
    && t2.f == t.f && (Awaits(t2.pc) ==> Awaits(t.pc))
    && (W.Works(t2.pc) ==> W.Works(t.pc) || a == W.Begin(i))
    && (a == W.Begin(i) ==> t.pc == W.Clear && W.Works(t2.pc))
    && (a == W.EndFrame(i) ==> W.Works(t.pc))
    && (W.Works(t.pc) && !W.Works(t2.pc) ==> a == W.EndFrame(i) || closing)
  }

  /** The goroutine that a step moves, if it moves one. */
  lemma Mover(w: W.State, a: W.Action) returns (moved: bool, k: nat, pc: W.PC)
    requires W.Enabled(w, a) && !a.Arrive?
    ensures if moved then Moves(w, W.Apply(w, a), k, pc) else W.Apply(w, a).threads == w.threads
    ensures moved ==> GoesOn(w.threads[k], w.threads[k].(pc := pc), a, k, Closing(W.Apply(w, a)))
    ensures a.Begin? || a.EndFrame? ==> moved && k == a.i
  {
    hide W.Enabled, W.Apply, Outer, Inside, GivesUp, Closing;
    moved, k, pc := true, 0, W.Leaving;
    if a.Begin? {
      k := a.i;
      pc := BeginMoves(w, k);
    } else if a.EndFrame? {
      k := a.i;
      pc := EndMoves(w, k);
    } else if Outer(a) {
      k, pc := OuterMoves(w, a);
    } else if Inside(a) {
      k, pc := InsideMoves(w, a);
    } else if GivesUp(a) {
      k := GivesUpMoves(w, a);
    } else {
      moved := false;
      NobodyMoves(w, a);
    }
  }

  lemma ThreadStep(w: W.State, a: W.Action, i: nat)
    requires W.Enabled(w, a) && !a.Arrive? && i < |w.threads|
    ensures |W.Apply(w, a).threads| == |w.threads|
    ensures GoesOn(w.threads[i], W.Apply(w, a).threads[i], a, i, Closing(W.Apply(w, a)))
  {
    hide W.Enabled, W.Apply, Closing;
    var moved, k, pc := Mover(w, a);
  }

  lemma SameThreads(w: W.State, a: W.Action)
    requires W.Enabled(w, a) && !a.Arrive?
    ensures |W.Apply(w, a).threads| == |w.threads|
  {
    hide W.Enabled, W.Apply, GoesOn;
    var moved, k, pc := Mover(w, a);
  }

  /** No step opens a sink that is shut, or brings anything past it. */
  predicate StaysShut(w: W.State, w2: W.State) {
    && (W.SinkShut(w) ==> W.SinkShut(w2) && w2.wire == w.wire) && (Closing(w) ==> Closing(w2))
    && w2.client == w.client && (w.flag ==> w2.flag)
  }

  lemma OuterShut(w: W.State, a: W.Action)
    requires W.Enabled(w, a) && Outer(a)
    ensures StaysShut(w, W.Apply(w, a))
  {
  }

  lemma InsideShut(w: W.State, a: W.Action)
    requires W.Enabled(w, a) && Inside(a)
    ensures StaysShut(w, W.Apply(w, a))
  {
  }

  lemma GivesUpShut(w: W.State, a: W.Action)
    requires W.Enabled(w, a) && GivesUp(a)
    ensures StaysShut(w, W.Apply(w, a))
  {
  }

  lemma OthersShut(w: W.State, a: W.Action)
    requires W.Enabled(w, a) && !Outer(a) && !Inside(a) && !GivesUp(a)
    ensures StaysShut(w, W.Apply(w, a))
  {
    hide EncodeFrame;
  }

  lemma ShutStays(w: W.State, a: W.Action)
    requires W.Enabled(w, a)
    ensures StaysShut(w, W.Apply(w, a))
  {
    hide *;
    if Outer(a) {
      OuterShut(w, a);
    } else if Inside(a) {
      InsideShut(w, a);
    } else if GivesUp(a) {
      GivesUpShut(w, a);
    } else {
      OthersShut(w, a);
    }
  }

  lemma WriterStep(w: W.State, a: W.Action)
    requires W.Inv(w) && W.Enabled(w, a)
    ensures W.Inv(W.Apply(w, a))
  {
    hide W.Locking, W.HandsOff, W.Stream, W.Enabled, W.Apply;
    W.LockingStep(w, a);
    W.StreamStep(w, a);
  }

  lemma WireIs(w: W.State)
    requires W.Inv(w)
    ensures w.wire <= EncodeFrames(w.begun)
  {
    hide EncodeFrames, W.Locking, W.HandsOff;
  }

  lemma GoodStep(s: State, a: W.Action)
    requires W.Inv(s.w) && GoodOk(s) && Enabled(s, Inner(a))
    ensures GoodOk(Apply(s, Inner(a)))
  {
    hide W.Inv, W.SinkShut, W.Enabled, EncodeFrames, EncodeFrame;
    WriterStep(s.w, a);
    WireIs(W.Apply(s.w, a));
    ShutStays(s.w, a);
    BegunStep(s.w, a);
  }

  lemma BegunStep(w: W.State, a: W.Action)
    requires W.Enabled(w, a)
    ensures W.Apply(w, a).begun == if a.Begin? then w.begun + [w.threads[a.i].f] else w.begun
    ensures a.Begin? ==> W.SinkShut(W.Apply(w, a)) == W.SinkShut(w)
  {
    hide EncodeFrame, W.AfterLoss;
  }

  lemma OthersStep(s: State, a: W.Action)
    requires OthersControl(s) && Enabled(s, Inner(a))
    ensures OthersControl(Apply(s, Inner(a)))
  {
    hide W.Enabled, W.Apply, IsControlFrame, Awaits, W.SinkShut;
    SameThreads(s.w, a);
    var s2 := Apply(s, Inner(a));
    forall i | 0 <= i < |s2.w.threads| && Awaits(s2.w.threads[i].pc) && !Own(s2, i)
      ensures IsControlFrame(s2.w.threads[i].f)
    {
      ThreadStep(s.w, a, i);
      assert !Own(s, i);
    }
  }

  /** What a step inside writeFrame does to the handle. */
  function HandleAfter(h: Handle, a: W.Action, f: Frame): Handle {
    if h.at.Some? && a == W.Begin(h.at.value) then Begun(h, f)
    else if h.at.Some? && a == W.EndFrame(h.at.value) then h.(through := true)
    else h
  }

  lemma HandleNoted(s: State, a: W.Action)
    requires s.held.Some? && Enabled(s, Inner(a)) && (s.held.value.at.Some? ==> s.held.value.at.value < |s.w.threads|)
    ensures
      var h := s.held.value;
      h.at.Some? ==> Apply(s, Inner(a)).held == Some(HandleAfter(h, a, s.w.threads[h.at.value].f))
    ensures s.held.value.at.None? ==> Apply(s, Inner(a)).held == s.held
  {
    hide W.Apply, W.SinkShut, Begun, Told;
  }

  lemma CallGoesOn(h: Handle, t: W.Thread, t2: W.Thread, a: W.Action, was: bool, closing: bool)
    requires h.at.Some? && InCall(h, t, was) && GoesOn(t, t2, a, h.at.value, closing) && (was ==> closing)
    ensures InCall(HandleAfter(h, a, t.f), t2, closing)
  {
  }

  lemma HandleStep(s: State, a: W.Action)
    requires s.held.Some? && HandleOk(s.held.value, s.w) && Enabled(s, Inner(a))
    ensures Apply(s, Inner(a)).held.Some? && HandleOk(Apply(s, Inner(a)).held.value, W.Apply(s.w, a))
  {
    hide W.Enabled, W.Apply, W.SinkShut, Apply, InCall, Closing, GoesOn;
    var h := s.held.value;
    ShutStays(s.w, a);
    HandleNoted(s, a);
    if h.at.Some? {
      var i := h.at.value;
      ThreadStep(s.w, a, i);
      CallGoesOn(h, s.w.threads[i], W.Apply(s.w, a).threads[i], a, Closing(s.w), Closing(W.Apply(s.w, a)));
    }
  }

  /** A frame that begins means what the handle says it means, and a control frame nothing. */
  lemma BeginMeans(s: State, i: nat)
    requires OthersControl(s) && Meaning(s) && (s.held.Some? ==> HandleOk(s.held.value, s.w))
    requires Enabled(s, Inner(W.Begin(i))) && !W.SinkShut(s.w) && GoodOk(s)
    ensures Meaning(Apply(s, Inner(W.Begin(i))))
  {
    hide Assemble, EncodeFrame;
    var f := s.w.threads[i].f;
    AssembleSnoc(s.good, f);
    if Own(s, i) && s.held.value.phase.Untouched? {
      assert [] + f.payload == f.payload;
    }
  }

  lemma MeaningStep(s: State, a: W.Action)
    requires OthersControl(s) && GoodOk(s) && Meaning(s) && (s.held.Some? ==> HandleOk(s.held.value, s.w))
    requires Enabled(s, Inner(a))
    ensures Meaning(Apply(s, Inner(a)))
  {
    hide *;
    if a.Begin? && !W.SinkShut(s.w) {
      BeginMeans(s, a.i);
    } else if a.Begin? {
      ShutMeans(s, a.i);
    } else {
      QuietMeans(s, a);
    }
  }

  /** A frame that begins when nothing can reach the wire any more. */
  lemma ShutMeans(s: State, i: nat)
    requires GoodOk(s) && Meaning(s) && Enabled(s, Inner(W.Begin(i))) && W.SinkShut(s.w)
    ensures Meaning(Apply(s, Inner(W.Begin(i))))
  {
    hide Assemble, W.Enabled, W.Apply, W.SinkShut, EncodeFrames, Begun, Told;
    ShutStays(s.w, W.Begin(i));
    BegunStep(s.w, W.Begin(i));
  }

  lemma QuietMeans(s: State, a: W.Action)
    requires Meaning(s) && Enabled(s, Inner(a)) && !a.Begin?
    ensures Meaning(Apply(s, Inner(a)))
  {
    hide Assemble, W.Enabled, W.Apply, W.SinkShut;
    ShutStays(s.w, a);
    BegunStep(s.w, a);
  }

  /** Frames that take as many bytes as frames they are a part of are all of them. */
  lemma NoMore(fs: seq<Frame>, gs: seq<Frame>)
    requires fs <= gs && |EncodeFrames(gs)| <= |EncodeFrames(fs)|
    ensures fs == gs
  {
    hide EncodeFrame;
    assert gs == fs + gs[|fs|..];
    EncodeFramesAppend(fs, gs[|fs|..]);
    if |fs| < |gs| {
      Delivery.FrameNotEmpty(gs[|fs|]);
    }
  }

  /** A final frame that has gone through has everything on the wire, and nothing is begun that does not count. */
  lemma EndOut(s: State, i: nat)
    requires i < |s.w.threads| && s.w.threads[i].f.h.fin && Own(s, i) && Enabled(s, Inner(W.EndFrame(i)))
    requires W.Inv(s.w) && Delivery.Forward(s.w) && GoodOk(s) && Meaning(s)
    ensures Out(Apply(s, Inner(W.EndFrame(i))))
  {
    hide W.Inv, Delivery.Forward, Assemble, EncodeFrames, W.SinkShut, W.IsClose;
    Delivery.ThroughIsOut(s.w, i);
    NoMore(s.good, s.w.begun);
    assert s.good[..|s.good|] == s.good;
  }

  /** Otherwise the wire and the frames only grow, and a handle about to return stays as it is. */
  lemma OutStays(s: State, s2: State)
    requires Out(s) && s.good <= s2.good && s.w.wire <= s2.w.wire && (s.mixed ==> s2.mixed)
    requires s2.flushed == s.flushed && s2.finished == s.finished
    requires Ending(s2) ==> Ending(s) && s2.sent == s.sent && s2.held == s.held
    requires |s.sent| <= |s2.sent|
    requires !s2.mixed && s2.good == s2.w.begun && !Ending(s2) && s2.held.Some? && s2.held.value.phase.Over? ==>
      |s.sent| < |s2.sent|
      || (s.good == s.w.begun && !Ending(s) && s.held.Some? && s.held.value.phase.Over?)
    ensures Out(s2)
  {
    hide Assemble, EncodeFrames, LastIs, Ending;
    assert s2.good[..s.flushed] == s.good[..s.flushed];
  }

  lemma EndingStays(s: State, a: W.Action)
    requires (s.held.Some? ==> HandleOk(s.held.value, s.w)) && Enabled(s, Inner(a))
    requires !(a.EndFrame? && Own(s, a.i) && s.w.threads[a.i].f.h.fin)
    ensures var s2 := Apply(s, Inner(a)); Ending(s2) ==> Ending(s) && s2.sent == s.sent && s2.held == s.held
    ensures Ending(s) ==> Ending(Apply(s, Inner(a)))
  {
    hide W.Enabled, W.Apply, W.SinkShut, Told;
    if s.held.Some? && s.held.value.at.Some? {
      ThreadStep(s.w, a, s.held.value.at.value);
    }
  }

  /** A message whose final frame begins is one more; otherwise nothing changes about the last one. */
  lemma OverStays(s: State, a: W.Action)
    requires GoodOk(s) && (s.held.Some? ==> HandleOk(s.held.value, s.w)) && Enabled(s, Inner(a))
    requires !(a.EndFrame? && Own(s, a.i) && s.w.threads[a.i].f.h.fin)
    ensures
      var s2 := Apply(s, Inner(a));
      && |s.sent| <= |s2.sent|
      && (!s2.mixed && s2.good == s2.w.begun && s2.held.Some? && s2.held.value.phase.Over? ==>
            |s.sent| < |s2.sent| || (s.good == s.w.begun && s.held.Some? && s.held.value.phase.Over?))
  {
    hide W.Enabled, W.Apply, Told, HandleOk, EncodeFrames;
    BegunStep(s.w, a);
  }

  lemma OutStep(s: State, a: W.Action)
    requires Inv(s) && Enabled(s, Inner(a))
    ensures Out(Apply(s, Inner(a)))
  {
    hide W.Inv, Delivery.Forward, OthersControl, Assemble, EncodeFrames, W.Enabled, W.Apply, W.SinkShut, Out;
    Delivery.WireGrows(s.w, a);
    if a.EndFrame? && Own(s, a.i) && s.w.threads[a.i].f.h.fin {
      EndOut(s, a.i);
    } else {
      EndingStays(s, a);
      OverStays(s, a);
      OutStays(s, Apply(s, Inner(a)));
    }
  }

  lemma InnerStep(s: State, a: W.Action)
    requires Inv(s) && Enabled(s, Inner(a))
    ensures Inv(Apply(s, Inner(a)))
  {
    hide W.Inv, Delivery.Forward, OthersControl, GoodOk, Meaning, HandleOk, Out, W.Enabled, W.Apply;
    WriterStep(s.w, a);
    Delivery.ForwardStep(s.w, a);
    OutStep(s, a);
    OthersStep(s, a);
    GoodStep(s, a);
    MeaningStep(s, a);
    if s.held.Some? {
      HandleStep(s, a);
    }
  }

  lemma ArriveStep(w: W.State, f: Frame)
    requires W.Inv(w) && Delivery.Forward(w) && f.Valid() && f.h.masked == w.client
    ensures W.Inv(Arrives(w, f)) && Delivery.Forward(Arrives(w, f))
  {
    hide W.Inv, Delivery.Forward;
    WriterStep(w, W.Arrive(f));
    Delivery.ForwardStep(w, W.Arrive(f));
  }

  /** A goroutine that calls writeFrame changes nothing but who waits there. */
  lemma CallKeeps(s: State, f: Frame, held: Option<Handle>)
    requires GoodOk(s) && Meaning(s) && Out(s)
    requires Ending(s) ==> held == s.held
    requires held == s.held && held.Some? && held.value.at.Some? ==> held.value.at.value < |s.w.threads|
    requires held == s.held || (held.Some? && s.held.Some? && !held.value.through && !Ending(s)
                                && held == Some(s.held.value.(at := held.value.at)))
    ensures
      var s2 := s.(w := Arrives(s.w, f), held := held);
      GoodOk(s2) && Meaning(s2) && Out(s2)
  {
    hide Assemble, EncodeFrames;
  }

  lemma ControlStep(s: State, op: bv8, p: seq<bv8>, key: Key)
    requires Inv(s) && Enabled(s, WriteControl(op, p, key))
    ensures Inv(Apply(s, WriteControl(op, p, key)))
  {
    hide W.Inv, Delivery.Forward, Assemble, EncodeFrames, GoodOk, Meaning, Out;
    FramesFit(s, op, true, false, p, key);
    ArriveStep(s.w, ControlFrame(s, op, p, key));
    CallKeeps(s, ControlFrame(s, op, p, key), s.held);
  }

  lemma DataStep(s: State, fin: bool, flate: bool, p: seq<bv8>, key: Key)
    requires Inv(s) && Enabled(s, WriteData(fin, flate, p, key))
    ensures Inv(Apply(s, WriteData(fin, flate, p, key)))
  {
    hide W.Inv, Delivery.Forward, Assemble, EncodeFrames, FrameWriter.FrameHeader, Frame.Valid, GoodOk, Meaning, Out;
    DataHeader(s.held.value, s.w.client, fin, flate, |p|, key);
    var h := s.held.value;
    FramesFit(s, h.opcode, fin, flate, p, key);
    ArriveStep(s.w, DataFrame(s, h, fin, flate, p, key));
    CallKeeps(s, DataFrame(s, h, fin, flate, p, key), Some(h.(at := Some(|s.w.threads|))));
  }

  lemma DataHeader(h: Handle, client: bool, fin: bool, flate: bool, n: nat, key: Key)
    requires h.typ in {OP_TEXT, OP_BINARY} && h.opcode in {h.typ, OP_CONTINUATION}
    ensures
      var g := FrameWriter.FrameHeader(fin, flate, h.opcode, n, client, key);
      g.opcode == h.opcode && g.fin == fin && (h.opcode == OP_CONTINUATION ==> !g.rsv1) && h.opcode < 16
  {
  }

  lemma HandleChanges(s: State, a: Action)
    requires Inv(s) && Enabled(s, a) && (a.Open? || a.Return?)
    ensures Inv(Apply(s, a))
  {
    hide W.Inv, Assemble, EncodeFrames, W.SinkShut;
  }

  lemma Step(s: State, a: Action)
    requires Inv(s) && Enabled(s, a)
    ensures Inv(Apply(s, a))
  {
    hide Inv, Apply, Enabled;
    match a {
      case Inner(a) => InnerStep(s, a);
      case WriteData(fin, flate, p, key) => DataStep(s, fin, flate, p, key);
      case WriteControl(op, p, key) => ControlStep(s, op, p, key);
      case _ => HandleChanges(s, a);
    }
  }

  lemma {:induction false} InvRun(s: State, acts: seq<Action>)
    requires Inv(s) && IsRun(s, acts)
    ensures Inv(AfterAll(s, acts))
    decreases |acts|
  {
    hide Inv, Enabled, Apply;
    if acts != [] {
      Step(s, acts[0]);
      InvRun(Apply(s, acts[0]), acts[1..]);
    }
  }

  lemma FreshInv(client: bool, capacity: nat)
    ensures Inv(Fresh(client, capacity))
  {
    W.FreshInv(client, capacity);
    hide W.Inv;
  }

  lemma {:induction false} ClientStays(s: State, acts: seq<Action>)
    requires IsRun(s, acts)
    ensures AfterAll(s, acts).w.client == s.w.client
    decreases |acts|
  {
    hide Enabled, Apply;
    if acts != [] {
      SameClient(s, acts[0]);
      ClientStays(Apply(s, acts[0]), acts[1..]);
    }
  }

  lemma SameClient(s: State, a: Action)
    requires Enabled(s, a)
    ensures Apply(s, a).w.client == s.w.client
  {
    hide W.Enabled, W.Apply, W.SinkShut;
    if a.Inner? {
      ShutStays(s.w, a.a);
    }
  }

  // ---- Whole runs ----

  /** No handle goes on after the first frame of its message has begun and failed. */
  ghost predicate Careful(s: State, acts: seq<Action>)
    requires IsRun(s, acts)
    decreases |acts|
  {
    acts == [] || ((acts[0].WriteData? ==> !Again(s.held.value)) && Careful(Apply(s, acts[0]), acts[1..]))
  }

  ghost predicate NotAgain(s: State) {
    !s.mixed && (s.held.Some? && s.held.value.at.Some? && !s.held.value.begun ==> !Again(s.held.value))
  }

  lemma CarefulStep(s: State, a: Action)
    requires Inv(s) && NotAgain(s) && Enabled(s, a) && (a.WriteData? ==> !Again(s.held.value))
    ensures NotAgain(Apply(s, a))
  {
    hide W.Inv, Meaning, GoodOk, OthersControl, W.Apply, W.SinkShut;
    if a.Inner? && a.a.Begin? {
      var pc := BeginMoves(s.w, a.a.i);
    }
  }

  lemma {:induction false} CarefulRun(s: State, acts: seq<Action>)
    requires Inv(s) && NotAgain(s) && IsRun(s, acts) && Careful(s, acts)
    ensures !AfterAll(s, acts).mixed
    decreases |acts|
  {
    hide Inv, Again, Enabled, Apply;
    if acts != [] {
      Step(s, acts[0]);
      CarefulStep(s, acts[0]);
      CarefulRun(Apply(s, acts[0]), acts[1..]);
    }
  }

  lemma GoodFrames(s: State)
    requires Inv(s)
    ensures s.w.wire <= EncodeFrames(s.good) && forall i :: 0 <= i < |s.good| ==> s.good[i].Valid()
  {
    hide OthersControl, Meaning, HandleOk, W.Inv, EncodeFrames, Frame.Valid, W.SinkShut;
    BegunFrames(s.w);
  }

  lemma BegunFrames(w: W.State)
    requires W.Inv(w)
    ensures forall i :: 0 <= i < |w.begun| ==> w.begun[i].Valid()
  {
    hide W.Locking, W.HandsOff, W.Accounted, W.Closed, W.WireInOrder, W.OneWorker, Frame.Valid;
  }

  lemma Seen(s: State, k: nat)
    requires Inv(s) && FirstFrames(s.w.wire, k).Some?
    ensures k <= |s.good| && FirstFrames(s.w.wire, k).value.frames == s.good[..k]
  {
    hide *;
    GoodFrames(s);
    FramesOfPrefix(s.w.wire, s.good, k);
  }

  /**
   However many goroutines write messages and control frames: what the peer can make of the wire are
   the messages of the handles, each whole and by itself, in the order in which they obtained the lock,
   and perhaps the first part of the next. At a server this holds if no handle goes on after the first
   frame of its message has begun and failed; a client cannot break it.
   */
  lemma NeverInterleaved(client: bool, capacity: nat, acts: seq<Action>, k: nat)
    requires IsRun(Fresh(client, capacity), acts)
    requires client || Careful(Fresh(client, capacity), acts)
    requires FirstFrames(AfterAll(Fresh(client, capacity), acts).w.wire, k).Some?
    ensures
      var s := AfterAll(Fresh(client, capacity), acts);
      Continues(Assemble(FirstFrames(s.w.wire, k).value.frames), Assembly(s.sent, s.open))
  {
    var s0, s := Fresh(client, capacity), AfterAll(Fresh(client, capacity), acts);
    assert NotAgain(s0);
    FreshInv(client, capacity);
    InvRun(s0, acts);
    ClientStays(s0, acts);
    hide IsRun, AfterAll, Careful, Apply, Enabled, Assemble, Continues, FirstFrames;
    if !client {
      CarefulRun(s0, acts);
    }
    Seen(s, k);
    hide OthersControl, GoodOk, HandleOk, W.Inv;
    AssembleContinues(s.good, k);
  }

  /**
   In every run: the frames begun while bytes could reach the wire fail to be messages exactly when
   a handle has begun a message twice, which takes a server that is closing. A message whose final
   frame has gone through is the last one among those sent.
   */
  lemma BrokenExactly(client: bool, capacity: nat, acts: seq<Action>)
    requires IsRun(Fresh(client, capacity), acts)
    ensures
      var s := AfterAll(Fresh(client, capacity), acts);
      && s.w.wire <= EncodeFrames(s.good) && s.good <= s.w.begun
      && (Assemble(s.good).Broken? <==> s.mixed) && (s.mixed ==> !client && s.w.flag)
      && (!s.mixed && !W.SinkShut(s.w) && s.held.Some? && s.held.value.phase.Over? ==>
            s.sent != [] && s.sent[|s.sent| - 1] == Told(s.held.value))
  {
    hide IsRun, AfterAll, Assemble, OthersControl, HandleOk, W.Inv, W.SinkShut, EncodeFrames;
    FreshInv(client, capacity);
    InvRun(Fresh(client, capacity), acts);
    ClientStays(Fresh(client, capacity), acts);
  }

  /** Written out frames are the first frames of any longer stream. */
  lemma WrittenAreFirst(fs: seq<Frame>, s: seq<bv8>)
    requires EncodeFrames(fs) <= s && forall i :: 0 <= i < |fs| ==> fs[i].Valid()
    ensures FirstFrames(s, |fs|).Some? && FirstFrames(s, |fs|).value.frames == fs
  {
    hide EncodeFrames, FirstFrames, Frame.Valid;
    var tail := s[|EncodeFrames(fs)|..];
    assert s == EncodeFrames(fs) + tail && fs[..|fs|] == fs;
    FirstFramesWritten(fs, tail, |fs|);
  }

  lemma OutIsSeen(s: State)
    requires Inv(s) && !s.mixed
    ensures FirstFrames(s.w.wire, s.flushed).Some?
    ensures
      var seen := Assemble(FirstFrames(s.w.wire, s.flushed).value.frames);
      seen.Assembly? && s.finished <= |seen.done| && seen.done <= s.sent
  {
    hide W.Inv, Delivery.Forward, OthersControl, HandleOk, Assemble, EncodeFrames, FirstFrames, Frame.Valid, W.SinkShut;
    hide Ending, LastIs;
    GoodFrames(s);
    WrittenAreFirst(s.good[..s.flushed], s.w.wire);
    AssembleContinues(s.good, s.flushed);
  }

  /**
   Every message whose final frame has gone through is complete at the peer, whatever happens
   afterwards: in every run of a client, and of a server where no handle goes on as above, the frames
   on the wire hold the first messages sent, among them at least as many as had been sent when last a
   final frame went through. While the goroutine that wrote it is on its way back, its message is the
   last one of those.
   */
  lemma FinishedIsSeen(client: bool, capacity: nat, acts: seq<Action>)
    requires IsRun(Fresh(client, capacity), acts)
    requires client || Careful(Fresh(client, capacity), acts)
    ensures
      var s := AfterAll(Fresh(client, capacity), acts);
      FirstFrames(s.w.wire, s.flushed).Some?
    ensures
      var s := AfterAll(Fresh(client, capacity), acts);
      var seen := Assemble(FirstFrames(s.w.wire, s.flushed).value.frames);
      && seen.Assembly? && s.finished <= |seen.done| && seen.done <= s.sent
      && (Ending(s) ==> s.finished == |s.sent| > 0 && s.sent[|s.sent| - 1] == Told(s.held.value))
  {
    var s0, s := Fresh(client, capacity), AfterAll(Fresh(client, capacity), acts);
    assert NotAgain(s0);
    FreshInv(client, capacity);
    InvRun(s0, acts);
    ClientStays(s0, acts);
    hide IsRun, AfterAll, Careful, Apply, Enabled, Assemble, FirstFrames, W.Inv, Delivery.Forward, EncodeFrames;
    if !client {
      CarefulRun(s0, acts);
    }
    OutIsSeen(s);
    hide OthersControl, GoodOk, Meaning;
  }

  /**
   In every run the lock stays held for good only behind a message that is not a single frame and
   whose final frame has failed: as long as bytes can reach the wire, that message, if its final frame
   has begun, is not among those finished.
   */
  lemma LockKept(client: bool, capacity: nat, acts: seq<Action>)
    requires IsRun(Fresh(client, capacity), acts)
    ensures
      var s := AfterAll(Fresh(client, capacity), acts);
      s.held.Some? && s.held.value.dead ==>
        && !s.held.value.single
        && (s.held.value.phase.Over? && !s.mixed && !W.SinkShut(s.w) ==> s.finished < |s.sent|)
  {
    FreshInv(client, capacity);
    InvRun(Fresh(client, capacity), acts);
    hide IsRun, AfterAll, Assemble, OthersControl, W.Inv, Delivery.Forward, W.SinkShut, EncodeFrames;
  }

  // ---- Going on after a failure ----

  lemma {:induction false} OneMoreAction(s: State, acts: seq<Action>, a: Action)
    requires IsRun(s, acts) && Enabled(AfterAll(s, acts), a)
    ensures IsRun(s, acts + [a]) && AfterAll(s, acts + [a]) == Apply(AfterAll(s, acts), a)
    decreases |acts|
  {
    hide Apply, Enabled;
    if acts == [] {
      assert acts + [a] == [a] && [a][1..] == [];
      assert IsRun(Apply(s, a), []);
    } else {
      OneMoreAction(Apply(s, acts[0]), acts[1..], a);
      assert (acts + [a])[1..] == acts[1..] + [a];
    }
  }

  lemma Extend(s: State, acts: seq<Action>, a: Action) returns (more: seq<Action>, s2: State)
    requires IsRun(s, acts) && Enabled(AfterAll(s, acts), a)
    ensures IsRun(s, more) && s2 == AfterAll(s, more) && s2 == Apply(AfterAll(s, acts), a)
  {
    OneMoreAction(s, acts, a);
    more, s2 := acts + [a], Apply(AfterAll(s, acts), a);
  }

  /** The handle is where it was, whatever its frame has come to. */
  predicate SameHandle(h: Option<Handle>, g: Option<Handle>) {
    h.Some? && g.Some? && g.value.at == h.value.at && g.value.opcode == h.value.opcode && !g.value.dead
    && g.value.single == h.value.single && g.value.through == h.value.through
  }

  /** One more step inside writeFrame, which is not the end of a frame. */
  lemma Further(s: State, acts: seq<Action>, a: W.Action) returns (more: seq<Action>, s2: State)
    requires IsRun(s, acts) && !a.Arrive? && !a.EndFrame? && W.Enabled(AfterAll(s, acts).w, a)
    requires AfterAll(s, acts).held.Some? && !AfterAll(s, acts).held.value.dead
    ensures IsRun(s, more) && s2 == AfterAll(s, more) && s2.w == W.Apply(AfterAll(s, acts).w, a)
    ensures SameHandle(AfterAll(s, acts).held, s2.held)
  {
    hide W.Enabled, W.Apply, IsRun, AfterAll, W.SinkShut;
    more, s2 := Extend(s, acts, Inner(a));
  }

  /** A goroutine that has just called writeFrame obtains the lock. */
  lemma Locks(s0: State, acts: seq<Action>, i: nat) returns (more: seq<Action>, s: State)
    requires IsRun(s0, acts) && AfterAll(s0, acts).held.Some? && !AfterAll(s0, acts).held.value.dead
    requires
      var w := AfterAll(s0, acts).w;
      W.At(w, i, W.Waiting) && !w.token && !w.closed
    ensures IsRun(s0, more) && s == AfterAll(s0, more) && SameHandle(AfterAll(s0, acts).held, s.held)
    ensures s.w == W.Goto(AfterAll(s0, acts).w, i, W.Checked).(token := true)
  {
    hide IsRun, AfterAll;
    more, s := Further(s0, acts, W.Acquire(i));
    more, s := Further(s0, more, W.FindAlive(i));
  }

  /** It begins its frame. */
  lemma Obtains(s0: State, acts: seq<Action>, i: nat) returns (more: seq<Action>, s: State)
    requires IsRun(s0, acts) && AfterAll(s0, acts).held.Some? && !AfterAll(s0, acts).held.value.dead
    requires W.At(AfterAll(s0, acts).w, i, W.Checked) && !AfterAll(s0, acts).w.closeSent
    ensures IsRun(s0, more) && s == AfterAll(s0, more) && SameHandle(AfterAll(s0, acts).held, s.held)
    ensures
      var w, f := AfterAll(s0, acts).w, AfterAll(s0, acts).w.threads[i].f;
      s.w == W.Goto(w, i, W.Writing(EncodeFrame(f))).(begun := w.begun + [f], worker := i)
  {
    hide EncodeFrame, IsRun, AfterAll;
    more, s := Further(s0, acts, W.FindNoCloseSent(i));
    more, s := Further(s0, more, W.Begin(i));
  }

  /** All that is left of a frame goes into the buffer. */
  lemma Buffers(s0: State, acts: seq<Action>, i: nat) returns (more: seq<Action>, s: State)
    requires IsRun(s0, acts) && AfterAll(s0, acts).held.Some? && !AfterAll(s0, acts).held.value.dead
    requires
      var w := AfterAll(s0, acts).w;
      W.InWriting(w, i) && !w.err && |w.buf| + |w.threads[i].pc.todo| <= w.capacity
    ensures IsRun(s0, more) && s == AfterAll(s0, more) && SameHandle(AfterAll(s0, acts).held, s.held)
    ensures
      var w := AfterAll(s0, acts).w;
      s.w == W.Goto(w, i, W.Writing([])).(buf := w.buf + w.threads[i].pc.todo)
  {
    hide IsRun, AfterAll;
    var todo := AfterAll(s0, acts).w.threads[i].pc.todo;
    assert todo[..|todo|] == todo && todo[|todo|..] == [];
    more, s := Further(s0, acts, W.Put(i, |todo|));
  }

  /** Just before its goroutine looks at the flag, another one sets it. */
  lemma AboutToLook(s0: State, acts: seq<Action>, i: nat) returns (more: seq<Action>, s: State)
    requires IsRun(s0, acts) && AfterAll(s0, acts).held.Some? && !AfterAll(s0, acts).held.value.dead
    requires W.At(AfterAll(s0, acts).w, i, W.Writing([]))
    ensures IsRun(s0, more) && s == AfterAll(s0, more) && SameHandle(AfterAll(s0, acts).held, s.held)
    ensures s.w == W.Goto(AfterAll(s0, acts).w, i, W.Looking([])).(flag := true)
  {
    hide IsRun, AfterAll;
    more, s := Further(s0, acts, W.Pause(i));
    more, s := Further(s0, more, W.SetFlag);
  }

  /** A server's goroutine leaves its frame in the buffer, and the call fails. */
  lemma Leaves(s0: State, acts: seq<Action>, i: nat) returns (more: seq<Action>, s: State)
    requires IsRun(s0, acts) && AfterAll(s0, acts).held.Some? && !AfterAll(s0, acts).held.value.dead
    requires
      var w := AfterAll(s0, acts).w;
      W.At(w, i, W.Looking([])) && !w.client && w.flag && !W.IsClose(w.threads[i].f)
    ensures IsRun(s0, more) && s == AfterAll(s0, more) && SameHandle(AfterAll(s0, acts).held, s.held)
    ensures s.w == W.Goto(AfterAll(s0, acts).w, i, W.Done).(token := false)
  {
    hide IsRun, AfterAll;
    more, s := Further(s0, acts, W.Abandon(i, []));
    more, s := Further(s0, more, W.Unlock(i));
  }

  /** A server's frame longer than two buffers: the buffer is filled up and spilled, and the rest goes past it. */
  lemma GoesOut(s0: State, acts: seq<Action>, i: nat) returns (more: seq<Action>, s: State)
    requires IsRun(s0, acts) && AfterAll(s0, acts).held.Some? && !AfterAll(s0, acts).held.value.dead
    requires
      var w := AfterAll(s0, acts).w;
      && W.InWriting(w, i) && !w.client && !w.err && |w.buf| <= w.capacity
      && |w.threads[i].pc.todo| > w.capacity + w.capacity
    ensures IsRun(s0, more) && s == AfterAll(s0, more) && s.w.begun == AfterAll(s0, acts).w.begun
    ensures
      var w := AfterAll(s0, acts).w;
      s.w.wire == w.wire + w.buf + w.threads[i].pc.todo
  {
    hide EncodeFrame, IsRun, AfterAll;
    var w := AfterAll(s0, acts).w;
    var todo, n := w.threads[i].pc.todo, w.capacity - |w.buf|;
    more, s := Further(s0, acts, W.Put(i, n));
    more, s := Further(s0, more, W.Spill(i));
    more, s := Further(s0, more, W.Direct(i, |todo| - n));
    assert w.wire + (w.buf + todo[..n]) + todo[n..][..|todo| - n] == w.wire + w.buf + todo;
  }

  /** The handle of a message of type typ writes a frame, which begins. */
  lemma HandleBegins(s0: State, acts: seq<Action>, fin: bool, flate: bool, p: seq<bv8>)
    returns (more: seq<Action>, s: State)
    requires IsRun(s0, acts) && |p| < MaxLength() && Enabled(AfterAll(s0, acts), WriteData(fin, flate, p, NoKey()))
    requires
      var s1 := AfterAll(s0, acts);
      !s1.w.client && !s1.w.token && !s1.w.closed && !s1.w.closeSent && !s1.held.value.through
    ensures IsRun(s0, more) && s == AfterAll(s0, more) && s.held.Some?
    ensures
      var s1 := AfterAll(s0, acts);
      var i, h := |s1.w.threads|, s1.held.value;
      var f := DataFrame(s1, h, fin, flate, p, NoKey());
      && s.w == Arrives(s1.w, f).(threads := s1.w.threads + [W.Thread(f, W.Writing(EncodeFrame(f)))], token := true,
                                  begun := s1.w.begun + [f], worker := i)
      && s.held.value.at == Some(i) && s.held.value.opcode == h.opcode && !s.held.value.dead
      && s.held.value.single == h.single && !s.held.value.through
  {
    hide EncodeFrame, IsRun, AfterAll;
    var i := |AfterAll(s0, acts).w.threads|;
    more, s := Extend(s0, acts, WriteData(fin, flate, p, NoKey()));
    more, s := Locks(s0, more, i);
    more, s := Obtains(s0, more, i);
  }

  /** The first frame of a message as a server sends it. */
  function First(typ: bv8, fin: bool, flate: bool, p: seq<bv8>): Frame {
    Frame(FrameWriter.FrameHeader(fin, flate, typ, |p|, false, NoKey()), p)
  }

  /** A server's first frame is left in the buffer, and the handle may go on. */
  lemma FirstFails(capacity: nat, typ: bv8, flate: bool, p: seq<bv8>) returns (acts: seq<Action>, s: State)
    requires typ in {OP_TEXT, OP_BINARY} && |p| < MaxLength() && |EncodeFrame(First(typ, false, flate, p))| <= capacity
    ensures IsRun(Fresh(false, capacity), acts) && s == AfterAll(Fresh(false, capacity), acts)
    ensures s.held.Some? && s.held.value.at.None? && s.held.value.opcode == typ && !s.held.value.dead
    ensures !s.held.value.single && !s.held.value.through
    ensures
      var f := First(typ, false, flate, p);
      && !s.w.client && !s.w.token && !s.w.closed && !s.w.closeSent && !s.w.err && s.w.capacity == capacity
      && s.w.wire == [] && s.w.buf == EncodeFrame(f) && s.w.begun == [f]
  {
    hide EncodeFrame, IsRun, AfterAll;
    var s0 := Fresh(false, capacity);
    assert IsRun(s0, []) && AfterAll(s0, []) == s0 by { RunOfNothing(s0); }
    acts, s := Extend(s0, [], Open(typ, false));
    acts, s := HandleBegins(s0, acts, false, flate, p);
    assert [] + [First(typ, false, flate, p)] == [First(typ, false, flate, p)];
    acts, s := Buffers(s0, acts, 0);
    acts, s := AboutToLook(s0, acts, 0);
    acts, s := Leaves(s0, acts, 0);
    acts, s := Extend(s0, acts, Return);
  }

  lemma RunOfNothing(s: State)
    ensures IsRun(s, []) && AfterAll(s, []) == s
  {
  }

  /** Two frames that each begin a message, the first of them unfinished. */
  lemma TwiceIsBroken(typ: bv8, fin: bool, a: bool, b: bool, p: seq<bv8>, q: seq<bv8>)
    requires typ in {OP_TEXT, OP_BINARY} && |p| < MaxLength() && |q| < MaxLength()
    ensures
      var f, g := First(typ, false, a, p), First(typ, fin, b, q);
      var s := EncodeFrames([f, g]);
      && s == EncodeFrame(f) + EncodeFrame(g)
      && FirstFrames(s, 2).Some? && FirstFrames(s, 2).value.frames == [f, g] && Assemble([f, g]) == Broken
  {
    hide EncodeFrame, FirstFrames;
    var f, g := First(typ, false, a, p), First(typ, fin, b, q);
    var fs := [f, g];
    assert fs[1..] == [g] && [g][1..] == [] && fs[..1] == [f] && [f][..0] == [] && fs[..2] == fs;
    assert EncodeFrames([g]) == EncodeFrame(g) + EncodeFrames([g][1..]) && EncodeFrames([]) == [];
    assert EncodeFrame(g) + [] == EncodeFrame(g) && EncodeFrames(fs) + [] == EncodeFrames(fs);
    FirstFramesWritten(fs, [], 2);
  }

  /**
   At a server, for all payloads of which the first fits the buffer and the second does not fit it
   twice: a handle whose first frame was left in the buffer because the connection was closing goes
   on, and the peer finds a message beginning inside a message.
   */
  lemma GoingOnBreaks(capacity: nat, typ: bv8, fin: bool, a: bool, b: bool, p: seq<bv8>, q: seq<bv8>)
    returns (acts: seq<Action>)
    requires typ in {OP_TEXT, OP_BINARY} && |p| < MaxLength() && |q| < MaxLength()
    requires |EncodeFrame(First(typ, false, a, p))| <= capacity
    requires |EncodeFrame(First(typ, fin, b, q))| > capacity + capacity
    ensures IsRun(Fresh(false, capacity), acts)
    ensures
      var wire := AfterAll(Fresh(false, capacity), acts).w.wire;
      FirstFrames(wire, 2).Some? && Assemble(FirstFrames(wire, 2).value.frames).Broken?
  {
    hide EncodeFrame, EncodeFrames, FirstFrames, Assemble, IsRun, AfterAll, W.IsClose;
    var s0 := Fresh(false, capacity);
    var s;
    acts, s := FirstFails(capacity, typ, a, p);
    var i := |s.w.threads|;
    acts, s := HandleBegins(s0, acts, fin, b, q);
    acts, s := GoesOut(s0, acts, i);
    TwiceIsBroken(typ, fin, a, b, p, q);
    assert [] + EncodeFrame(First(typ, false, a, p)) == EncodeFrame(First(typ, false, a, p));
  }
}
