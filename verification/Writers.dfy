/**
 Any number of goroutines in writeFrame on one connection, while it is being closed: small steps
 over the lock, the closing flags, the write buffer and the wire.
 */
module Writers {
  import opened Wrappers
  import opened Frame
  import opened FrameStream
  import opened Seqs

  /** Where a call of writeFrame is. */
  datatype PC =
    /** Waiting for the lock. */
    | Waiting
    /** The lock's token is placed; lock still looks whether the connection was closed meanwhile. */
    | Locked
    | Checked
    /** No close frame had been sent when it looked. */
    | Clear
    /** Writing header and payload; todo is what the buffer has not accepted yet. */
    | Writing(todo: seq<bv8>)
    /** A piece is in the buffer, a server's always the whole rest; about to look at closedFlag. */
    | Looking(todo: seq<bv8>)
    | Flushing
    | Sent
    /** A close frame has been sent and one had been received: unlocks early, then closes. */
    | Closing
    /** The deferred unlock is still to come, for the first or the second time. */
    | Leaving
    | LeavingAgain
    | Done

  datatype Thread = Thread(f: Frame, pc: PC)

  /** How much was on the wire when a server left a close frame in its buffer, and where that frame ends. */
  datatype Lost = Lost(start: nat, end: nat)

  datatype State = State(
    client: bool,
    /** The size of the write buffer. */
    capacity: nat,
    token: bool,
    closeSent: bool,
    closeReceived: bool,
    /** closedFlag, and the channel closed a moment later. */
    flag: bool,
    closed: bool,
    /** The writer's sticky error. */
    err: bool,
    buf: seq<bv8>,
    wire: seq<bv8>,
    threads: seq<Thread>,
    /** For the record: frames whose writing has begun, in the order the lock was obtained, and who began the last. */
    begun: seq<Frame>,
    worker: nat,
    /** Set once a server has left a whole close frame in the buffer because the connection was closing. */
    lost: Option<Lost>)

  datatype Action =
    | Arrive(f: Frame)
    | StopWaiting(i: nat)
    | Acquire(i: nat)
    | FindClosed(i: nat)
    | FindAlive(i: nat)
    | FindCloseSent(i: nat)
    | FindNoCloseSent(i: nat)
    | Refuse(i: nat)
    | Begin(i: nat)
    | Put(i: nat, n: nat)
    | Spill(i: nat)
    | Direct(i: nat, n: nat)
    | Fail(i: nat, n: nat)
    | FailDirect(i: nat, n: nat)
    | Stick(i: nat)
    | Pause(i: nat)
    | FindOpen(i: nat)
    | SkipLook(i: nat)
    | Abandon(i: nat, junk: seq<bv8>)
    | Flushed(i: nat)
    | EndFrame(i: nat)
    | UnlockEarly(i: nat)
    | Unlock(i: nat)
    | ReceiveClose
    | SetFlag
    | CloseChannel

  predicate At(s: State, i: nat, pc: PC) {
    i < |s.threads| && s.threads[i].pc == pc
  }

  predicate InWriting(s: State, i: nat) {
    i < |s.threads| && s.threads[i].pc.Writing?
  }

  predicate InLooking(s: State, i: nat) {
    i < |s.threads| && s.threads[i].pc.Looking?
  }

  /** The buffer is full and there is more to buffer, or the frame is complete and final. */
  predicate MustSpill(s: State, i: nat) {
    At(s, i, Flushing) || (InWriting(s, i) && |s.buf| == s.capacity && s.threads[i].pc.todo != [])
  }

  /** A large write with an empty buffer goes past it. */
  predicate Bypasses(s: State, i: nat, n: nat) {
    InWriting(s, i) && s.buf == [] && s.capacity < |s.threads[i].pc.todo| && n <= |s.threads[i].pc.todo|
  }

  /** A client's sink refuses everything once the flag is set; an error in the buffered writer sticks. */
  predicate SinkShut(s: State) {
    s.err || (s.client && s.flag)
  }

  predicate Enabled(s: State, a: Action) {
    match a
    case Arrive(f) => f.Valid() && f.h.masked == s.client
    case StopWaiting(i) => At(s, i, Waiting)
    case Acquire(i) => At(s, i, Waiting) && !s.token
    case FindClosed(i) => At(s, i, Locked) && s.closed
    case FindAlive(i) => At(s, i, Locked) && !s.closed
    case FindCloseSent(i) => At(s, i, Checked) && s.closeSent
    case FindNoCloseSent(i) => At(s, i, Checked) && !s.closeSent
    case Refuse(i) => At(s, i, Clear)
    case Begin(i) => At(s, i, Clear)
    case Put(i, n) => InWriting(s, i) && !s.err && n <= |s.threads[i].pc.todo| && |s.buf| + n <= s.capacity
    case Spill(i) => MustSpill(s, i) && !SinkShut(s)
    case Direct(i, n) => Bypasses(s, i, n) && !SinkShut(s)
    case Fail(i, n) => MustSpill(s, i) && !s.err && n <= |s.buf| && (SinkShut(s) ==> n == 0)
    case FailDirect(i, n) => Bypasses(s, i, n) && !s.err && (SinkShut(s) ==> n == 0)
    case Stick(i) => InWriting(s, i) && s.err
    case Pause(i) => InWriting(s, i) && (s.client || s.threads[i].pc.todo == [])
    case FindOpen(i) => InLooking(s, i) && !s.flag
    case SkipLook(i) => InWriting(s, i) && s.client && s.threads[i].f.payload == [] && s.threads[i].pc.todo == []
    case Abandon(i, _) => InLooking(s, i) && s.flag && (s.client || s.threads[i].pc.todo == [])
    case Flushed(i) => At(s, i, Flushing) && s.buf == []
    case EndFrame(i) => At(s, i, Sent)
    case UnlockEarly(i) => At(s, i, Closing)
    case Unlock(i) => At(s, i, Leaving) || At(s, i, LeavingAgain)
    case ReceiveClose => true
    case SetFlag => true
    case CloseChannel => s.flag
  }

  /** Thread i goes on to pc. */
  function Goto(s: State, i: nat, pc: PC): (g: State)
    ensures g.client == s.client && g.capacity == s.capacity && g.begun == s.begun && g.lost == s.lost
  {
    if i < |s.threads| then s.(threads := s.threads[i := s.threads[i].(pc := pc)]) else s
  }

  predicate IsClose(f: Frame) {
    f.h.opcode == OP_CLOSE
  }

  /** Behind its frame a thread unlocks, unless this was the answer to a close frame. */
  function AfterFrame(s: State, i: nat): PC
    requires i < |s.threads|
  {
    if IsClose(s.threads[i].f) && s.closeReceived then Closing else Leaving
  }

  /** With the payload buffered, a final frame is flushed. */
  function AfterPayload(f: Frame): PC {
    if f.h.fin then Flushing else Sent
  }

  /** The connection is not closing: on to the next piece, or past the payload. */
  function AfterLook(t: Thread): PC
    requires t.pc.Looking?
  {
    if t.pc.todo != [] then Writing(t.pc.todo) else AfterPayload(t.f)
  }

  /** What there is to remember when frame f is left in the buffer. */
  function AfterLoss(s: State, f: Frame): Option<Lost> {
    if s.lost.None? && !s.client && !s.err && IsClose(f) then Some(Lost(|s.wire|, |s.wire| + |s.buf|)) else s.lost
  }

  function Apply(s: State, a: Action): (s2: State)
    requires Enabled(s, a)
    ensures s2.client == s.client && s2.capacity == s.capacity && (s.lost.Some? ==> s2.lost == s.lost)
    ensures !a.Begin? ==> s2.begun == s.begun
  {
    match a
    case Arrive(f) => s.(threads := s.threads + [Thread(f, Waiting)])
    case StopWaiting(i) => Goto(s, i, Done)
    case Acquire(i) => Goto(s, i, Locked).(token := true)
    case FindClosed(i) => Goto(s, i, Done).(token := false)
    case FindAlive(i) => Goto(s, i, Checked)
    case FindCloseSent(i) => Goto(s, i, Leaving)
    case FindNoCloseSent(i) => Goto(s, i, Clear)
    case Refuse(i) => Goto(s, i, Leaving)
    case Begin(i) => Goto(s, i, Writing(EncodeFrame(s.threads[i].f))).(begun := s.begun + [s.threads[i].f], worker := i)
    case Put(i, n) =>
      var todo := s.threads[i].pc.todo;
      Goto(s, i, Writing(todo[n..])).(buf := s.buf + todo[..n])
    case Spill(i) => s.(wire := s.wire + s.buf, buf := [])
    case Direct(i, n) =>
      var todo := s.threads[i].pc.todo;
      Goto(s, i, Writing(todo[n..])).(wire := s.wire + todo[..n])
    case Fail(i, n) => Goto(s, i, Leaving).(wire := s.wire + s.buf[..n], buf := s.buf[n..], err := true)
    case FailDirect(i, n) => Goto(s, i, Leaving).(wire := s.wire + s.threads[i].pc.todo[..n], err := true)
    case Stick(i) => Goto(s, i, Leaving)
    case Pause(i) => Goto(s, i, Looking(s.threads[i].pc.todo))
    case FindOpen(i) => Goto(s, i, AfterLook(s.threads[i]))
    case SkipLook(i) => Goto(s, i, AfterPayload(s.threads[i].f))
    case Abandon(i, junk) =>
      Goto(s, i, Leaving).(buf := if s.client then junk else s.buf, lost := AfterLoss(s, s.threads[i].f))
    case Flushed(i) => Goto(s, i, Sent)
    case EndFrame(i) =>
      Goto(s, i, AfterFrame(s, i)).(closeSent := s.closeSent || IsClose(s.threads[i].f))
    case UnlockEarly(i) => Goto(s, i, LeavingAgain).(token := false)
    case Unlock(i) => Goto(s, i, Done).(token := false)
    case ReceiveClose => s.(closeReceived := true)
    case SetFlag => s.(flag := true)
    case CloseChannel => s.(closed := true)
  }

  function Fresh(client: bool, capacity: nat): State {
    State(client, capacity, false, false, false, false, false, false, [], [], [], [], 0, None)
  }

  ghost predicate IsRun(s: State, acts: seq<Action>)
    decreases |acts|
  {
    acts == [] || (Enabled(s, acts[0]) && IsRun(Apply(s, acts[0]), acts[1..]))
  }

  ghost function AfterAll(s: State, acts: seq<Action>): State
    requires IsRun(s, acts)
    decreases |acts|
  {
    if acts == [] then s else AfterAll(Apply(s, acts[0]), acts[1..])
  }

  // ---- Exclusion ----

  /** Between obtaining the lock and giving it back. */
  predicate Holds(pc: PC) {
    !pc.Waiting? && !pc.LeavingAgain? && !pc.Done?
  }

  /** Past the look at closeSent, and not done with the buffer. */
  predicate Touches(pc: PC) {
    pc.Clear? || pc.Writing? || pc.Looking? || pc.Flushing? || pc.Sent?
  }

  /** A lock in the ordinary sense, as long as no close frame has been sent. */
  ghost predicate Locking(s: State) {
    !s.closeSent ==>
      && (forall i :: 0 <= i < |s.threads| ==> !s.threads[i].pc.Closing? && !s.threads[i].pc.LeavingAgain?)
      && (forall i, j :: 0 <= i < j < |s.threads| ==> !(Holds(s.threads[i].pc) && Holds(s.threads[j].pc)))
      && (!s.token ==> forall i :: 0 <= i < |s.threads| ==> !Holds(s.threads[i].pc))
  }

  /** Nobody touches the buffer once a close frame has been sent, whoever has the lock's token. */
  ghost predicate HandsOff(s: State) {
    s.closeSent ==> forall i :: 0 <= i < |s.threads| ==> !Touches(s.threads[i].pc)
  }

  /** Thread i moves on; it holds the lock afterwards only if it did, or if the token was free. */
  lemma Moved(s: State, s2: State, i: nat, pc: PC)
    requires Locking(s) && HandsOff(s) && i < |s.threads| && s2.closeSent == s.closeSent
    requires s2.threads == s.threads[i := s.threads[i].(pc := pc)]
    requires if s.closeSent then !Touches(pc) else !pc.Closing? && !pc.LeavingAgain?
    requires !s.closeSent ==>
      if Holds(s.threads[i].pc) then s2.token == (s.token && Holds(pc))
      else if Holds(pc) then !s.token && s2.token
      else s2.token == s.token
    ensures Locking(s2) && HandsOff(s2)
  {
  }

  lemma LockingStep(s: State, a: Action)
    requires Locking(s) && HandsOff(s) && Enabled(s, a)
    ensures Locking(Apply(s, a)) && HandsOff(Apply(s, a))
  {
    hide Locking, HandsOff, EncodeFrame, Goto, Enabled, Apply;
    match a {
      case Arrive(f) => Arrived(s, f);
      case EndFrame(i) => FrameEnded(s, i);
      case Refuse(_) => EndingStep(s, a);
      case Fail(_, _) => EndingStep(s, a);
      case FailDirect(_, _) => EndingStep(s, a);
      case Stick(_) => EndingStep(s, a);
      case Abandon(_, _) => EndingStep(s, a);
      case Begin(_) => WorkingStep(s, a);
      case Put(_, _) => WorkingStep(s, a);
      case Direct(_, _) => WorkingStep(s, a);
      case Pause(_) => WorkingStep(s, a);
      case FindOpen(_) => FinishStep(s, a);
      case SkipLook(_) => FinishStep(s, a);
      case Flushed(_) => FinishStep(s, a);
      case StopWaiting(_) => LockStep(s, a);
      case Acquire(_) => LockStep(s, a);
      case FindClosed(_) => UnlockStep(s, a);
      case FindAlive(_) => LockStep(s, a);
      case FindCloseSent(_) => LockStep(s, a);
      case FindNoCloseSent(_) => LockStep(s, a);
      case UnlockEarly(_) => UnlockStep(s, a);
      case Unlock(_) => UnlockStep(s, a);
      case _ => NobodyMoved(s, a);
    }
  }

  /** The steps around the lock. */
  lemma LockStep(s: State, a: Action)
    requires Locking(s) && HandsOff(s) && Enabled(s, a)
    requires a.StopWaiting? || a.Acquire? || a.FindAlive? || a.FindCloseSent? || a.FindNoCloseSent?
    ensures Locking(Apply(s, a)) && HandsOff(Apply(s, a))
  {
    hide Locking, HandsOff, EncodeFrame;
    match a {
      case StopWaiting(i) => MovesTo(s, a, i, Done);
      case Acquire(i) => MovesTo(s, a, i, Locked);
      case FindAlive(i) => MovesTo(s, a, i, Checked);
      case FindCloseSent(i) => MovesTo(s, a, i, Leaving);
      case FindNoCloseSent(i) => MovesTo(s, a, i, Clear);
    }
  }

  /** The steps that free the lock's token. */
  lemma UnlockStep(s: State, a: Action)
    requires Locking(s) && HandsOff(s) && Enabled(s, a) && (a.FindClosed? || a.UnlockEarly? || a.Unlock?)
    ensures Locking(Apply(s, a)) && HandsOff(Apply(s, a))
  {
    hide Locking, HandsOff;
    match a {
      case FindClosed(i) => MovesTo(s, a, i, Done);
      case UnlockEarly(i) => MovesTo(s, a, i, LeavingAgain);
      case Unlock(i) => MovesTo(s, a, i, Done);
    }
  }

  /** Steps that end writing early. */
  lemma EndingStep(s: State, a: Action)
    requires Locking(s) && HandsOff(s) && Enabled(s, a)
    requires a.Refuse? || a.Fail? || a.FailDirect? || a.Stick? || a.Abandon?
    ensures Locking(Apply(s, a)) && HandsOff(Apply(s, a))
  {
    hide Locking, HandsOff, EncodeFrame;
    match a {
      case Refuse(i) => MovesTo(s, a, i, Leaving);
      case Fail(i, _) => MovesTo(s, a, i, Leaving);
      case FailDirect(i, _) => MovesTo(s, a, i, Leaving);
      case Stick(i) => MovesTo(s, a, i, Leaving);
      case Abandon(i, _) => MovesTo(s, a, i, Leaving);
    }
  }

  lemma FinishStep(s: State, a: Action)
    requires Locking(s) && HandsOff(s) && Enabled(s, a) && (a.FindOpen? || a.SkipLook? || a.Flushed?)
    ensures Locking(Apply(s, a)) && HandsOff(Apply(s, a))
  {
    hide Locking, HandsOff;
    match a {
      case FindOpen(i) => MovesTo(s, a, i, AfterLook(s.threads[i]));
      case SkipLook(i) => MovesTo(s, a, i, AfterPayload(s.threads[i].f));
      case Flushed(i) => MovesTo(s, a, i, Sent);
    }
  }

  lemma WorkingStep(s: State, a: Action)
    requires Locking(s) && HandsOff(s) && Enabled(s, a)
    requires a.Begin? || a.Put? || a.Direct? || a.Pause?
    ensures Locking(Apply(s, a)) && HandsOff(Apply(s, a))
  {
    hide Locking, HandsOff, EncodeFrame;
    match a {
      case Begin(i) => MovesTo(s, a, i, Writing(EncodeFrame(s.threads[i].f)));
      case Put(i, n) => MovesTo(s, a, i, Writing(s.threads[i].pc.todo[n..]));
      case Direct(i, n) => MovesTo(s, a, i, Writing(s.threads[i].pc.todo[n..]));
      case Pause(i) => MovesTo(s, a, i, Looking(s.threads[i].pc.todo));
    }
  }

  lemma NobodyMoved(s: State, a: Action)
    requires Locking(s) && HandsOff(s) && Enabled(s, a)
    requires a.Spill? || a.ReceiveClose? || a.SetFlag? || a.CloseChannel?
    ensures Locking(Apply(s, a)) && HandsOff(Apply(s, a))
  {
  }

  lemma FrameEnded(s: State, i: nat)
    requires Locking(s) && HandsOff(s) && Enabled(s, EndFrame(i))
    ensures Locking(Apply(s, EndFrame(i))) && HandsOff(Apply(s, EndFrame(i)))
  {
    if IsClose(s.threads[i].f) {
      CloseMarked(s, i);
    } else {
      MovesTo(s, EndFrame(i), i, Leaving);
    }
  }

  /** An action that only moves thread i, and perhaps takes or frees the lock's token. */
  lemma MovesTo(s: State, a: Action, i: nat, pc: PC)
    requires Locking(s) && HandsOff(s) && Enabled(s, a) && i < |s.threads|
    requires Apply(s, a).threads == s.threads[i := s.threads[i].(pc := pc)] && Apply(s, a).closeSent == s.closeSent
    requires !s.closeSent && !s.threads[i].pc.LeavingAgain? ==>
      Apply(s, a).token == if Holds(s.threads[i].pc) then s.token && Holds(pc) else s.token || Holds(pc)
    requires Touches(pc) ==> Touches(s.threads[i].pc) || !s.closeSent
    requires !s.closeSent ==> !pc.Closing? && (pc.LeavingAgain? ==> s.threads[i].pc.Closing?)
    requires Holds(pc) && !Holds(s.threads[i].pc) ==> !s.token
    ensures Locking(Apply(s, a)) && HandsOff(Apply(s, a))
  {
    hide Enabled, Apply, Locking, HandsOff;
    Facts(s, i);
    Moved(s, Apply(s, a), i, pc);
  }

  lemma Facts(s: State, i: nat)
    requires Locking(s) && HandsOff(s) && i < |s.threads|
    ensures
      var pc := s.threads[i].pc;
      if s.closeSent then !Touches(pc) else !pc.Closing? && !pc.LeavingAgain?
    ensures !s.closeSent && Holds(s.threads[i].pc) ==> s.token
  {
  }

  lemma Arrived(s: State, f: Frame)
    requires Locking(s) && HandsOff(s) && Enabled(s, Arrive(f))
    ensures Locking(Apply(s, Arrive(f))) && HandsOff(Apply(s, Arrive(f)))
  {
  }

  lemma CloseMarked(s: State, i: nat)
    requires Locking(s) && HandsOff(s) && Enabled(s, EndFrame(i)) && IsClose(s.threads[i].f)
    ensures Locking(Apply(s, EndFrame(i))) && HandsOff(Apply(s, EndFrame(i)))
  {
  }

  // ---- The bytes ----

  /** The frames up to the first close frame, which is included. */
  function UpToClose(fs: seq<Frame>): (r: seq<Frame>)
    ensures r <= fs
  {
    if fs == [] then [] else if IsClose(fs[0]) then [fs[0]] else [fs[0]] + UpToClose(fs[1..])
  }

  /** A close frame can only be the last one. */
  ghost predicate CloseLast(fs: seq<Frame>) {
    forall j :: 0 <= j < |fs| - 1 ==> !IsClose(fs[j])
  }

  lemma {:induction false} UpToCloseAll(fs: seq<Frame>)
    ensures CloseLast(fs) ==> UpToClose(fs) == fs
    ensures CloseLast(UpToClose(fs))
  {
    if fs != [] {
      UpToCloseAll(fs[1..]);
      if CloseLast(fs) && |fs| > 1 {
        assert forall j :: 0 <= j < |fs[1..]| - 1 ==> fs[1..][j] == fs[j + 1];
        assert CloseLast(fs[1..]);
      }
    }
  }

  lemma {:induction false} UpToCloseGrows(fs: seq<Frame>, f: Frame)
    ensures UpToClose(fs) <= UpToClose(fs + [f])
  {
    if fs != [] {
      UpToCloseGrows(fs[1..], f);
      assert (fs + [f])[1..] == fs[1..] + [f];
    }
  }

  lemma EncodePrefix(fs: seq<Frame>, gs: seq<Frame>)
    requires fs <= gs
    ensures EncodeFrames(fs) <= EncodeFrames(gs)
  {
    hide EncodeFrames;
    assert gs == fs + gs[|fs|..];
    EncodeFramesAppend(fs, gs[|fs|..]);
  }

  /** Between the first byte of a frame and the end of writeFrame. */
  predicate Works(pc: PC) {
    pc.Writing? || pc.Looking? || pc.Flushing? || pc.Sent?
  }

  ghost predicate Idle(s: State) {
    s.worker < |s.threads| ==> !Works(s.threads[s.worker].pc)
  }

  /** What a thread has not put into the buffer yet. */
  function Left(pc: PC): seq<bv8> {
    if pc.Writing? || pc.Looking? then pc.todo else []
  }

  ghost function Todo(s: State): seq<bv8> {
    if s.worker < |s.threads| then Left(s.threads[s.worker].pc) else []
  }

  /** Only the thread that began last can be at work, on the frame it began. */
  ghost predicate OneWorker(s: State) {
    && (forall i :: 0 <= i < |s.threads| && Works(s.threads[i].pc) ==> i == s.worker)
    && (!Idle(s) ==> s.begun != [] && s.worker < |s.threads| && s.begun[|s.begun| - 1] == s.threads[s.worker].f)
  }

  ghost predicate FramesValid(s: State) {
    && (forall j :: 0 <= j < |s.begun| ==> s.begun[j].Valid() && s.begun[j].h.masked == s.client)
    && (forall i :: 0 <= i < |s.threads| ==> s.threads[i].f.Valid() && s.threads[i].f.h.masked == s.client)
  }

  /** While anything can still reach the wire, wire, buffer and what is left to buffer are the frames begun. */
  ghost predicate Accounted(s: State) {
    !SinkShut(s) ==> s.wire + s.buf + Todo(s) == EncodeFrames(s.begun)
  }

  /** Close frames stand last, and once one is complete it counts as sent. */
  ghost predicate Closed(s: State) {
    && (s.client ==> s.lost.None?)
    && (!SinkShut(s) && s.lost.None? ==>
          && CloseLast(s.begun)
          && (!s.closeSent && Idle(s) ==> s.begun == [] || !IsClose(s.begun[|s.begun| - 1])))
  }

  /** What has reached the wire. */
  ghost predicate WireInOrder(s: State) {
    && s.wire <= EncodeFrames(s.begun)
    && (s.lost.None? ==> s.wire <= EncodeFrames(UpToClose(s.begun)))
  }

  ghost predicate Stream(s: State) {
    FramesValid(s) && OneWorker(s) && Accounted(s) && Closed(s) && WireInOrder(s)
  }

  /** A thread that touches the buffer is the only one. */
  lemma Alone(s: State, i: nat, j: nat)
    requires Locking(s) && HandsOff(s) && i < |s.threads| && j < |s.threads| && i != j && Touches(s.threads[i].pc)
    ensures !Touches(s.threads[j].pc)
  {
  }

  lemma CloseLastSnoc(fs: seq<Frame>, f: Frame)
    requires CloseLast(fs) && (fs == [] || !IsClose(fs[|fs| - 1]))
    ensures CloseLast(fs + [f])
  {
  }

  /** One frame more to send changes nothing about the bytes before it. */
  lemma FrameAdded(s: State, f: Frame)
    requires Accounted(s) && WireInOrder(s) && Todo(s) == []
    ensures !SinkShut(s) ==> s.wire + s.buf + EncodeFrame(f) == EncodeFrames(s.begun + [f])
    ensures s.wire <= EncodeFrames(s.begun + [f])
    ensures s.lost.None? ==> s.wire <= EncodeFrames(UpToClose(s.begun + [f]))
  {
    hide EncodeFrame, EncodeFrames, UpToClose, SinkShut, Todo;
    assert s.wire + s.buf + [] == s.wire + s.buf;
    EncodeFramesSnoc(s.begun, f);
    UpToCloseGrows(s.begun, f);
    EncodePrefix(UpToClose(s.begun), UpToClose(s.begun + [f]));
  }

  /** A thread that has found no close frame sent finds nobody at work either. */
  lemma NobodyWorks(s: State, i: nat)
    requires Locking(s) && HandsOff(s) && OneWorker(s) && At(s, i, Clear)
    ensures !s.closeSent && Idle(s) && forall j :: 0 <= j < |s.threads| ==> !Works(s.threads[j].pc)
  {
    hide Locking, HandsOff;
    Facts(s, i);
    if s.worker < |s.threads| && s.worker != i {
      Alone(s, i, s.worker);
    }
  }

  lemma BeginAlone(s: State, i: nat)
    requires Enabled(s, Begin(i)) && forall j :: 0 <= j < |s.threads| ==> !Works(s.threads[j].pc)
    ensures OneWorker(Apply(s, Begin(i)))
  {
    hide EncodeFrame;
  }

  lemma BeginFrames(s: State, i: nat)
    requires FramesValid(s) && Enabled(s, Begin(i))
    ensures FramesValid(Apply(s, Begin(i)))
  {
    hide EncodeFrame, Frame.Valid;
  }

  lemma BeginStep(s: State, i: nat)
    requires Locking(s) && HandsOff(s) && Stream(s) && Enabled(s, Begin(i))
    ensures Stream(Apply(s, Begin(i)))
  {
    hide EncodeFrame, EncodeFrames, UpToClose, Frame.Valid, CloseLast, Locking, HandsOff, OneWorker, FramesValid;
    var f := s.threads[i].f;
    NobodyWorks(s, i);
    BeginAlone(s, i);
    BeginFrames(s, i);
    if CloseLast(s.begun) && (s.begun == [] || !IsClose(s.begun[|s.begun| - 1])) {
      CloseLastSnoc(s.begun, f);
    }
    FrameAdded(s, f);
  }

  /** A thread that goes on or stops working leaves the frames and the one worker alone. */
  lemma Moves(s: State, s2: State, i: nat, pc: PC)
    requires OneWorker(s) && FramesValid(s) && i < |s.threads|
    requires s2.threads == s.threads[i := s.threads[i].(pc := pc)] && (Works(pc) ==> Works(s.threads[i].pc))
    requires s2.begun == s.begun && s2.worker == s.worker && s2.client == s.client
    ensures OneWorker(s2) && FramesValid(s2)
  {
    hide Frame.Valid;
  }

  lemma AtWork(s: State, i: nat)
    requires Stream(s) && i < |s.threads| && Works(s.threads[i].pc)
    ensures s.worker == i && Todo(s) == Left(s.threads[i].pc)
  {
  }

  lemma PutStep(s: State, i: nat, n: nat)
    requires Stream(s) && Enabled(s, Put(i, n))
    ensures Stream(Apply(s, Put(i, n)))
  {
    hide EncodeFrame, EncodeFrames, UpToClose, CloseLast, OneWorker, FramesValid;
    var todo := s.threads[i].pc.todo;
    AtWork(s, i);
    Moves(s, Apply(s, Put(i, n)), i, Writing(todo[n..]));
    Split(todo, n);
    Assoc(s.buf, todo[..n], todo[n..]);
    Assoc(s.wire, s.buf + todo[..n], todo[n..]);
    Assoc(s.wire, s.buf, todo);
  }

  /** Bytes that reach the wire are the next ones in order. */
  lemma Reaches(s: State, out: seq<bv8>, rest: seq<bv8>)
    requires Stream(s) && !SinkShut(s) && out + rest == s.buf + Todo(s)
    ensures s.wire + out <= EncodeFrames(s.begun) && s.wire + out + rest == EncodeFrames(s.begun)
    ensures s.lost.None? ==> s.wire + out <= EncodeFrames(UpToClose(s.begun))
  {
    hide EncodeFrame, EncodeFrames, UpToClose, Frame.Valid, CloseLast, Todo;
    UpToCloseAll(s.begun);
    Assoc(s.wire, s.buf, Todo(s));
    Assoc(s.wire, out, rest);
  }

  lemma SpillStep(s: State, i: nat)
    requires Stream(s) && Enabled(s, Spill(i))
    ensures Stream(Apply(s, Spill(i)))
  {
    hide EncodeFrame, EncodeFrames, UpToClose, Frame.Valid, CloseLast;
    Reaches(s, s.buf, Todo(s));
    assert s.wire + s.buf + [] == s.wire + s.buf;
  }

  lemma DirectStep(s: State, i: nat, n: nat)
    requires Stream(s) && Enabled(s, Direct(i, n))
    ensures Stream(Apply(s, Direct(i, n)))
  {
    hide EncodeFrame, EncodeFrames, UpToClose, Frame.Valid, CloseLast;
    assert s.worker == i;
    var todo := s.threads[i].pc.todo;
    Split(todo, n);
    assert s.buf + todo == todo;
    Reaches(s, todo[..n], todo[n..]);
    assert s.wire + todo[..n] + [] == s.wire + todo[..n];
  }

  /** A write that fails brings a part of what was to come onto the wire, and nothing after it. */
  lemma Broken(s: State, s2: State, i: nat, out: seq<bv8>, rest: seq<bv8>)
    requires Stream(s) && i < |s.threads|
    requires
      var threads := s.threads[i := s.threads[i].(pc := Leaving)];
      s2 == s.(threads := threads, wire := s.wire + out, buf := s2.buf, err := true)
    requires if SinkShut(s) then out == [] else out + rest == s.buf + Todo(s)
    ensures Stream(s2)
  {
    hide EncodeFrame, EncodeFrames, UpToClose, CloseLast, OneWorker, FramesValid, Idle, Todo;
    Moves(s, s2, i, Leaving);
    if SinkShut(s) {
      assert s.wire + out == s.wire;
    } else {
      Reaches(s, out, rest);
    }
  }

  lemma FailStep(s: State, i: nat, n: nat)
    requires Stream(s) && Enabled(s, Fail(i, n))
    ensures Stream(Apply(s, Fail(i, n)))
  {
    hide Stream, Todo, EncodeFrame, SinkShut;
    Split(s.buf, n);
    Assoc(s.buf[..n], s.buf[n..], Todo(s));
    Broken(s, Apply(s, Fail(i, n)), i, s.buf[..n], s.buf[n..] + Todo(s));
  }

  lemma FailDirectStep(s: State, i: nat, n: nat)
    requires Stream(s) && Enabled(s, FailDirect(i, n))
    ensures Stream(Apply(s, FailDirect(i, n)))
  {
    hide Stream, EncodeFrame, SinkShut;
    var todo := s.threads[i].pc.todo;
    AtWork(s, i);
    Split(todo, n);
    assert s.buf + todo == todo;
    Broken(s, Apply(s, FailDirect(i, n)), i, todo[..n], todo[n..]);
  }

  /** A sticky error ends the call; nothing more reaches the wire. */
  lemma StickStep(s: State, i: nat)
    requires Stream(s) && Enabled(s, Stick(i))
    ensures Stream(Apply(s, Stick(i)))
  {
    hide EncodeFrame, EncodeFrames, UpToClose, Frame.Valid, CloseLast;
  }

  /** A frame left in the buffer because the connection is closing: whole at a server, and never to leave a client. */
  lemma AbandonStep(s: State, i: nat, junk: seq<bv8>)
    requires Stream(s) && Enabled(s, Abandon(i, junk))
    ensures Stream(Apply(s, Abandon(i, junk)))
  {
    hide EncodeFrame, EncodeFrames, UpToClose, Frame.Valid;
    assert s.worker == i;
  }

  /** A step of thread i that leaves buffer, wire and frames alone. */
  predicate OnlyMoves(s: State, s2: State, i: nat, pc: PC)
    requires i < |s.threads|
  {
    && s2.threads == s.threads[i := s.threads[i].(pc := pc)]
    && s2.buf == s.buf && s2.wire == s.wire && s2.begun == s.begun && s2.worker == s.worker
    && s2.client == s.client && s2.flag == s.flag && s2.err == s.err && s2.lost == s.lost
    && s2.closeSent == s.closeSent
  }

  lemma WorkerMoves(s: State, s2: State, i: nat, pc: PC)
    requires Stream(s) && i < |s.threads| && OnlyMoves(s, s2, i, pc)
    requires Works(s.threads[i].pc) && Works(pc) && Left(pc) == Left(s.threads[i].pc)
    ensures Stream(s2)
  {
    hide EncodeFrame, EncodeFrames, UpToClose, Frame.Valid, CloseLast;
  }

  lemma OtherMoves(s: State, s2: State, i: nat, pc: PC)
    requires Stream(s) && i < |s.threads| && OnlyMoves(s, s2, i, pc) && !Works(s.threads[i].pc) && !Works(pc)
    ensures Stream(s2)
  {
    hide EncodeFrame, EncodeFrames, UpToClose, CloseLast, OneWorker, FramesValid;
    Moves(s, s2, i, pc);
    assert Todo(s2) == Todo(s);
  }

  /** The thread at work is done with its frame; a close frame is marked as sent. */
  lemma EndStep(s: State, s2: State, i: nat, pc: PC)
    requires Stream(s) && i < |s.threads| && s.threads[i].pc == Sent && !Works(pc)
    requires OnlyMoves(s, s2.(closeSent := s.closeSent), i, pc)
    requires s2.closeSent == (s.closeSent || IsClose(s.threads[i].f))
    ensures Stream(s2)
  {
    hide EncodeFrame, EncodeFrames, UpToClose, Frame.Valid, CloseLast;
    assert s.worker == i && Todo(s2) == Todo(s);
  }

  lemma FrameSent(s: State, i: nat)
    requires Stream(s) && Enabled(s, EndFrame(i))
    ensures Stream(Apply(s, EndFrame(i)))
  {
    hide Stream, EncodeFrame;
    EndStep(s, Apply(s, EndFrame(i)), i, AfterFrame(s, i));
  }

  lemma ArriveStep(s: State, f: Frame)
    requires Stream(s) && Enabled(s, Arrive(f))
    ensures Stream(Apply(s, Arrive(f)))
  {
    hide EncodeFrame, EncodeFrames, UpToClose, Frame.Valid, CloseLast;
    var s2 := s.(threads := s.threads + [Thread(f, Waiting)]);
    assert Apply(s, Arrive(f)) == s2 && Todo(s2) == Todo(s);
  }

  lemma FlagStep(s: State, a: Action)
    requires Stream(s) && Enabled(s, a) && (a.ReceiveClose? || a.SetFlag? || a.CloseChannel?)
    ensures Stream(Apply(s, a))
  {
    hide EncodeFrame, EncodeFrames, UpToClose, Frame.Valid, CloseLast;
    assert Todo(Apply(s, a)) == Todo(s);
  }

  lemma StreamStep(s: State, a: Action)
    requires Locking(s) && HandsOff(s) && Stream(s) && Enabled(s, a)
    ensures Stream(Apply(s, a))
  {
    hide Locking, HandsOff, Stream, EncodeFrame, Frame.Valid;
    match a {
      case Begin(i) => BeginStep(s, i);
      case Put(i, n) => PutStep(s, i, n);
      case Spill(i) => SpillStep(s, i);
      case Direct(i, n) => DirectStep(s, i, n);
      case Fail(i, n) => FailStep(s, i, n);
      case FailDirect(i, n) => FailDirectStep(s, i, n);
      case Stick(i) => StickStep(s, i);
      case Abandon(i, junk) => AbandonStep(s, i, junk);
      case Pause(_) => LookStep(s, a);
      case FindOpen(_) => LookStep(s, a);
      case SkipLook(_) => LookStep(s, a);
      case Flushed(_) => LookStep(s, a);
      case EndFrame(i) => FrameSent(s, i);
      case Arrive(f) => ArriveStep(s, f);
      case ReceiveClose => FlagStep(s, a);
      case SetFlag => FlagStep(s, a);
      case CloseChannel => FlagStep(s, a);
      case FindCloseSent(_) => CheckStep(s, a);
      case FindNoCloseSent(_) => CheckStep(s, a);
      case Refuse(_) => CheckStep(s, a);
      case _ => OtherStep(s, a);
    }
  }

  /** Steps of the thread at work that leave buffer and wire alone. */
  lemma LookStep(s: State, a: Action)
    requires Stream(s) && Enabled(s, a) && (a.Pause? || a.FindOpen? || a.SkipLook? || a.Flushed?)
    ensures Stream(Apply(s, a))
  {
    hide Stream, EncodeFrame;
    match a {
      case Pause(i) => WorkerMoves(s, Apply(s, a), i, Looking(s.threads[i].pc.todo));
      case FindOpen(i) => WorkerMoves(s, Apply(s, a), i, AfterLook(s.threads[i]));
      case SkipLook(i) => WorkerMoves(s, Apply(s, a), i, AfterPayload(s.threads[i].f));
      case Flushed(i) => WorkerMoves(s, Apply(s, a), i, Sent);
    }
  }

  /** Steps of threads that are not at work: around the lock. */
  lemma OtherStep(s: State, a: Action)
    requires Stream(s) && Enabled(s, a)
    requires a.StopWaiting? || a.Acquire? || a.FindClosed? || a.FindAlive? || a.UnlockEarly? || a.Unlock?
    ensures Stream(Apply(s, a))
  {
    hide Stream, EncodeFrame;
    match a {
      case StopWaiting(i) => OtherMoves(s, Apply(s, a), i, Done);
      case Acquire(i) => OtherMoves(s, Apply(s, a), i, Locked);
      case FindClosed(i) => OtherMoves(s, Apply(s, a), i, Done);
      case FindAlive(i) => OtherMoves(s, Apply(s, a), i, Checked);
      case UnlockEarly(i) => OtherMoves(s, Apply(s, a), i, LeavingAgain);
      case Unlock(i) => OtherMoves(s, Apply(s, a), i, Done);
    }
  }

  /** The same: before the first byte. */
  lemma CheckStep(s: State, a: Action)
    requires Stream(s) && Enabled(s, a) && (a.FindCloseSent? || a.FindNoCloseSent? || a.Refuse?)
    ensures Stream(Apply(s, a))
  {
    hide Stream, EncodeFrame;
    match a {
      case FindCloseSent(i) => OtherMoves(s, Apply(s, a), i, Leaving);
      case FindNoCloseSent(i) => OtherMoves(s, Apply(s, a), i, Clear);
      case Refuse(i) => OtherMoves(s, Apply(s, a), i, Leaving);
    }
  }

  // ---- Every run ----

  ghost predicate Inv(s: State) {
    Locking(s) && HandsOff(s) && Stream(s)
  }

  lemma {:induction false} InvRun(s: State, acts: seq<Action>)
    requires Inv(s) && IsRun(s, acts)
    ensures Inv(AfterAll(s, acts))
    decreases |acts|
  {
    hide Locking, HandsOff, Stream, Enabled, Apply;
    if acts != [] {
      LockingStep(s, acts[0]);
      StreamStep(s, acts[0]);
      InvRun(Apply(s, acts[0]), acts[1..]);
    }
  }

  lemma FreshInv(client: bool, capacity: nat)
    ensures Inv(Fresh(client, capacity))
  {
    hide EncodeFrame, UpToClose;
    assert UpToClose([]) <= [];
  }

  lemma {:induction false} ClientStays(s: State, acts: seq<Action>)
    requires IsRun(s, acts)
    ensures AfterAll(s, acts).client == s.client && AfterAll(s, acts).capacity == s.capacity
    decreases |acts|
  {
    hide Apply, Enabled;
    if acts != [] {
      ClientStays(Apply(s, acts[0]), acts[1..]);
    }
  }

  /**
   However many goroutines write, whatever fails, and whenever the connection is closed, as long as
   the write buffer belongs to this connection alone: the wire carries whole frames, one after the
   other in the order the lock was obtained, and the last one perhaps in part. A client never sends
   anything behind a close frame. A server does not either, unless a goroutine has left a close frame
   in the buffer because it saw the connection closing.
   */
  lemma WireSafe(client: bool, capacity: nat, acts: seq<Action>)
    requires IsRun(Fresh(client, capacity), acts)
    ensures
      var s := AfterAll(Fresh(client, capacity), acts);
      && s.wire <= EncodeFrames(s.begun)
      && (client || s.lost.None? ==> s.wire <= EncodeFrames(UpToClose(s.begun)))
  {
    hide Locking, HandsOff, Enabled, Apply;
    var s0 := Fresh(client, capacity);
    FreshInv(client, capacity);
    InvRun(s0, acts);
    ClientStays(s0, acts);
  }

  /**
   What the peer can make of the wire: the frames in order, at most one of them a close frame, and
   nothing behind it.
   */
  lemma PeerSees(client: bool, capacity: nat, acts: seq<Action>, k: nat)
    requires IsRun(Fresh(client, capacity), acts)
    requires client || AfterAll(Fresh(client, capacity), acts).lost.None?
    requires FirstFrames(AfterAll(Fresh(client, capacity), acts).wire, k).Some?
    ensures
      var s := AfterAll(Fresh(client, capacity), acts);
      var seen := FirstFrames(s.wire, k).value.frames;
      seen <= s.begun && CloseLast(seen)
  {
    hide Locking, HandsOff, Enabled, Apply, EncodeFrames, FirstFrames, Frame.Valid;
    var s0, s := Fresh(client, capacity), AfterAll(Fresh(client, capacity), acts);
    FreshInv(client, capacity);
    InvRun(s0, acts);
    WireSafe(client, capacity, acts);
    UpToCloseAll(s.begun);
    FramesOfPrefix(s.wire, UpToClose(s.begun), k);
  }
}
