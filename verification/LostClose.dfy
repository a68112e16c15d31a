/** When a server sends something behind a close frame (RFC 6455, section 5.5.1). */
module LostClose {
  import opened Wrappers
  import opened Frame
  import opened Seqs
  import opened Writers

  ghost predicate HasClose(fs: seq<Frame>) {
    exists j :: 0 <= j < |fs| && IsClose(fs[j])
  }

  /** Frames behind a close frame do not change which frames are up to it. */
  lemma {:induction false} UpToCloseStays(fs: seq<Frame>, f: Frame)
    requires HasClose(fs)
    ensures UpToClose(fs + [f]) == UpToClose(fs) && HasClose(fs + [f])
  {
    var j :| 0 <= j < |fs| && IsClose(fs[j]);
    assert IsClose((fs + [f])[j]);
    assert (fs + [f])[1..] == fs[1..] + [f];
    if !IsClose(fs[0]) {
      assert IsClose(fs[1..][j - 1]);
      UpToCloseStays(fs[1..], f);
    }
  }

  function Total(s: State): nat {
    |EncodeFrames(s.begun)|
  }

  /**
   How many bytes can follow a close frame that was left in the buffer before the buffer spills
   past it: what is free behind the frame, or a whole buffer if the frame filled it exactly.
   */
  function Room(s: State): nat
    requires s.lost.Some?
  {
    var l := s.lost.value;
    if l.end < l.start + s.capacity then l.start + s.capacity - l.end else s.capacity
  }

  /** Where the wire stands after a close frame was left in the buffer. */
  ghost predicate Stuck(s: State)
    requires s.lost.Some?
  {
    var l := s.lost.value;
    && l.start <= l.end <= l.start + s.capacity
    && (|s.wire| > l.end ==> Total(s) > l.end + Room(s))
    && (!s.err ==>
          && |s.wire| + |s.buf| >= l.end
          && (|s.wire| == l.start || (|s.wire| == l.end && l.end == l.start + s.capacity) || |s.wire| > l.end))
  }

  /** From a lost close frame on, every server goroutine finds the flag set and flushes nothing of its own accord. */
  ghost predicate Flagged(s: State)
    requires s.lost.Some?
  {
    && s.flag && !s.client && HasClose(s.begun)
    && s.lost.value.end == |EncodeFrames(UpToClose(s.begun))|
    && forall i :: 0 <= i < |s.threads| ==> !s.threads[i].pc.Flushing? && !s.threads[i].pc.Sent?
  }

  ghost predicate LossInv(s: State) {
    && 0 < s.capacity && (!s.client ==> |s.buf| <= s.capacity)
    && (s.lost.Some? ==> Flagged(s) && Stuck(s))
  }

  /** The bytes of the frames begun are on the wire, in the buffer, or still to be buffered. */
  lemma TotalIs(s: State)
    requires Stream(s) && !SinkShut(s)
    ensures Total(s) == |s.wire| + |s.buf| + |Todo(s)|
  {
    hide EncodeFrames, Todo, SinkShut, UpToClose;
  }

  lemma BeginKeeps(s: State, i: nat)
    requires LossInv(s) && Enabled(s, Begin(i))
    ensures LossInv(Apply(s, Begin(i)))
  {
    hide EncodeFrame, EncodeFrames, UpToClose, HasClose, Frame.Valid;
    EncodeFramesSnoc(s.begun, s.threads[i].f);
    if s.lost.Some? {
      UpToCloseStays(s.begun, s.threads[i].f);
    }
  }

  lemma PutKeeps(s: State, i: nat, n: nat)
    requires LossInv(s) && Enabled(s, Put(i, n))
    ensures LossInv(Apply(s, Put(i, n)))
  {
    hide EncodeFrame, EncodeFrames, UpToClose, HasClose, Frame.Valid;
  }

  /** A full buffer spills only when there is more to buffer. */
  lemma SpillKeeps(s: State, i: nat)
    requires Stream(s) && LossInv(s) && Enabled(s, Spill(i))
    ensures LossInv(Apply(s, Spill(i)))
  {
    hide EncodeFrame, EncodeFrames, UpToClose, HasClose, Frame.Valid, Accounted, Closed, WireInOrder, FramesValid;
    TotalIs(s);
  }

  lemma DirectKeeps(s: State, i: nat, n: nat)
    requires Stream(s) && LossInv(s) && Enabled(s, Direct(i, n))
    ensures LossInv(Apply(s, Direct(i, n)))
  {
    hide EncodeFrame, EncodeFrames, UpToClose, HasClose, Frame.Valid, Accounted, Closed, WireInOrder, FramesValid;
    TotalIs(s);
  }

  lemma FailKeeps(s: State, i: nat, n: nat)
    requires Stream(s) && LossInv(s) && Enabled(s, Fail(i, n))
    ensures LossInv(Apply(s, Fail(i, n)))
  {
    hide EncodeFrame, EncodeFrames, UpToClose, HasClose, Frame.Valid, Accounted, Closed, WireInOrder, FramesValid;
    if !SinkShut(s) {
      TotalIs(s);
    }
  }

  lemma FailDirectKeeps(s: State, i: nat, n: nat)
    requires Stream(s) && LossInv(s) && Enabled(s, FailDirect(i, n))
    ensures LossInv(Apply(s, FailDirect(i, n)))
  {
    hide EncodeFrame, EncodeFrames, UpToClose, HasClose, Frame.Valid, Accounted, Closed, WireInOrder, FramesValid;
    if !SinkShut(s) {
      TotalIs(s);
    }
  }

  /** The goroutine that leaves the close frame is the only one at work. */
  lemma AbandonKeeps(s: State, i: nat, junk: seq<bv8>)
    requires Stream(s) && LossInv(s) && Enabled(s, Abandon(i, junk))
    ensures LossInv(Apply(s, Abandon(i, junk)))
  {
    hide EncodeFrame, EncodeFrames, UpToClose, Frame.Valid, WireInOrder, FramesValid;
    if s.lost.None? && !s.client && !s.err && IsClose(s.threads[i].f) {
      TotalIs(s);
      UpToCloseAll(s.begun);
      assert IsClose(s.begun[|s.begun| - 1]);
    }
  }

  /** A step that leaves the bytes alone and takes nobody past the look at the flag. */
  lemma QuietKeeps(s: State, s2: State)
    requires LossInv(s) && s2.lost == s.lost && s2.wire == s.wire && s2.buf == s.buf && s2.begun == s.begun
    requires s2.capacity == s.capacity && s2.client == s.client && s2.err == s.err && (s.flag ==> s2.flag)
    requires s.lost.Some? ==>
      forall i :: 0 <= i < |s2.threads| ==> !s2.threads[i].pc.Flushing? && !s2.threads[i].pc.Sent?
    ensures LossInv(s2)
  {
    hide EncodeFrames, UpToClose, HasClose;
  }

  lemma MoveKeeps(s: State, s2: State, i: nat, pc: PC)
    requires LossInv(s) && i < |s.threads| && OnlyMoves(s, s2, i, pc) && s2.capacity == s.capacity
    requires !pc.Flushing? && !pc.Sent?
    ensures LossInv(s2)
  {
    hide EncodeFrames, UpToClose, HasClose, Stuck;
    QuietKeeps(s, s2);
  }

  /** Steps around the lock. */
  lemma LockKeeps(s: State, a: Action)
    requires LossInv(s) && Enabled(s, a)
    requires a.StopWaiting? || a.Acquire? || a.FindClosed? || a.FindAlive? || a.UnlockEarly? || a.Unlock?
    ensures LossInv(Apply(s, a))
  {
    hide EncodeFrame, LossInv;
    match a {
      case StopWaiting(i) => MoveKeeps(s, Apply(s, a), i, Done);
      case Acquire(i) => MoveKeeps(s, Apply(s, a), i, Locked);
      case FindClosed(i) => MoveKeeps(s, Apply(s, a), i, Done);
      case FindAlive(i) => MoveKeeps(s, Apply(s, a), i, Checked);
      case UnlockEarly(i) => MoveKeeps(s, Apply(s, a), i, LeavingAgain);
      case Unlock(i) => MoveKeeps(s, Apply(s, a), i, Done);
    }
  }

  /** Steps before the first byte of a frame. */
  lemma CheckKeeps(s: State, a: Action)
    requires LossInv(s) && Enabled(s, a) && (a.FindCloseSent? || a.FindNoCloseSent? || a.Refuse?)
    ensures LossInv(Apply(s, a))
  {
    hide EncodeFrame, LossInv;
    match a {
      case FindCloseSent(i) => MoveKeeps(s, Apply(s, a), i, Leaving);
      case FindNoCloseSent(i) => MoveKeeps(s, Apply(s, a), i, Clear);
      case Refuse(i) => MoveKeeps(s, Apply(s, a), i, Leaving);
    }
  }

  /** Steps of a goroutine at work that move no bytes. */
  lemma WorkKeeps(s: State, a: Action)
    requires LossInv(s) && Enabled(s, a)
    requires a.Stick? || a.Pause? || a.FindOpen? || a.SkipLook? || a.Flushed? || a.EndFrame?
    ensures LossInv(Apply(s, a))
  {
    hide EncodeFrame, EncodeFrames, UpToClose, HasClose, Frame.Valid, Stuck;
    QuietKeeps(s, Apply(s, a));
  }

  /** Steps from outside. */
  lemma OutsideKeeps(s: State, a: Action)
    requires LossInv(s) && Enabled(s, a) && (a.Arrive? || a.ReceiveClose? || a.SetFlag? || a.CloseChannel?)
    ensures LossInv(Apply(s, a))
  {
    hide EncodeFrame, EncodeFrames, UpToClose, HasClose, Frame.Valid, Stuck;
    QuietKeeps(s, Apply(s, a));
  }

  lemma LossStep(s: State, a: Action)
    requires Stream(s) && LossInv(s) && Enabled(s, a)
    ensures LossInv(Apply(s, a))
  {
    hide LossInv, Stream, Enabled, Apply;
    match a {
      case Begin(i) => BeginKeeps(s, i);
      case Put(i, n) => PutKeeps(s, i, n);
      case Spill(i) => SpillKeeps(s, i);
      case Direct(i, n) => DirectKeeps(s, i, n);
      case Fail(i, n) => FailKeeps(s, i, n);
      case FailDirect(i, n) => FailDirectKeeps(s, i, n);
      case Abandon(i, junk) => AbandonKeeps(s, i, junk);
      case Arrive(_) => OutsideKeeps(s, a);
      case Stick(_) => WorkKeeps(s, a);
      case Pause(_) => WorkKeeps(s, a);
      case FindOpen(_) => WorkKeeps(s, a);
      case SkipLook(_) => WorkKeeps(s, a);
      case Flushed(_) => WorkKeeps(s, a);
      case EndFrame(_) => WorkKeeps(s, a);
      case ReceiveClose => OutsideKeeps(s, a);
      case SetFlag => OutsideKeeps(s, a);
      case CloseChannel => OutsideKeeps(s, a);
      case FindCloseSent(_) => CheckKeeps(s, a);
      case FindNoCloseSent(_) => CheckKeeps(s, a);
      case Refuse(_) => CheckKeeps(s, a);
      case _ => LockKeeps(s, a);
    }
  }

  /** Once lost, the close frame stays lost, and the frames up to it stay the same. */
  lemma LossStays(s: State, a: Action)
    requires LossInv(s) && Enabled(s, a) && s.lost.Some?
    ensures Apply(s, a).lost == s.lost && UpToClose(Apply(s, a).begun) == UpToClose(s.begun)
  {
    hide LossInv, HasClose, EncodeFrame, UpToClose, Goto;
    if a.Begin? {
      LostMeansClose(s);
      UpToCloseStays(s.begun, s.threads[a.i].f);
    }
  }

  lemma LostMeansClose(s: State)
    requires LossInv(s) && s.lost.Some?
    ensures HasClose(s.begun)
  {
  }

  lemma {:induction false} LossRun(s: State, acts: seq<Action>)
    requires Inv(s) && LossInv(s) && IsRun(s, acts)
    ensures
      var s2 := AfterAll(s, acts);
      && Inv(s2) && LossInv(s2)
      && (s.lost.Some? ==> s2.lost == s.lost && UpToClose(s2.begun) == UpToClose(s.begun))
    decreases |acts|
  {
    hide Locking, HandsOff, Stream, LossInv, Enabled, Apply, UpToClose;
    if acts != [] {
      LockingStep(s, acts[0]);
      StreamStep(s, acts[0]);
      LossStep(s, acts[0]);
      if s.lost.Some? {
        LossStays(s, acts[0]);
      }
      LossRun(Apply(s, acts[0]), acts[1..]);
    }
  }

  /** Something behind the first close frame is on the wire. */
  ghost predicate Passed(s: State) {
    !(s.wire <= EncodeFrames(UpToClose(s.begun)))
  }

  lemma PassedIsLonger(s: State)
    requires Inv(s) && LossInv(s) && s.lost.Some?
    ensures Passed(s) <==> |s.wire| > s.lost.value.end
  {
    hide EncodeFrames, UpToClose, Stuck, Locking, HandsOff;
    EncodePrefix(UpToClose(s.begun), s.begun);
  }

  /**
   In every run of a server: something behind a close frame reaches the wire only if a goroutine has
   left a close frame in the buffer because it saw the connection closing, and the frames begun
   after it have more bytes than there was room for.
   */
  lemma PassesOnlyOutOfRoom(capacity: nat, acts: seq<Action>)
    requires 0 < capacity && IsRun(Fresh(false, capacity), acts) && Passed(AfterAll(Fresh(false, capacity), acts))
    ensures
      var s := AfterAll(Fresh(false, capacity), acts);
      s.lost.Some? && Total(s) > s.lost.value.end + Room(s)
  {
    hide Locking, HandsOff, Enabled, Apply, EncodeFrames, UpToClose;
    FreshInv(false, capacity);
    LossRun(Fresh(false, capacity), acts);
    WireSafe(false, capacity, acts);
    PassedIsLonger(AfterAll(Fresh(false, capacity), acts));
  }

  // ---- And then it can ----

  lemma {:induction false} OneMoreAction(s: State, acts: seq<Action>, a: Action)
    requires IsRun(s, acts) && Enabled(AfterAll(s, acts), a)
    ensures IsRun(s, acts + [a]) && AfterAll(s, acts + [a]) == Apply(AfterAll(s, acts), a)
    decreases |acts|
  {
    hide Apply, Enabled;
    if acts == [] {
      assert acts + [a] == [a] && [a][1..] == [];
      assert IsRun(Apply(s, a), []);
    } else {
      OneMoreAction(Apply(s, acts[0]), acts[1..], a);
      assert (acts + [a])[1..] == acts[1..] + [a];
    }
  }

  lemma Extend(s: State, acts: seq<Action>, a: Action) returns (more: seq<Action>, s2: State)
    requires IsRun(s, acts) && Enabled(AfterAll(s, acts), a)
    ensures IsRun(s, more) && s2 == AfterAll(s, more) && s2 == Apply(AfterAll(s, acts), a)
  {
    OneMoreAction(s, acts, a);
    more, s2 := acts + [a], Apply(AfterAll(s, acts), a);
  }

  lemma RunOfNothing(s: State)
    ensures IsRun(s, []) && AfterAll(s, []) == s
  {
  }

  /** Nobody holds the lock, nothing has failed, and the connection is not closed yet. */
  predicate AtRest(s: State) {
    !s.client && !s.token && !s.closeSent && !s.closed && !s.err
  }

  /** A newcomer obtains the lock and begins its frame. */
  lemma Begins(s0: State, acts: seq<Action>, f: Frame) returns (more: seq<Action>, s: State)
    requires IsRun(s0, acts) && AtRest(AfterAll(s0, acts)) && f.Valid() && !f.h.masked
    ensures IsRun(s0, more) && s == AfterAll(s0, more)
    ensures
      var s1 := AfterAll(s0, acts);
      s == s1.(threads := s1.threads + [Thread(f, Writing(EncodeFrame(f)))], token := true,
               begun := s1.begun + [f], worker := |s1.threads|)
  {
    hide EncodeFrame, IsRun, AfterAll, Frame.Valid;
    var i := |AfterAll(s0, acts).threads|;
    more, s := Extend(s0, acts, Arrive(f));
    more, s := Extend(s0, more, Acquire(i));
    more, s := Extend(s0, more, FindAlive(i));
    more, s := Extend(s0, more, FindNoCloseSent(i));
    more, s := Extend(s0, more, Begin(i));
  }

  /** A server's thread whose rest does not fit the buffer fills it and spills it. */
  lemma Spills(s0: State, acts: seq<Action>, i: nat) returns (more: seq<Action>, s: State)
    requires IsRun(s0, acts) && InWriting(AfterAll(s0, acts), i)
    requires
      var s1 := AfterAll(s0, acts);
      !s1.client && !s1.err && |s1.buf| <= s1.capacity && |s1.buf| + |s1.threads[i].pc.todo| > s1.capacity
    ensures IsRun(s0, more) && s == AfterAll(s0, more)
    ensures
      var s1 := AfterAll(s0, acts);
      var n := s1.capacity - |s1.buf|;
      && |s.wire| == |s1.wire| + s1.capacity && s.buf == [] && s.begun == s1.begun && InWriting(s, i)
      && s.threads[i].pc.todo == s1.threads[i].pc.todo[n..]
      && !s.client && !s.err && s.capacity == s1.capacity && s.lost == s1.lost
  {
    hide IsRun, AfterAll;
    var s1 := AfterAll(s0, acts);
    more, s := Extend(s0, acts, Put(i, s1.capacity - |s1.buf|));
    more, s := Extend(s0, more, Spill(i));
  }

  /** Frame g begun, the buffer filled up with it and spilled. */
  lemma FillsOnce(s: State, g: Frame) returns (more: seq<Action>, s1: State)
    requires AtRest(s) && g.Valid() && !g.h.masked && |s.buf| <= s.capacity < |s.buf| + |EncodeFrame(g)|
    ensures IsRun(s, more) && s1 == AfterAll(s, more) && s1.begun == s.begun + [g] && s1.lost == s.lost
    ensures |s1.wire| == |s.wire| + s.capacity && s1.buf == [] && s1.capacity == s.capacity && !s1.client && !s1.err
    ensures InWriting(s1, |s.threads|)
    ensures |s1.threads[|s.threads|].pc.todo| == |EncodeFrame(g)| - (s.capacity - |s.buf|)
  {
    hide EncodeFrame, IsRun, AfterAll, Frame.Valid, Enabled, Apply;
    RunOfNothing(s);
    more, s1 := Begins(s, [], g);
    more, s1 := Spills(s, more, |s.threads|);
  }

  /** How much it takes to get past the close frame: two full buffers at most. */
  lemma Distance(s: State, e: nat)
    requires Inv(s) && LossInv(s) && AtRest(s) && Idle(s) && s.lost.Some? && !Passed(s)
    requires Total(s) + e > s.lost.value.end + Room(s)
    ensures |s.buf| <= s.capacity < |s.buf| + e
    ensures |s.wire| + s.capacity <= s.lost.value.end ==> e - (s.capacity - |s.buf|) > s.capacity
    ensures |s.wire| + s.capacity + s.capacity > s.lost.value.end
  {
    hide EncodeFrames, UpToClose, Locking, HandsOff, Stream, Flagged, Passed;
    TotalIs(s);
    PassedIsLonger(s);
  }

  /** With frame g begun and more bytes behind the close frame than room for, the wire gets past the close frame. */
  lemma GetsPast(s: State, g: Frame) returns (more: seq<Action>)
    requires Inv(s) && LossInv(s) && AtRest(s) && Idle(s) && s.lost.Some? && !Passed(s)
    requires g.Valid() && !g.h.masked && Total(s) + |EncodeFrame(g)| > s.lost.value.end + Room(s)
    ensures IsRun(s, more) && AfterAll(s, more).begun == s.begun + [g] && |AfterAll(s, more).wire| > s.lost.value.end
    ensures AfterAll(s, more).lost == s.lost
  {
    hide *;
    Distance(s, |EncodeFrame(g)|);
    var s1;
    more, s1 := FillsOnce(s, g);
    if |s1.wire| <= s.lost.value.end {
      more, s1 := Spills(s, more, |s.threads|);
    }
  }

  /**
   From any point of a server's run at which a close frame has been left in the buffer, nobody is
   writing and the connection can still be written to: a goroutine with frame g can bring something
   behind the close frame onto the wire exactly when that many bytes do not fit behind it.
   */
  lemma PassesExactlyOutOfRoom(capacity: nat, acts: seq<Action>, g: Frame)
    requires 0 < capacity && IsRun(Fresh(false, capacity), acts) && g.Valid() && !g.h.masked
    requires
      var s := AfterAll(Fresh(false, capacity), acts);
      AtRest(s) && Idle(s) && s.lost.Some? && !Passed(s)
    ensures
      var s := AfterAll(Fresh(false, capacity), acts);
      (exists more :: IsRun(s, more) && AfterAll(s, more).begun == s.begun + [g] && Passed(AfterAll(s, more)))
      <==> Total(s) + |EncodeFrame(g)| > s.lost.value.end + Room(s)
  {
    hide EncodeFrame, EncodeFrames, UpToClose, IsRun, AfterAll, Frame.Valid, Locking, HandsOff, Enabled;
    hide Apply, Stream, Stuck, Flagged, Passed;
    var s := AfterAll(Fresh(false, capacity), acts);
    FreshInv(false, capacity);
    FreshLossInv(capacity);
    LossRun(Fresh(false, capacity), acts);
    EncodeFramesSnoc(s.begun, g);
    if Total(s) + |EncodeFrame(g)| > s.lost.value.end + Room(s) {
      var more := GetsPast(s, g);
      LossRun(s, more);
      PassedIsLonger(AfterAll(s, more));
    }
    forall more | IsRun(s, more) && AfterAll(s, more).begun == s.begun + [g] && Passed(AfterAll(s, more))
      ensures Total(s) + |EncodeFrame(g)| > s.lost.value.end + Room(s)
    {
      LossRun(s, more);
      ClientStays(s, more);
      PassedIsLonger(AfterAll(s, more));
      OutOfRoom(AfterAll(s, more));
    }
  }

  lemma FreshLossInv(capacity: nat)
    requires 0 < capacity
    ensures LossInv(Fresh(false, capacity))
  {
  }

  lemma OutOfRoom(s: State)
    requires LossInv(s) && s.lost.Some? && |s.wire| > s.lost.value.end
    ensures Total(s) > s.lost.value.end + Room(s)
  {
  }

  /**
   The states above exist: a goroutine sees the closing flag and leaves a close frame that fits the
   buffer in it. Behind it, a frame passes exactly when both together do not fit, or, if the close
   frame fills the buffer, when it does not fit by itself.
   */
  lemma LeavesClose(capacity: nat, f: Frame, g: Frame) returns (acts: seq<Action>)
    requires f.Valid() && IsClose(f) && !f.h.masked && |EncodeFrame(f)| <= capacity && g.Valid() && !g.h.masked
    ensures IsRun(Fresh(false, capacity), acts)
    ensures
      var s := AfterAll(Fresh(false, capacity), acts);
      && AtRest(s) && Idle(s) && s.lost == Some(Lost(0, |EncodeFrame(f)|)) && !Passed(s) && s.begun == [f]
      && ((exists more :: IsRun(s, more) && AfterAll(s, more).begun == [f] + [g] && Passed(AfterAll(s, more)))
          <==> |EncodeFrame(g)| > if |EncodeFrame(f)| < capacity then capacity - |EncodeFrame(f)| else capacity)
  {
    hide EncodeFrame, IsRun, AfterAll, Frame.Valid, Passed, AtRest, Idle, Total, Room;
    var s;
    acts, s := Leaves(capacity, f);
    NothingPassed(s);
    OneFrame(f);
    RoomBehind(s, f);
    PassesExactlyOutOfRoom(capacity, acts, g);
  }

  lemma RoomBehind(s: State, f: Frame)
    requires s.lost == Some(Lost(0, |EncodeFrame(f)|)) && s.begun == [f] && EncodeFrames([f]) == EncodeFrame(f)
    ensures Total(s) == s.lost.value.end
    ensures Room(s) == if |EncodeFrame(f)| < s.capacity then s.capacity - |EncodeFrame(f)| else s.capacity
  {
    hide EncodeFrame, EncodeFrames;
  }

  lemma Leaves(capacity: nat, f: Frame) returns (acts: seq<Action>, s: State)
    requires f.Valid() && IsClose(f) && !f.h.masked && |EncodeFrame(f)| <= capacity
    ensures IsRun(Fresh(false, capacity), acts) && s == AfterAll(Fresh(false, capacity), acts)
    ensures AtRest(s) && Idle(s) && s.lost == Some(Lost(0, |EncodeFrame(f)|)) && s.wire == [] && s.begun == [f]
    ensures s.capacity == capacity
  {
    hide EncodeFrame, IsRun, AfterAll, Frame.Valid, Passed;
    var s0 := Fresh(false, capacity);
    assert IsRun(s0, []) && AfterAll(s0, []) == s0 by { RunOfNothing(s0); }
    acts, s := Begins(s0, [], f);
    assert [] + [f] == [f];
    acts, s := PutsAll(s0, acts, 0);
    acts, s := Abandons(s0, acts, 0);
  }

  /** The whole rest of a frame fits the buffer. */
  lemma PutsAll(s0: State, acts: seq<Action>, i: nat) returns (more: seq<Action>, s: State)
    requires IsRun(s0, acts) && InWriting(AfterAll(s0, acts), i)
    requires
      var s1 := AfterAll(s0, acts);
      !s1.err && |s1.buf| + |s1.threads[i].pc.todo| <= s1.capacity
    ensures IsRun(s0, more) && s == AfterAll(s0, more)
    ensures
      var s1 := AfterAll(s0, acts);
      s == Goto(s1, i, Writing([])).(buf := s1.buf + s1.threads[i].pc.todo)
  {
    hide IsRun, AfterAll;
    var whole := AfterAll(s0, acts).threads[i].pc.todo;
    more, s := Extend(s0, acts, Put(i, |whole|));
    assert whole[..|whole|] == whole && whole[|whole|..] == [];
  }

  /** A server's thread with its whole frame in the buffer gives up because of the closing flag. */
  lemma Abandons(s0: State, acts: seq<Action>, i: nat) returns (more: seq<Action>, s: State)
    requires IsRun(s0, acts) && At(AfterAll(s0, acts), i, Writing([])) && !AfterAll(s0, acts).client
    ensures
      var s1 := AfterAll(s0, acts);
      && IsRun(s0, more) && s == AfterAll(s0, more)
      && s == Goto(s1, i, Done).(token := false, flag := true, lost := AfterLoss(s1, s1.threads[i].f))
  {
    hide IsRun, AfterAll, IsClose;
    var s1, s2 := AfterAll(s0, acts), AfterAll(s0, acts);
    more, s2 := AboutToLook(s0, acts, i);
    assert AfterLoss(s2, s1.threads[i].f) == AfterLoss(s1, s1.threads[i].f);
    hide AfterLoss;
    more, s := Extend(s0, more, Abandon(i, []));
    more, s := Extend(s0, more, Unlock(i));
  }

  /** Just before it looks at the flag, another goroutine sets it. */
  lemma AboutToLook(s0: State, acts: seq<Action>, i: nat) returns (more: seq<Action>, s: State)
    requires IsRun(s0, acts) && At(AfterAll(s0, acts), i, Writing([]))
    ensures IsRun(s0, more) && s == AfterAll(s0, more) && s == Goto(AfterAll(s0, acts), i, Looking([])).(flag := true)
  {
    hide IsRun, AfterAll;
    more, s := Extend(s0, acts, Pause(i));
    more, s := Extend(s0, more, SetFlag);
  }

  lemma NothingPassed(s: State)
    requires s.wire == []
    ensures !Passed(s)
  {
  }

  lemma OneFrame(f: Frame)
    ensures EncodeFrames([f]) == EncodeFrame(f) && |EncodeFrame(f)| > 0
  {
    assert [f][1..] == [] && EncodeFrames([]) == [];
  }
}
