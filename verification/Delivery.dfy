/** What has gone through writeFrame has reached the wire: the lower bound to what the wire carries. */
module Delivery {
  import opened Wrappers
  import opened Frame
  import opened FrameStream
  import opened Seqs
  import opened Writers
  import LostClose

  /** Wire, buffer and what is left to buffer are the frames begun. */
  ghost predicate NothingLost(s: State) {
    s.wire + s.buf + Todo(s) == EncodeFrames(s.begun)
  }

  /**
   The goroutine at work has not put anything into the buffer if an error sticks; and if something
   was lost before, because the sink is shut, it has not begun to or the buffer still holds it.
   Only final frames are flushed, and they have gone through when the buffer is empty.
   */
  ghost predicate Forward(s: State) {
    s.worker < |s.threads| ==>
      var t := s.threads[s.worker];
      Works(t.pc) ==>
        && (s.err ==> Left(t.pc) == EncodeFrame(t.f))
        && (!s.err ==> NothingLost(s) || (SinkShut(s) && (Left(t.pc) == EncodeFrame(t.f) || s.buf != [])))
        && (t.pc.Flushing? ==> t.f.h.fin) && (t.pc.Sent? && t.f.h.fin ==> s.buf == [])
  }

  /** A close frame that counts as sent is on the wire. */
  ghost predicate CloseOut(s: State) {
    s.closeSent ==>
      exists j: nat :: j < |s.begun| && IsClose(s.begun[j]) && (s.begun[j].h.fin ==> Reached(s, j + 1))
  }

  /** The first j frames begun are on the wire. */
  ghost predicate Reached(s: State, j: nat)
    requires j <= |s.begun|
  {
    EncodeFrames(s.begun[..j]) <= s.wire
  }

  lemma FrameNotEmpty(f: Frame)
    ensures EncodeFrame(f) != []
  {
  }

  /** While nothing is shut, nothing is lost. */
  lemma OpenLosesNothing(s: State)
    requires Stream(s) && !SinkShut(s)
    ensures NothingLost(s)
  {
    hide EncodeFrames, UpToClose, Todo;
  }

  lemma BeginForward(s: State, i: nat)
    requires Inv(s) && Enabled(s, Begin(i))
    ensures Forward(Apply(s, Begin(i)))
  {
    hide Stream, Locking, HandsOff, EncodeFrame, NothingLost, SinkShut;
    BeginStep(s, i);
    if !SinkShut(Apply(s, Begin(i))) {
      OpenLosesNothing(Apply(s, Begin(i)));
    }
    OnErrorShut(Apply(s, Begin(i)));
  }

  lemma OnErrorShut(s: State)
    ensures s.err ==> SinkShut(s)
  {
  }

  lemma PutForward(s: State, i: nat, n: nat)
    requires Stream(s) && Forward(s) && Enabled(s, Put(i, n))
    ensures Forward(Apply(s, Put(i, n)))
  {
    hide EncodeFrame, EncodeFrames, UpToClose, CloseLast, Frame.Valid;
    var todo := s.threads[i].pc.todo;
    AtWork(s, i);
    Split(todo, n);
    Assoc(s.buf, todo[..n], todo[n..]);
    Assoc(s.wire, s.buf + todo[..n], todo[n..]);
    Assoc(s.wire, s.buf, todo);
    if n == 0 {
      assert s.buf + todo[..n] == s.buf;
    }
  }

  lemma SpillForward(s: State, i: nat)
    requires Stream(s) && Forward(s) && Enabled(s, Spill(i))
    ensures Forward(Apply(s, Spill(i)))
  {
    hide EncodeFrame, EncodeFrames, Stream, SinkShut;
    OpenLosesNothing(s);
    OnErrorShut(s);
    assert s.wire + s.buf + [] == s.wire + s.buf;
    assert Todo(Apply(s, Spill(i))) == Todo(s);
  }

  lemma DirectForward(s: State, i: nat, n: nat)
    requires Stream(s) && Forward(s) && Enabled(s, Direct(i, n))
    ensures Forward(Apply(s, Direct(i, n)))
  {
    hide EncodeFrame, EncodeFrames, Stream, SinkShut;
    OpenLosesNothing(s);
    OnErrorShut(s);
    AtWork(s, i);
    var todo := s.threads[i].pc.todo;
    Split(todo, n);
    Assoc(s.wire, todo[..n], todo[n..]);
    assert s.wire + [] == s.wire && s.wire + todo[..n] + [] == s.wire + todo[..n];
  }

  /** A goroutine goes on, without new bytes; it gets past the payload and the flush only as it should. */
  lemma MoveForward(s: State, s2: State, i: nat, pc: PC)
    requires Forward(s) && i < |s.threads| && OnlyMoves(s, s2.(closeSent := s.closeSent), i, pc)
    requires Works(pc) ==>
      && Works(s.threads[i].pc) && Left(pc) == Left(s.threads[i].pc)
      && (pc.Flushing? ==> s.threads[i].f.h.fin) && (pc.Sent? && s.threads[i].f.h.fin ==> s.buf == [])
    ensures Forward(s2)
  {
    hide EncodeFrame, EncodeFrames;
  }

  /** The goroutine at work goes on past a look, or past the flush. */
  lemma LookForward(s: State, a: Action)
    requires Forward(s) && Enabled(s, a) && (a.Pause? || a.FindOpen? || a.SkipLook? || a.Flushed? || a.EndFrame?)
    ensures Forward(Apply(s, a))
  {
    hide EncodeFrame, Forward, SinkShut;
    match a {
      case Pause(i) => MoveForward(s, Apply(s, a), i, Looking(s.threads[i].pc.todo));
      case FindOpen(i) => MoveForward(s, Apply(s, a), i, AfterLook(s.threads[i]));
      case SkipLook(i) => MoveForward(s, Apply(s, a), i, AfterPayload(s.threads[i].f));
      case Flushed(i) => MoveForward(s, Apply(s, a), i, Sent);
      case EndFrame(i) => MoveForward(s, Apply(s, a), i, AfterFrame(s, i));
    }
  }

  /** A goroutine that gives its frame up is not at work any more, and no other one is. */
  lemma EndForward(s: State, a: Action)
    requires Stream(s) && Enabled(s, a) && (a.Fail? || a.FailDirect? || a.Stick? || a.Abandon?)
    ensures Forward(Apply(s, a))
  {
    hide Stream, EncodeFrame, Forward, SinkShut, IsClose;
    match a {
      case Fail(i, _) => GivesUp(s, Apply(s, a), i);
      case FailDirect(i, _) => GivesUp(s, Apply(s, a), i);
      case Stick(i) => GivesUp(s, Apply(s, a), i);
      case Abandon(i, _) => GivesUp(s, Apply(s, a), i);
    }
  }

  lemma GivesUp(s: State, s2: State, i: nat)
    requires Stream(s) && i < |s.threads| && Works(s.threads[i].pc) && s2.worker == s.worker
    requires s2.threads == s.threads[i := s.threads[i].(pc := Leaving)]
    ensures Forward(s2)
  {
    hide EncodeFrame, EncodeFrames, Accounted, Closed, WireInOrder, FramesValid;
  }

  lemma OuterForward(s: State, a: Action)
    requires Forward(s) && Enabled(s, a)
    requires a.StopWaiting? || a.Acquire? || a.FindClosed? || a.FindAlive? || a.UnlockEarly? || a.Unlock?
    ensures Forward(Apply(s, a))
  {
    hide EncodeFrame, Forward, SinkShut;
    match a {
      case StopWaiting(i) => MoveForward(s, Apply(s, a), i, Done);
      case Acquire(i) => MoveForward(s, Apply(s, a), i, Locked);
      case FindClosed(i) => MoveForward(s, Apply(s, a), i, Done);
      case FindAlive(i) => MoveForward(s, Apply(s, a), i, Checked);
      case UnlockEarly(i) => MoveForward(s, Apply(s, a), i, LeavingAgain);
      case Unlock(i) => MoveForward(s, Apply(s, a), i, Done);
    }
  }

  lemma CheckForward(s: State, a: Action)
    requires Forward(s) && Enabled(s, a) && (a.FindCloseSent? || a.FindNoCloseSent? || a.Refuse?)
    ensures Forward(Apply(s, a))
  {
    hide EncodeFrame, Forward, SinkShut;
    match a {
      case FindCloseSent(i) => MoveForward(s, Apply(s, a), i, Leaving);
      case FindNoCloseSent(i) => MoveForward(s, Apply(s, a), i, Clear);
      case Refuse(i) => MoveForward(s, Apply(s, a), i, Leaving);
    }
  }

  lemma OutsideForward(s: State, a: Action)
    requires Forward(s) && Enabled(s, a) && (a.Arrive? || a.ReceiveClose? || a.SetFlag? || a.CloseChannel?)
    ensures Forward(Apply(s, a))
  {
    hide EncodeFrame, EncodeFrames, Frame.Valid;
    if s.worker < |s.threads| {
      assert Apply(s, a).threads[s.worker] == s.threads[s.worker] && Todo(Apply(s, a)) == Todo(s);
    }
  }

  lemma ForwardStep(s: State, a: Action)
    requires Inv(s) && Forward(s) && Enabled(s, a)
    ensures Forward(Apply(s, a))
  {
    hide Locking, HandsOff, Stream, Forward, Enabled, Apply;
    match a {
      case Begin(i) => BeginForward(s, i);
      case Put(i, n) => PutForward(s, i, n);
      case Spill(i) => SpillForward(s, i);
      case Direct(i, n) => DirectForward(s, i, n);
      case Fail(_, _) => EndForward(s, a);
      case FailDirect(_, _) => EndForward(s, a);
      case Stick(_) => EndForward(s, a);
      case Abandon(_, _) => EndForward(s, a);
      case Pause(_) => LookForward(s, a);
      case FindOpen(_) => LookForward(s, a);
      case SkipLook(_) => LookForward(s, a);
      case Flushed(_) => LookForward(s, a);
      case EndFrame(_) => LookForward(s, a);
      case FindCloseSent(_) => CheckForward(s, a);
      case FindNoCloseSent(_) => CheckForward(s, a);
      case Refuse(_) => CheckForward(s, a);
      case Arrive(_) => OutsideForward(s, a);
      case ReceiveClose => OutsideForward(s, a);
      case SetFlag => OutsideForward(s, a);
      case CloseChannel => OutsideForward(s, a);
      case _ => OuterForward(s, a);
    }
  }

  /** A goroutine that has its final frame through finds all of the frames begun on the wire. */
  lemma ThroughIsOut(s: State, i: nat)
    requires Inv(s) && Forward(s) && At(s, i, Sent) && s.threads[i].f.h.fin
    ensures !s.err && s.buf == [] && s.wire == EncodeFrames(s.begun)
    ensures s.begun != [] && s.begun[|s.begun| - 1] == s.threads[i].f
  {
    hide EncodeFrame, EncodeFrames, UpToClose, Locking, HandsOff, Accounted, Closed, WireInOrder, FramesValid;
    FrameNotEmpty(s.threads[i].f);
    assert s.wire + [] + [] == s.wire;
  }

  // ---- Every run ----

  /** What is on the wire stays there, and so do the frames begun. */
  lemma WireGrows(s: State, a: Action)
    requires Enabled(s, a)
    ensures s.wire <= Apply(s, a).wire && s.begun <= Apply(s, a).begun && (a.Begin? || Apply(s, a).begun == s.begun)
    ensures !a.EndFrame? ==> Apply(s, a).closeSent == s.closeSent
  {
    hide Enabled, Apply;
    if a.Spill? || a.Direct? || a.Fail? || a.FailDirect? {
      BytesGrow(s, a);
    } else if a.Begin? || a.Put? || a.Stick? || a.Pause? || a.FindOpen? || a.SkipLook? || a.Abandon? || a.Flushed? {
      FramesGrow(s, a);
    } else if a.Arrive? || a.ReceiveClose? || a.SetFlag? || a.CloseChannel? {
      OutsideGrowsNothing(s, a);
    } else if a.EndFrame? {
      EndGrowsNothing(s, a.i);
    } else {
      NothingGrows(s, a);
    }
  }

  lemma BytesGrow(s: State, a: Action)
    requires Enabled(s, a) && (a.Spill? || a.Direct? || a.Fail? || a.FailDirect?)
    ensures s.wire <= Apply(s, a).wire && Apply(s, a).begun == s.begun && Apply(s, a).closeSent == s.closeSent
  {
    hide EncodeFrame;
  }

  lemma FramesGrow(s: State, a: Action)
    requires Enabled(s, a)
    requires a.Begin? || a.Put? || a.Stick? || a.Pause? || a.FindOpen? || a.SkipLook? || a.Abandon? || a.Flushed?
    ensures Apply(s, a).wire == s.wire && s.begun <= Apply(s, a).begun && (a.Begin? || Apply(s, a).begun == s.begun)
    ensures Apply(s, a).closeSent == s.closeSent
  {
    hide EncodeFrame, AfterLoss, AfterLook, AfterPayload;
  }

  lemma NothingGrows(s: State, a: Action)
    requires Enabled(s, a)
    requires || a.StopWaiting? || a.Acquire? || a.FindClosed? || a.FindAlive? || a.FindCloseSent? || a.FindNoCloseSent?
             || a.Refuse? || a.UnlockEarly? || a.Unlock?
    ensures Apply(s, a).wire == s.wire && Apply(s, a).begun == s.begun && Apply(s, a).closeSent == s.closeSent
  {
    hide EncodeFrame, EncodeFrames, UpToClose;
  }

  lemma OutsideGrowsNothing(s: State, a: Action)
    requires Enabled(s, a) && (a.Arrive? || a.ReceiveClose? || a.SetFlag? || a.CloseChannel?)
    ensures Apply(s, a).wire == s.wire && Apply(s, a).begun == s.begun && Apply(s, a).closeSent == s.closeSent
  {
    hide EncodeFrame, EncodeFrames, UpToClose;
  }

  lemma EndGrowsNothing(s: State, i: nat)
    requires Enabled(s, EndFrame(i))
    ensures Apply(s, EndFrame(i)).wire == s.wire && Apply(s, EndFrame(i)).begun == s.begun
  {
    hide EncodeFrame, EncodeFrames, UpToClose;
  }

  lemma ReachedStays(s: State, s2: State, j: nat)
    requires j <= |s.begun| && Reached(s, j) && s.wire <= s2.wire && s.begun <= s2.begun
    ensures Reached(s2, j)
  {
    hide EncodeFrames;
    assert s2.begun[..j] == s.begun[..j];
  }

  lemma CloseOutStays(s: State, s2: State)
    requires CloseOut(s) && s.wire <= s2.wire && s.begun <= s2.begun && s2.closeSent == s.closeSent
    ensures CloseOut(s2)
  {
    hide Reached;
    if s.closeSent {
      var j: nat :| j < |s.begun| && IsClose(s.begun[j]) && (s.begun[j].h.fin ==> Reached(s, j + 1));
      if s.begun[j].h.fin {
        ReachedStays(s, s2, j + 1);
      }
      assert IsClose(s2.begun[j]);
    }
  }

  lemma EndFrameOut(s: State, i: nat)
    requires Inv(s) && Forward(s) && CloseOut(s) && Enabled(s, EndFrame(i))
    ensures CloseOut(Apply(s, EndFrame(i)))
  {
    hide EncodeFrame, EncodeFrames, Locking, HandsOff, Forward, Accounted, Closed, WireInOrder, FramesValid, CloseOut;
    var s2 := Apply(s, EndFrame(i));
    if IsClose(s.threads[i].f) {
      var last := |s.begun| - 1;
      if s.threads[i].f.h.fin {
        ThroughIsOut(s, i);
        assert s.begun[..last + 1] == s.begun;
        assert Reached(s2, last + 1);
      }
      CloseIsOut(s2, last);
    } else {
      CloseOutStays(s, s2);
    }
  }

  lemma CloseIsOut(s: State, j: nat)
    requires j < |s.begun| && IsClose(s.begun[j]) && (s.begun[j].h.fin ==> Reached(s, j + 1))
    ensures CloseOut(s)
  {
    hide Reached;
  }

  lemma {:induction false} ForwardRun(s: State, acts: seq<Action>)
    requires Inv(s) && Forward(s) && CloseOut(s) && IsRun(s, acts)
    ensures
      var s2 := AfterAll(s, acts);
      Inv(s2) && Forward(s2) && CloseOut(s2) && s.wire <= s2.wire && s.begun <= s2.begun
    decreases |acts|
  {
    hide Locking, HandsOff, Stream, Forward, CloseOut, Enabled, Apply;
    if acts != [] {
      LockingStep(s, acts[0]);
      StreamStep(s, acts[0]);
      ForwardStep(s, acts[0]);
      WireGrows(s, acts[0]);
      if acts[0].EndFrame? {
        EndFrameOut(s, acts[0].i);
      } else {
        CloseOutStays(s, Apply(s, acts[0]));
      }
      ForwardRun(Apply(s, acts[0]), acts[1..]);
    }
  }

  lemma FreshForward(client: bool, capacity: nat)
    ensures Forward(Fresh(client, capacity)) && CloseOut(Fresh(client, capacity))
  {
  }

  /**
   In every run: when a goroutine has got its final frame through, that frame is the last one begun,
   nothing is left in the buffer, and all the frames begun are on the wire, where they stay whatever
   happens afterwards. Only final frames are flushed.
   */
  lemma Delivered(client: bool, capacity: nat, acts: seq<Action>, i: nat, more: seq<Action>)
    requires IsRun(Fresh(client, capacity), acts) && IsRun(AfterAll(Fresh(client, capacity), acts), more)
    requires i < |AfterAll(Fresh(client, capacity), acts).threads|
    ensures
      var s := AfterAll(Fresh(client, capacity), acts);
      var t := s.threads[i];
      && (t.pc.Flushing? ==> t.f.h.fin)
      && (t.pc.Sent? && t.f.h.fin ==>
            && s.begun != [] && s.begun[|s.begun| - 1] == t.f && s.buf == []
            && s.wire == EncodeFrames(s.begun) <= AfterAll(s, more).wire)
  {
    hide Locking, HandsOff, Accounted, Closed, WireInOrder, FramesValid, Enabled, Apply, EncodeFrames, EncodeFrame;
    var s0, s := Fresh(client, capacity), AfterAll(Fresh(client, capacity), acts);
    FreshInv(client, capacity);
    FreshForward(client, capacity);
    ForwardRun(s0, acts);
    ForwardRun(s, more);
    hide IsRun, AfterAll;
    if At(s, i, Sent) && s.threads[i].f.h.fin {
      ThroughIsOut(s, i);
    }
  }

  /** In every run: once a close frame counts as sent, a close frame is on the wire, if close frames are final. */
  lemma CloseDelivered(client: bool, capacity: nat, acts: seq<Action>)
    requires IsRun(Fresh(client, capacity), acts) && AfterAll(Fresh(client, capacity), acts).closeSent
    ensures
      var s := AfterAll(Fresh(client, capacity), acts);
      exists j: nat ::
        j < |s.begun| && IsClose(s.begun[j]) && (s.begun[j].h.fin ==> EncodeFrames(s.begun[..j + 1]) <= s.wire)
  {
    hide Locking, HandsOff, Stream, Forward, Enabled, Apply, EncodeFrames;
    FreshInv(client, capacity);
    FreshForward(client, capacity);
    ForwardRun(Fresh(client, capacity), acts);
    var s := AfterAll(Fresh(client, capacity), acts);
    var j: nat :| j < |s.begun| && IsClose(s.begun[j]) && (s.begun[j].h.fin ==> Reached(s, j + 1));
    assert IsClose(s.begun[j]);
  }

  // ---- And it does get through ----

  /** Nobody holds the lock, nothing has failed, and the connection is open. */
  predicate Quiet(s: State) {
    0 < s.capacity && |s.buf| <= s.capacity && !s.token && !s.closeSent && !s.closed && !s.flag && !s.err
  }

  /** Thread i is writing, and nothing is in its way. */
  predicate Busy(s: State, i: nat) {
    InWriting(s, i) && 0 < s.capacity && |s.buf| <= s.capacity && !s.flag && !s.err
  }

  /** What stays the same while thread i writes. */
  predicate SameBut(s: State, s2: State, i: nat) {
    && s2.client == s.client && s2.capacity == s.capacity && s2.token == s.token && s2.closeSent == s.closeSent
    && s2.closeReceived == s.closeReceived && s2.closed == s.closed && s2.flag == s.flag && s2.err == s.err
    && s2.begun == s.begun && i < |s.threads| == |s2.threads| && s2.threads[i].f == s.threads[i].f
  }

  /** With the payload in the buffer, the goroutine looks at the flag and goes on. */
  lemma LooksOn(s0: State, acts: seq<Action>, i: nat) returns (more: seq<Action>, s: State)
    requires IsRun(s0, acts) && Busy(AfterAll(s0, acts), i) && At(AfterAll(s0, acts), i, Writing([]))
    ensures IsRun(s0, more) && s == AfterAll(s0, more)
    ensures
      var s1 := AfterAll(s0, acts);
      SameBut(s1, s, i) && s.threads[i].pc == AfterPayload(s1.threads[i].f) && s.buf == s1.buf
  {
    hide IsRun, AfterAll;
    more, s := LostClose.Extend(s0, acts, Pause(i));
    more, s := LostClose.Extend(s0, more, FindOpen(i));
  }

  /** It fills the buffer, and spills it when it is full, until everything is in. */
  lemma {:induction false} FillsUp(s0: State, acts: seq<Action>, i: nat) returns (more: seq<Action>, s: State)
    requires IsRun(s0, acts) && Busy(AfterAll(s0, acts), i)
    ensures IsRun(s0, more) && s == AfterAll(s0, more) && Busy(s, i)
    ensures SameBut(AfterAll(s0, acts), s, i) && At(s, i, Writing([]))
    decreases |AfterAll(s0, acts).threads[i].pc.todo|
  {
    hide IsRun, AfterAll;
    var s1 := AfterAll(s0, acts);
    var todo := s1.threads[i].pc.todo;
    more, s := acts, s1;
    if todo != [] {
      if |s1.buf| == s1.capacity {
        more, s := LostClose.Extend(s0, more, Spill(i));
      }
      var room := s.capacity - |s.buf|;
      more, s := LostClose.Extend(s0, more, Put(i, if room < |todo| then room else |todo|));
      more, s := FillsUp(s0, more, i);
    }
  }

  /** A newcomer obtains the lock and begins its frame. */
  lemma StartsUp(s0: State, acts: seq<Action>, f: Frame) returns (more: seq<Action>, s: State)
    requires IsRun(s0, acts) && Quiet(AfterAll(s0, acts)) && f.Valid() && f.h.masked == AfterAll(s0, acts).client
    ensures IsRun(s0, more) && s == AfterAll(s0, more)
    ensures
      var s1 := AfterAll(s0, acts);
      && Busy(s, |s1.threads|) && s.threads[|s1.threads|].f == f && s.token && s.begun == s1.begun + [f]
      && !s.closeSent && !s.closed && s.closeReceived == s1.closeReceived && |s.threads| == |s1.threads| + 1
  {
    hide IsRun, AfterAll, EncodeFrame, Frame.Valid;
    var i := |AfterAll(s0, acts).threads|;
    more, s := LostClose.Extend(s0, acts, Arrive(f));
    more, s := LostClose.Extend(s0, more, Acquire(i));
    more, s := LostClose.Extend(s0, more, FindAlive(i));
    more, s := LostClose.Extend(s0, more, FindNoCloseSent(i));
    more, s := LostClose.Extend(s0, more, Begin(i));
  }

  /** A final frame is flushed. */
  lemma Flushes(s0: State, acts: seq<Action>, i: nat) returns (more: seq<Action>, s: State)
    requires IsRun(s0, acts) && At(AfterAll(s0, acts), i, Flushing)
    requires !AfterAll(s0, acts).flag && !AfterAll(s0, acts).err
    ensures IsRun(s0, more) && s == AfterAll(s0, more) && SameBut(AfterAll(s0, acts), s, i) && At(s, i, Sent)
  {
    hide IsRun, AfterAll;
    more, s := LostClose.Extend(s0, acts, Spill(i));
    more, s := LostClose.Extend(s0, more, Flushed(i));
  }

  /** Nothing has happened to the bytes, or to the frame of thread i. */
  predicate SameBytes(s: State, s2: State, i: nat) {
    && s2.begun == s.begun && s2.wire == s.wire && s2.buf == s.buf && s2.flag == s.flag && s2.err == s.err
    && i < |s.threads| && i < |s2.threads| && s2.threads[i].f == s.threads[i].f
  }

  /** The call ends, and a close frame counts as sent. */
  lemma EndsCall(s0: State, acts: seq<Action>, i: nat) returns (more: seq<Action>, s: State)
    requires IsRun(s0, acts) && At(AfterAll(s0, acts), i, Sent)
    ensures IsRun(s0, more) && s == AfterAll(s0, more) && SameBytes(AfterAll(s0, acts), s, i)
    ensures At(s, i, Leaving) || At(s, i, Closing)
    ensures s.closeSent == (AfterAll(s0, acts).closeSent || IsClose(AfterAll(s0, acts).threads[i].f))
  {
    hide IsRun, AfterAll;
    more, s := LostClose.Extend(s0, acts, EndFrame(i));
  }

  /** The lock is given back. */
  lemma Unlocks(s0: State, acts: seq<Action>, i: nat) returns (more: seq<Action>, s: State)
    requires IsRun(s0, acts) && (At(AfterAll(s0, acts), i, Leaving) || At(AfterAll(s0, acts), i, Closing))
    ensures IsRun(s0, more) && s == AfterAll(s0, more) && SameBytes(AfterAll(s0, acts), s, i)
    ensures At(s, i, Done) && !s.token && s.closeSent == AfterAll(s0, acts).closeSent
  {
    hide IsRun, AfterAll;
    more, s := acts, AfterAll(s0, acts);
    if s.threads[i].pc.Closing? {
      more, s := LostClose.Extend(s0, more, UnlockEarly(i));
    }
    more, s := LostClose.Extend(s0, more, Unlock(i));
  }

  /** Everything but the end of the call. */
  lemma GetsThrough(s0: State, acts: seq<Action>, f: Frame) returns (more: seq<Action>, s: State)
    requires IsRun(s0, acts) && Quiet(AfterAll(s0, acts)) && f.Valid() && f.h.masked == AfterAll(s0, acts).client
    ensures IsRun(s0, more) && s == AfterAll(s0, more)
    ensures
      var s1 := AfterAll(s0, acts);
      && At(s, |s1.threads|, Sent) && s.threads[|s1.threads|].f == f && s.begun == s1.begun + [f]
      && !s.closeSent && !s.closed && !s.flag && !s.err && |s.threads| == |s1.threads| + 1
  {
    hide IsRun, AfterAll, Frame.Valid, Quiet;
    var i := |AfterAll(s0, acts).threads|;
    more, s := StartsUp(s0, acts, f);
    more, s := FillsUp(s0, more, i);
    more, s := LooksOn(s0, more, i);
    if f.h.fin {
      more, s := Flushes(s0, more, i);
    }
  }

  /**
   From every point of a run at which nobody holds the lock, nothing has failed and the connection is
   open, a goroutine can write any frame: the call succeeds, the lock is free again, a close frame
   counts as sent, and a final frame is on the wire behind all those begun before it.
   */
  lemma CanBeSent(client: bool, capacity: nat, acts: seq<Action>, f: Frame) returns (more: seq<Action>)
    requires IsRun(Fresh(client, capacity), acts) && f.Valid() && f.h.masked == client
    requires Quiet(AfterAll(Fresh(client, capacity), acts))
    ensures IsRun(Fresh(client, capacity), more)
    ensures
      var s1, s := AfterAll(Fresh(client, capacity), acts), AfterAll(Fresh(client, capacity), more);
      && At(s, |s1.threads|, Done) && s.threads[|s1.threads|].f == f && s.begun == s1.begun + [f]
      && !s.token && !s.flag && !s.err && s.closeSent == IsClose(f)
      && (f.h.fin ==> s.buf == [] && s.wire == EncodeFrames(s.begun))
  {
    var s0 := Fresh(client, capacity);
    ClientStays(s0, acts);
    FreshInv(client, capacity);
    FreshForward(client, capacity);
    hide *;
    var i := |AfterAll(s0, acts).threads|;
    var s;
    more, s := GetsThrough(s0, acts, f);
    ForwardRun(s0, more);
    if f.h.fin {
      ThroughIsOut(s, i);
    }
    var s1, s2 := s, s;
    more, s := EndsCall(s0, more, i);
    StillOut(s1, s, i);
    s2 := s;
    more, s := Unlocks(s0, more, i);
    StillOut(s2, s, i);
  }

  lemma StillOut(s: State, s2: State, i: nat)
    requires SameBytes(s, s2, i)
    ensures s2.begun == s.begun && s2.wire == s.wire && s2.buf == s.buf && s2.flag == s.flag && s2.err == s.err
    ensures i < |s.threads| && i < |s2.threads| && s2.threads[i].f == s.threads[i].f
  {
  }
}
