/** Nobody hangs in writeFrame: whoever holds the lock can go on, and a lock that is taken is held by somebody. */
module Progress {
  import opened Wrappers
  import opened Frame
  import opened Writers
  import Delivery
  import LostClose

  /** The lock's token is out only as long as somebody is between obtaining it and giving it back. */
  ghost predicate HeldByOne(s: State) {
    s.token ==> exists i :: 0 <= i < |s.threads| && Holds(s.threads[i].pc)
  }

  /** A server looks at the flag with everything buffered only. */
  ghost predicate LooksLate(s: State) {
    !s.client ==> forall i :: 0 <= i < |s.threads| && s.threads[i].pc.Looking? ==> s.threads[i].pc.todo == []
  }

  ghost predicate Orderly(s: State) {
    HeldByOne(s) && LooksLate(s)
  }

  /** A goroutine goes on and keeps the lock if it had it, or gives the token back. */
  lemma Keeps(s: State, s2: State, i: nat, pc: PC)
    requires Orderly(s) && i < |s.threads| && s2.threads == s.threads[i := s.threads[i].(pc := pc)]
    requires s2.client == s.client && (pc.Looking? ==> s.client || pc.todo == [])
    requires s2.token ==> Holds(pc) || (s.token && !Holds(s.threads[i].pc))
    ensures Orderly(s2)
  {
    if s2.token {
      if Holds(pc) {
        assert Holds(s2.threads[i].pc);
      } else {
        var j :| 0 <= j < |s.threads| && Holds(s.threads[j].pc);
        assert s2.threads[j] == s.threads[j];
      }
    }
  }

  lemma OuterKeeps(s: State, a: Action)
    requires Orderly(s) && Enabled(s, a)
    requires a.StopWaiting? || a.Acquire? || a.FindClosed? || a.FindAlive? || a.UnlockEarly? || a.Unlock?
    ensures Orderly(Apply(s, a))
  {
    hide Orderly;
    match a {
      case StopWaiting(i) => Keeps(s, Apply(s, a), i, Done);
      case Acquire(i) => Keeps(s, Apply(s, a), i, Locked);
      case FindClosed(i) => Keeps(s, Apply(s, a), i, Done);
      case FindAlive(i) => Keeps(s, Apply(s, a), i, Checked);
      case UnlockEarly(i) => Keeps(s, Apply(s, a), i, LeavingAgain);
      case Unlock(i) => Keeps(s, Apply(s, a), i, Done);
    }
  }

  lemma CheckKeeps(s: State, a: Action)
    requires Orderly(s) && Enabled(s, a) && (a.FindCloseSent? || a.FindNoCloseSent? || a.Refuse? || a.Begin?)
    ensures Orderly(Apply(s, a))
  {
    hide Orderly, EncodeFrame;
    match a {
      case FindCloseSent(i) => Keeps(s, Apply(s, a), i, Leaving);
      case FindNoCloseSent(i) => Keeps(s, Apply(s, a), i, Clear);
      case Refuse(i) => Keeps(s, Apply(s, a), i, Leaving);
      case Begin(i) => Keeps(s, Apply(s, a), i, Writing(EncodeFrame(s.threads[i].f)));
    }
  }

  lemma WorkKeeps(s: State, a: Action)
    requires Orderly(s) && Enabled(s, a) && (a.Put? || a.Direct? || a.Fail? || a.FailDirect? || a.Stick? || a.Abandon?)
    ensures Orderly(Apply(s, a))
  {
    hide Orderly, IsClose;
    match a {
      case Put(i, n) => Keeps(s, Apply(s, a), i, Writing(s.threads[i].pc.todo[n..]));
      case Direct(i, n) => Keeps(s, Apply(s, a), i, Writing(s.threads[i].pc.todo[n..]));
      case Fail(i, _) => Keeps(s, Apply(s, a), i, Leaving);
      case FailDirect(i, _) => Keeps(s, Apply(s, a), i, Leaving);
      case Stick(i) => Keeps(s, Apply(s, a), i, Leaving);
      case Abandon(i, _) => Keeps(s, Apply(s, a), i, Leaving);
    }
  }

  lemma LookKeeps(s: State, a: Action)
    requires Orderly(s) && Enabled(s, a) && (a.Pause? || a.FindOpen? || a.SkipLook? || a.Flushed? || a.EndFrame?)
    ensures Orderly(Apply(s, a))
  {
    hide Orderly, IsClose;
    match a {
      case Pause(i) => Keeps(s, Apply(s, a), i, Looking(s.threads[i].pc.todo));
      case FindOpen(i) => Keeps(s, Apply(s, a), i, AfterLook(s.threads[i]));
      case SkipLook(i) => Keeps(s, Apply(s, a), i, AfterPayload(s.threads[i].f));
      case Flushed(i) => Keeps(s, Apply(s, a), i, Sent);
      case EndFrame(i) => Keeps(s, Apply(s, a), i, AfterFrame(s, i));
    }
  }

  lemma OutsideKeeps(s: State, a: Action)
    requires Orderly(s) && Enabled(s, a) && (a.Arrive? || a.Spill? || a.ReceiveClose? || a.SetFlag? || a.CloseChannel?)
    ensures Orderly(Apply(s, a))
  {
    hide Frame.Valid;
    if s.token {
      var j :| 0 <= j < |s.threads| && Holds(s.threads[j].pc);
      assert Apply(s, a).threads[j] == s.threads[j];
    }
  }

  lemma OrderlyStep(s: State, a: Action)
    requires Orderly(s) && Enabled(s, a)
    ensures Orderly(Apply(s, a))
  {
    hide Orderly, Enabled, Apply;
    if a.StopWaiting? || a.Acquire? || a.FindClosed? || a.FindAlive? || a.UnlockEarly? || a.Unlock? {
      OuterKeeps(s, a);
    } else if a.FindCloseSent? || a.FindNoCloseSent? || a.Refuse? || a.Begin? {
      CheckKeeps(s, a);
    } else if a.Put? || a.Direct? || a.Fail? || a.FailDirect? || a.Stick? || a.Abandon? {
      WorkKeeps(s, a);
    } else if a.Pause? || a.FindOpen? || a.SkipLook? || a.Flushed? || a.EndFrame? {
      LookKeeps(s, a);
    } else {
      OutsideKeeps(s, a);
    }
  }

  lemma {:induction false} OrderlyRun(s: State, acts: seq<Action>)
    requires Orderly(s) && IsRun(s, acts)
    ensures Orderly(AfterAll(s, acts))
    decreases |acts|
  {
    hide Orderly, Enabled, Apply;
    if acts != [] {
      OrderlyStep(s, acts[0]);
      OrderlyRun(Apply(s, acts[0]), acts[1..]);
    }
  }

  /** The goroutine that takes a step; none for what comes from outside, and for giving up the wait. */
  function Actor(a: Action): Option<nat> {
    match a
    case Arrive(_) => None
    case StopWaiting(_) => None
    case ReceiveClose => None
    case SetFlag => None
    case CloseChannel => None
    case _ => Some(a.i)
  }

  /** A step that gets somewhere, and fails only if the sink refuses everything. */
  predicate Advances(s: State, a: Action) {
    (a.Put? || a.Direct? ==> a.n > 0) && (a.Fail? || a.FailDirect? ==> SinkShut(s))
  }

  /** At work, or just before or behind it, there is always a next step. */
  lemma HolderSteps(s: State, i: nat) returns (a: Action)
    requires Inv(s) && Delivery.Forward(s) && Orderly(s) && 0 < s.capacity && (!s.client ==> |s.buf| <= s.capacity)
    requires i < |s.threads| && !s.threads[i].pc.Waiting? && !s.threads[i].pc.Done?
    ensures Enabled(s, a) && Actor(a) == Some(i) && Advances(s, a)
  {
    match s.threads[i].pc {
      case Writing(todo) => a := WritingSteps(s, i);
      case Looking(todo) => a := if s.flag then Abandon(i, []) else FindOpen(i);
      case Flushing => a := FlushingSteps(s, i);
      case _ => a := PlainStep(s, i);
    }
  }

  lemma PlainStep(s: State, i: nat) returns (a: Action)
    requires i < |s.threads|
    requires
      var pc := s.threads[i].pc;
      pc.Locked? || pc.Checked? || pc.Clear? || pc.Sent? || pc.Closing? || pc.Leaving? || pc.LeavingAgain?
    ensures Enabled(s, a) && Actor(a) == Some(i) && Advances(s, a)
  {
    match s.threads[i].pc {
      case Locked => a := if s.closed then FindClosed(i) else FindAlive(i);
      case Checked => a := if s.closeSent then FindCloseSent(i) else FindNoCloseSent(i);
      case Clear => a := Begin(i);
      case Sent => a := EndFrame(i);
      case Closing => a := UnlockEarly(i);
      case _ => a := Unlock(i);
    }
  }

  lemma WritingSteps(s: State, i: nat) returns (a: Action)
    requires 0 < s.capacity && (!s.client ==> |s.buf| <= s.capacity) && InWriting(s, i)
    ensures Enabled(s, a) && Actor(a) == Some(i) && Advances(s, a)
  {
    var todo := s.threads[i].pc.todo;
    if s.err {
      a := Stick(i);
    } else if todo == [] || |s.buf| > s.capacity {
      a := Pause(i);
    } else if |s.buf| < s.capacity {
      a := Put(i, 1);
    } else {
      a := if SinkShut(s) then Fail(i, 0) else Spill(i);
    }
  }

  lemma FlushingSteps(s: State, i: nat) returns (a: Action)
    requires Inv(s) && Delivery.Forward(s) && At(s, i, Flushing)
    ensures Enabled(s, a) && Actor(a) == Some(i) && Advances(s, a)
  {
    hide EncodeFrame, EncodeFrames, UpToClose, Locking, HandsOff, Accounted, Closed, WireInOrder, FramesValid;
    Delivery.FrameNotEmpty(s.threads[i].f);
    a := if s.buf == [] then Flushed(i) else if SinkShut(s) then Fail(i, 0) else Spill(i);
  }

  /**
   In every run, as long as some call of writeFrame has not returned, some goroutine can take a step
   that gets somewhere, even if nobody stops waiting: one past the lock itself, and for one that
   waits, whoever holds the lock, or itself if nobody does.
   */
  lemma NobodyHangs(client: bool, capacity: nat, acts: seq<Action>, i: nat) returns (a: Action, j: nat)
    requires 0 < capacity && IsRun(Fresh(client, capacity), acts)
    requires i < |AfterAll(Fresh(client, capacity), acts).threads|
    requires AfterAll(Fresh(client, capacity), acts).threads[i].pc != Done
    ensures
      var s := AfterAll(Fresh(client, capacity), acts);
      && Enabled(s, a) && Actor(a) == Some(j) && Advances(s, a)
      && (!s.threads[i].pc.Waiting? ==> j == i)
  {
    var s0, s := Fresh(client, capacity), AfterAll(Fresh(client, capacity), acts);
    assert Orderly(s0);
    FreshInv(client, capacity);
    Delivery.FreshForward(client, capacity);
    hide *;
    ClientStays(s0, acts);
    Delivery.ForwardRun(s0, acts);
    OrderlyRun(s0, acts);
    BufferFits(client, capacity, acts);
    a, j := SomebodySteps(s, i);
  }

  lemma BufferFits(client: bool, capacity: nat, acts: seq<Action>)
    requires 0 < capacity && IsRun(Fresh(client, capacity), acts)
    ensures !client ==> |AfterAll(Fresh(client, capacity), acts).buf| <= capacity
  {
    if !client {
      LostClose.FreshLossInv(capacity);
      FreshInv(client, capacity);
      ClientStays(Fresh(client, capacity), acts);
      hide IsRun, AfterAll, Inv;
      LostClose.LossRun(Fresh(false, capacity), acts);
    }
  }

  lemma SomebodySteps(s: State, i: nat) returns (a: Action, j: nat)
    requires Inv(s) && Delivery.Forward(s) && Orderly(s) && 0 < s.capacity && (!s.client ==> |s.buf| <= s.capacity)
    requires i < |s.threads| && s.threads[i].pc != Done
    ensures Enabled(s, a) && Actor(a) == Some(j) && Advances(s, a) && (!s.threads[i].pc.Waiting? ==> j == i)
  {
    hide Inv, Delivery.Forward;
    j := i;
    if !s.threads[i].pc.Waiting? {
      a := HolderSteps(s, i);
    } else if !s.token {
      a := Acquire(i);
    } else {
      j :| 0 <= j < |s.threads| && Holds(s.threads[j].pc);
      a := HolderSteps(s, j);
    }
  }

  // ---- How far the lock excludes ----

  /** A close frame has gone out and one has come in. */
  predicate Answered(s: State) {
    s.closeSent && s.closeReceived
  }

  /** Until then the lock is one in the ordinary sense. */
  ghost predicate Exclusive(s: State) {
    !Answered(s) ==>
      && (forall i :: 0 <= i < |s.threads| ==> !s.threads[i].pc.Closing? && !s.threads[i].pc.LeavingAgain?)
      && (forall i, j :: 0 <= i < j < |s.threads| ==> !(Holds(s.threads[i].pc) && Holds(s.threads[j].pc)))
      && (!s.token ==> forall i :: 0 <= i < |s.threads| ==> !Holds(s.threads[i].pc))
  }

  lemma Excludes(s: State, s2: State, i: nat, pc: PC)
    requires Exclusive(s) && i < |s.threads| && s2.threads == s.threads[i := s.threads[i].(pc := pc)]
    requires (s.closeSent ==> s2.closeSent) && s2.closeReceived == s.closeReceived
    requires !Answered(s2) ==>
      && !pc.Closing? && (s.threads[i].pc.Closing? || !pc.LeavingAgain?)
      && (s.threads[i].pc.LeavingAgain?
          || s2.token == if Holds(s.threads[i].pc) then s.token && Holds(pc) else s.token || Holds(pc))
      && (Holds(pc) && !Holds(s.threads[i].pc) ==> !s.token)
    ensures Exclusive(s2)
  {
  }

  lemma OuterExcludes(s: State, a: Action)
    requires Exclusive(s) && Enabled(s, a)
    requires a.StopWaiting? || a.Acquire? || a.FindClosed? || a.FindAlive? || a.UnlockEarly? || a.Unlock?
    ensures Exclusive(Apply(s, a))
  {
    hide Exclusive;
    match a {
      case StopWaiting(i) => Excludes(s, Apply(s, a), i, Done);
      case Acquire(i) => Excludes(s, Apply(s, a), i, Locked);
      case FindClosed(i) => Excludes(s, Apply(s, a), i, Done);
      case FindAlive(i) => Excludes(s, Apply(s, a), i, Checked);
      case UnlockEarly(i) => Excludes(s, Apply(s, a), i, LeavingAgain);
      case Unlock(i) => Excludes(s, Apply(s, a), i, Done);
    }
  }

  lemma CheckExcludes(s: State, a: Action)
    requires Exclusive(s) && Enabled(s, a) && (a.FindCloseSent? || a.FindNoCloseSent? || a.Refuse? || a.Begin?)
    ensures Exclusive(Apply(s, a))
  {
    hide Exclusive, EncodeFrame;
    match a {
      case FindCloseSent(i) => Excludes(s, Apply(s, a), i, Leaving);
      case FindNoCloseSent(i) => Excludes(s, Apply(s, a), i, Clear);
      case Refuse(i) => Excludes(s, Apply(s, a), i, Leaving);
      case Begin(i) => Excludes(s, Apply(s, a), i, Writing(EncodeFrame(s.threads[i].f)));
    }
  }

  lemma WorkExcludes(s: State, a: Action)
    requires Exclusive(s) && Enabled(s, a)
    requires a.Put? || a.Direct? || a.Fail? || a.FailDirect? || a.Stick? || a.Abandon?
    ensures Exclusive(Apply(s, a))
  {
    HoldersToken(s, a.i);
    hide Exclusive, IsClose;
    match a {
      case Put(i, n) => Excludes(s, Apply(s, a), i, Writing(s.threads[i].pc.todo[n..]));
      case Direct(i, n) => Excludes(s, Apply(s, a), i, Writing(s.threads[i].pc.todo[n..]));
      case Fail(i, _) => Excludes(s, Apply(s, a), i, Leaving);
      case FailDirect(i, _) => Excludes(s, Apply(s, a), i, Leaving);
      case Stick(i) => Excludes(s, Apply(s, a), i, Leaving);
      case Abandon(i, _) => Excludes(s, Apply(s, a), i, Leaving);
    }
  }

  lemma HoldersToken(s: State, i: nat)
    requires Exclusive(s) && i < |s.threads|
    ensures !Answered(s) && Holds(s.threads[i].pc) ==> s.token
  {
  }

  lemma LookExcludes(s: State, a: Action)
    requires Exclusive(s) && Enabled(s, a) && (a.Pause? || a.FindOpen? || a.SkipLook? || a.Flushed? || a.EndFrame?)
    ensures Exclusive(Apply(s, a))
  {
    HoldersToken(s, a.i);
    hide Exclusive;
    match a {
      case Pause(i) => Excludes(s, Apply(s, a), i, Looking(s.threads[i].pc.todo));
      case FindOpen(i) => Excludes(s, Apply(s, a), i, AfterLook(s.threads[i]));
      case SkipLook(i) => Excludes(s, Apply(s, a), i, AfterPayload(s.threads[i].f));
      case Flushed(i) => Excludes(s, Apply(s, a), i, Sent);
      case EndFrame(i) => Excludes(s, Apply(s, a), i, AfterFrame(s, i));
    }
  }

  lemma OutsideExcludes(s: State, a: Action)
    requires Exclusive(s) && Enabled(s, a)
    requires a.Arrive? || a.Spill? || a.ReceiveClose? || a.SetFlag? || a.CloseChannel?
    ensures Exclusive(Apply(s, a))
  {
    hide Frame.Valid;
  }

  lemma ExclusiveStep(s: State, a: Action)
    requires Exclusive(s) && Enabled(s, a)
    ensures Exclusive(Apply(s, a))
  {
    hide Exclusive, Enabled, Apply;
    if a.StopWaiting? || a.Acquire? || a.FindClosed? || a.FindAlive? || a.UnlockEarly? || a.Unlock? {
      OuterExcludes(s, a);
    } else if a.FindCloseSent? || a.FindNoCloseSent? || a.Refuse? || a.Begin? {
      CheckExcludes(s, a);
    } else if a.Put? || a.Direct? || a.Fail? || a.FailDirect? || a.Stick? || a.Abandon? {
      WorkExcludes(s, a);
    } else if a.Pause? || a.FindOpen? || a.SkipLook? || a.Flushed? || a.EndFrame? {
      LookExcludes(s, a);
    } else {
      OutsideExcludes(s, a);
    }
  }

  /** In every run the lock excludes, until a close frame has gone out and one has come in. */
  lemma {:induction false} ExclusiveRun(s: State, acts: seq<Action>)
    requires Exclusive(s) && IsRun(s, acts)
    ensures Exclusive(AfterAll(s, acts))
    decreases |acts|
  {
    hide Exclusive, Enabled, Apply;
    if acts != [] {
      ExclusiveStep(s, acts[0]);
      ExclusiveRun(Apply(s, acts[0]), acts[1..]);
    }
  }

  /** Two goroutines between obtaining the lock and giving it back. */
  predicate BothHold(s: State, i: nat, j: nat) {
    i < j < |s.threads| && Holds(s.threads[i].pc) && Holds(s.threads[j].pc)
  }

  lemma ExcludesUntilAnswered(client: bool, capacity: nat, acts: seq<Action>, i: nat, j: nat)
    requires IsRun(Fresh(client, capacity), acts) && BothHold(AfterAll(Fresh(client, capacity), acts), i, j)
    ensures Answered(AfterAll(Fresh(client, capacity), acts))
  {
    assert Exclusive(Fresh(client, capacity));
    hide IsRun, AfterAll;
    ExclusiveRun(Fresh(client, capacity), acts);
  }

  /** A newcomer takes the token. */
  lemma Takes(s0: State, acts: seq<Action>, f: Frame) returns (more: seq<Action>, s: State)
    requires IsRun(s0, acts) && !AfterAll(s0, acts).token && f.Valid() && f.h.masked == AfterAll(s0, acts).client
    ensures IsRun(s0, more) && s == AfterAll(s0, more) && s.client == AfterAll(s0, acts).client
    ensures s.threads == AfterAll(s0, acts).threads + [Thread(f, Locked)] && s.closed == AfterAll(s0, acts).closed
  {
    hide IsRun, AfterAll, Frame.Valid;
    more, s := LostClose.Extend(s0, acts, Arrive(f));
    more, s := LostClose.Extend(s0, more, Acquire(|AfterAll(s0, acts).threads|));
  }

  /** The newcomer finds the connection open; then it is closed, and the deferred unlock follows. */
  lemma ClosesUnder(s0: State, acts: seq<Action>) returns (more: seq<Action>, s: State)
    requires IsRun(s0, acts) && |AfterAll(s0, acts).threads| == 2 && !AfterAll(s0, acts).closed
    requires At(AfterAll(s0, acts), 0, LeavingAgain) && At(AfterAll(s0, acts), 1, Locked)
    ensures IsRun(s0, more) && s == AfterAll(s0, more) && s.client == AfterAll(s0, acts).client
    ensures |s.threads| == 2 && At(s, 1, Checked) && !s.token && s.closed
  {
    hide IsRun, AfterAll;
    more, s := LostClose.Extend(s0, acts, FindAlive(1));
    more, s := Closes(s0, more);
    more, s := LostClose.Extend(s0, more, Unlock(0));
  }

  lemma Closes(s0: State, acts: seq<Action>) returns (more: seq<Action>, s: State)
    requires IsRun(s0, acts)
    ensures IsRun(s0, more) && s == AfterAll(s0, more) && s == AfterAll(s0, acts).(flag := true, closed := true)
  {
    hide IsRun, AfterAll;
    more, s := LostClose.Extend(s0, acts, SetFlag);
    more, s := LostClose.Extend(s0, more, CloseChannel);
  }

  /** The goroutine that answers a close frame gives the lock back early. */
  lemma AnswersClose(client: bool, capacity: nat, f: Frame) returns (acts: seq<Action>, s: State)
    requires 0 < capacity && f.Valid() && IsClose(f) && f.h.masked == client
    ensures IsRun(Fresh(client, capacity), acts) && s == AfterAll(Fresh(client, capacity), acts)
    ensures !s.token && !s.closed && s.client == client && s.threads == [Thread(f, LeavingAgain)]
  {
    var s0 := Fresh(client, capacity);
    LostClose.RunOfNothing(s0);
    assert Delivery.Quiet(s0);
    hide IsRun, AfterAll, Frame.Valid, Delivery.Quiet, IsClose;
    acts, s := Delivery.GetsThrough(s0, [], f);
    SameRole(client, capacity, acts);
    acts, s := UnlocksEarly(s0, acts, f);
  }

  lemma UnlocksEarly(s0: State, acts: seq<Action>, f: Frame) returns (more: seq<Action>, s: State)
    requires IsRun(s0, acts) && AfterAll(s0, acts).threads == [Thread(f, Sent)] && IsClose(f)
    ensures IsRun(s0, more) && s == AfterAll(s0, more) && s.closed == AfterAll(s0, acts).closed
    ensures !s.token && s.client == AfterAll(s0, acts).client && s.threads == [Thread(f, LeavingAgain)]
  {
    hide IsRun, AfterAll;
    more, s := LostClose.Extend(s0, acts, ReceiveClose);
    more, s := LostClose.Extend(s0, more, EndFrame(0));
    more, s := LostClose.Extend(s0, more, UnlockEarly(0));
  }

  lemma SameRole(client: bool, capacity: nat, acts: seq<Action>)
    requires IsRun(Fresh(client, capacity), acts)
    ensures AfterAll(Fresh(client, capacity), acts).client == client
  {
    ClientStays(Fresh(client, capacity), acts);
  }

  /**
   And then it does not: a close frame is sent in answer to one received, which gives the lock back
   early; the next goroutine takes it; the connection is closed; the second unlock, the deferred one,
   frees the lock under its feet; and one more goroutine takes it too. For any frames, at either end.
   */
  lemma LockLost(client: bool, capacity: nat, f: Frame, g: Frame, h: Frame) returns (acts: seq<Action>)
    requires 0 < capacity && f.Valid() && IsClose(f) && g.Valid() && h.Valid()
    requires f.h.masked == g.h.masked == h.h.masked == client
    ensures IsRun(Fresh(client, capacity), acts) && BothHold(AfterAll(Fresh(client, capacity), acts), 1, 2)
    ensures AfterAll(Fresh(client, capacity), acts).closed
  {
    hide IsRun, AfterAll, Frame.Valid, IsClose;
    var s0 := Fresh(client, capacity);
    var s;
    acts, s := AnswersClose(client, capacity, f);
    acts, s := Takes(s0, acts, g);
    acts, s := ClosesUnder(s0, acts);
    acts, s := Takes(s0, acts, h);
  }
}
