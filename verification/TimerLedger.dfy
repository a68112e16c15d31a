/** What a timer promises, apart from how it keeps its entries: when each of them is due and what has fired. */
module TimerLedger {
  /** One Add or Set: its number, and the time it is due. */
  datatype Ticket = Ticket(id: nat, due: int)

  datatype Firing<T> = Firing(handle: T, ticket: Ticket, at: int)

  datatype Ledger<!T(==)> = Ledger(
    active: map<T, Ticket>, fired: seq<Firing<T>>, issued: nat, cancelled: nat, clock: int)

  function Opened<T>(clock: int): Ledger<T> {
    Ledger(map[], [], 0, 0, clock)
  }

  /** An entry is set to a time. */
  function Arm<T>(l: Ledger<T>, h: T, due: int, now: int): Ledger<T> {
    Ledger(l.active[h := Ticket(l.issued, due)], l.fired, l.issued + 1, l.cancelled, now)
  }

  /** An entry is taken out before its time, if it is in. */
  function Cancel<T>(l: Ledger<T>, h: T, now: int): Ledger<T> {
    if h in l.active then l.(active := l.active - {h}, cancelled := l.cancelled + 1, clock := now)
    else l.(clock := now)
  }

  /** An entry has come due and its callback runs. */
  function Fire<T>(l: Ledger<T>, h: T, now: int): Ledger<T>
    requires h in l.active
  {
    l.(active := l.active - {h}, fired := l.fired + [Firing(h, l.active[h], now)], clock := now)
  }

  function CancelAll<T>(l: Ledger<T>): Ledger<T> {
    l.(active := map[], cancelled := l.cancelled + |l.active|)
  }

  /** Fired in the order of the times they were due, never early. */
  ghost predicate InTime<T>(fired: seq<Firing<T>>, clock: int) {
    && (forall i :: 0 <= i < |fired| ==> fired[i].ticket.due <= fired[i].at <= clock)
    && (forall i, j :: 0 <= i < j < |fired| ==>
          fired[i].ticket.due <= fired[j].ticket.due && fired[i].at <= fired[j].at)
  }

  /** No ticket fires twice, and none that is still active has fired. */
  ghost predicate Once<T>(l: Ledger<T>) {
    && (forall i :: 0 <= i < |l.fired| ==> l.fired[i].ticket.id < l.issued)
    && (forall i, j :: 0 <= i < j < |l.fired| ==> l.fired[i].ticket.id != l.fired[j].ticket.id)
    && (forall h :: h in l.active ==> l.active[h].id < l.issued)
    && (forall g, h :: g in l.active && h in l.active && g != h ==> l.active[g].id != l.active[h].id)
    && (forall i, h :: 0 <= i < |l.fired| && h in l.active ==> l.fired[i].ticket.id != l.active[h].id)
  }

  /** Nothing still active was due before what has already fired. */
  ghost predicate NoneSkipped<T>(l: Ledger<T>) {
    forall h :: h in l.active && l.fired != [] ==> l.fired[|l.fired| - 1].ticket.due <= l.active[h].due
  }

  ghost predicate Sound<T>(l: Ledger<T>) {
    && InTime(l.fired, l.clock) && Once(l) && NoneSkipped(l)
    && l.issued == |l.active| + |l.fired| + l.cancelled
  }

  lemma ArmCounts<T>(l: Ledger<T>, h: T, due: int, now: int)
    requires h !in l.active
    ensures forall g :: g in Arm(l, h, due, now).active ==>
      Arm(l, h, due, now).active[g] == if g == h then Ticket(l.issued, due) else l.active[g]
    ensures Arm(l, h, due, now).clock == now
    ensures Arm(l, h, due, now).active.Keys == l.active.Keys + {h} && |Arm(l, h, due, now).active| == |l.active| + 1
  {
    assert Arm(l, h, due, now).active.Keys == l.active.Keys + {h};
  }

  lemma ArmSound<T>(l: Ledger<T>, h: T, due: int, now: int)
    requires Sound(l) && h !in l.active && l.clock <= now < due
    ensures Sound(Arm(l, h, due, now))
  {
    hide Once, InTime;
    ArmCounts(l, h, due, now);
    ArmOnce(l, h, due, now);
    LaterInTime(l.fired, l.clock, now);
    NotYetDue(l.fired, l.clock);
  }

  lemma LaterInTime<T>(fired: seq<Firing<T>>, clock: int, now: int)
    requires InTime(fired, clock) && clock <= now
    ensures InTime(fired, now)
  {
  }

  lemma NotYetDue<T>(fired: seq<Firing<T>>, clock: int)
    requires InTime(fired, clock)
    ensures fired != [] ==> fired[|fired| - 1].ticket.due <= clock
  {
  }

  lemma ArmOnce<T>(l: Ledger<T>, h: T, due: int, now: int)
    requires Once(l) && h !in l.active
    ensures Once(Arm(l, h, due, now))
  {
  }

  lemma CancelCounts<T>(l: Ledger<T>, h: T, now: int)
    ensures forall g :: g in Cancel(l, h, now).active ==> Cancel(l, h, now).active[g] == l.active[g]
    ensures Cancel(l, h, now).clock == now
    ensures Cancel(l, h, now).active.Keys == l.active.Keys - {h}
    ensures |Cancel(l, h, now).active| == |l.active| - if h in l.active then 1 else 0
  {
    assert Cancel(l, h, now).active.Keys == l.active.Keys - {h};
  }

  lemma CancelSound<T>(l: Ledger<T>, h: T, now: int)
    requires Sound(l) && l.clock <= now
    ensures Sound(Cancel(l, h, now))
  {
    hide Once, InTime;
    LaterInTime(l.fired, l.clock, now);
    CancelOnce(l, h, now);
    if h in l.active {
      CancelCounts(l, h, now);
    } else {
      assert Cancel(l, h, now) == l.(clock := now);
    }
  }

  lemma CancelOnce<T>(l: Ledger<T>, h: T, now: int)
    requires Once(l)
    ensures Once(Cancel(l, h, now))
  {
  }

  lemma CancelAllSound<T>(l: Ledger<T>)
    requires Sound(l)
    ensures Sound(CancelAll(l))
  {
  }

  lemma FireCounts<T>(l: Ledger<T>, h: T, now: int)
    requires h in l.active
    ensures forall g :: g in Fire(l, h, now).active ==> Fire(l, h, now).active[g] == l.active[g]
    ensures Fire(l, h, now).active.Keys == l.active.Keys - {h} && |Fire(l, h, now).active| == |l.active| - 1
  {
    assert Fire(l, h, now).active.Keys == l.active.Keys - {h};
  }

  /** Firing an entry that is due, and due first, keeps everything promised. */
  lemma FireSound<T>(l: Ledger<T>, h: T, now: int)
    requires Sound(l) && h in l.active && l.clock <= now && l.active[h].due <= now
    requires forall g :: g in l.active ==> l.active[h].due <= l.active[g].due
    ensures Sound(Fire(l, h, now))
  {
    hide Once;
    FireCounts(l, h, now);
    FireInTime(l.fired, Firing(h, l.active[h], now), l.clock, now);
    FireOnce(l, h, now);
  }

  lemma FireOnce<T>(l: Ledger<T>, h: T, now: int)
    requires Once(l) && h in l.active
    ensures Once(Fire(l, h, now))
  {
  }

  lemma FireInTime<T>(fired: seq<Firing<T>>, f: Firing<T>, clock: int, now: int)
    requires InTime(fired, clock) && clock <= now == f.at && f.ticket.due <= now
    requires fired != [] ==> fired[|fired| - 1].ticket.due <= f.ticket.due
    ensures InTime(fired + [f], now)
  {
  }

  // ---- Whole runs ----

  /** What can happen under the lock: Add arms, Del cancels, Set cancels and arms, expire fires. */
  datatype Event<T> =
    | Armed(h: T, due: int, now: int)
    | Cancelled(h: T, now: int)
    | Fired(h: T, now: int)
    | Stopped

  ghost predicate Allowed<T>(l: Ledger<T>, e: Event<T>) {
    match e
    case Armed(h, due, now) => h !in l.active && l.clock <= now < due
    case Cancelled(_, now) => l.clock <= now
    case Fired(h, now) =>
      && h in l.active && l.clock <= now && l.active[h].due <= now
      && forall g :: g in l.active ==> l.active[h].due <= l.active[g].due
    case Stopped => true
  }

  function After<T>(l: Ledger<T>, e: Event<T>): Ledger<T> {
    match e
    case Armed(h, due, now) => Arm(l, h, due, now)
    case Cancelled(h, now) => Cancel(l, h, now)
    case Fired(h, now) => if h in l.active then Fire(l, h, now) else l
    case Stopped => CancelAll(l)
  }

  ghost predicate IsRun<T>(l: Ledger<T>, es: seq<Event<T>>)
    decreases |es|
  {
    es == [] || (Allowed(l, es[0]) && IsRun(After(l, es[0]), es[1..]))
  }

  function AfterAll<T>(l: Ledger<T>, es: seq<Event<T>>): Ledger<T>
    decreases |es|
  {
    if es == [] then l else AfterAll(After(l, es[0]), es[1..])
  }

  /** Whose callbacks run in these events, and when. */
  function FiredIn<T>(es: seq<Event<T>>): seq<(T, int)> {
    if es == [] then [] else (if es[0].Fired? then [(es[0].h, es[0].now)] else []) + FiredIn(es[1..])
  }

  /** Whose callbacks have run, and when. */
  function Record<T>(fired: seq<Firing<T>>): (r: seq<(T, int)>)
    ensures |r| == |fired| && forall i :: 0 <= i < |r| ==> r[i] == (fired[i].handle, fired[i].at)
  {
    if fired == [] then [] else [(fired[0].handle, fired[0].at)] + Record(fired[1..])
  }

  /** Over every run the record grows by exactly the firings, in order. */
  lemma {:induction false} RunRecorded<T>(l: Ledger<T>, es: seq<Event<T>>)
    requires IsRun(l, es)
    ensures Record(AfterAll(l, es).fired) == Record(l.fired) + FiredIn(es)
    decreases |es|
  {
    hide Record, After, Allowed;
    if es == [] {
      assert Record(l.fired) + [] == Record(l.fired);
    } else {
      RunRecorded(After(l, es[0]), es[1..]);
      EventRecorded(l, es[0]);
      var now := if es[0].Fired? then [(es[0].h, es[0].now)] else [];
      assert Record(l.fired) + now + FiredIn(es[1..]) == Record(l.fired) + (now + FiredIn(es[1..]));
    }
  }

  lemma EventRecorded<T>(l: Ledger<T>, e: Event<T>)
    requires Allowed(l, e)
    ensures Record(After(l, e).fired) == Record(l.fired) + if e.Fired? then [(e.h, e.now)] else []
  {
  }

  /**
   Over every run: what fired, fired in the order it was due, never early, and at most once for
   each Add or Set; nothing is lost, and nothing that has fired is taken back.
   */
  lemma {:induction false} RunSound<T>(l: Ledger<T>, es: seq<Event<T>>)
    requires Sound(l) && IsRun(l, es)
    ensures Sound(AfterAll(l, es)) && l.fired <= AfterAll(l, es).fired
    decreases |es|
  {
    hide Sound;
    if es != [] {
      match es[0] {
        case Armed(h, due, now) => ArmSound(l, h, due, now);
        case Cancelled(h, now) => CancelSound(l, h, now);
        case Fired(h, now) => FireSound(l, h, now);
        case Stopped => CancelAllSound(l);
      }
      RunSound(After(l, es[0]), es[1..]);
    }
  }
}
