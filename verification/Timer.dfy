/** The timer: a heap of entries that know their own position, a list of free ones, and a wake-up signal. */
module Timer {
  import opened Wrappers
  import opened TimerLedger

  // ---- Heaps of due times ----

  function Parent(k: nat): (p: nat)
    requires k > 0
    ensures p < k
  {
    (k - 1) / 2
  }

  /** Among the first n, no entry is due before its parent. */
  ghost predicate InOrder(s: seq<int>, n: nat)
    requires n <= |s|
  {
    forall k :: 0 < k < n ==> s[Parent(k)] <= s[k]
  }

  /** The children of k are not due before the parent of k. */
  ghost predicate Bridged(s: seq<int>, n: nat, k: nat)
    requires n <= |s| && k < n
  {
    k > 0 ==> forall j :: 0 < j < n && Parent(j) == k ==> s[Parent(k)] <= s[j]
  }

  /** In order except that entry k may be due before its parent. */
  ghost predicate MayRise(s: seq<int>, n: nat, k: nat)
    requires n <= |s| && k < n
  {
    && (forall j :: 0 < j < n && j != k ==> s[Parent(j)] <= s[j])
    && Bridged(s, n, k)
  }

  /** In order except that entry k may be due after its children, and, if it is still at i, before its parent. */
  ghost predicate MaySink(s: seq<int>, n: nat, i: nat, k: nat)
    requires n <= |s| && k < n
  {
    && (forall j :: 0 < j < n && Parent(j) != k && (j != i || k != i) ==> s[Parent(j)] <= s[j])
    && Bridged(s, n, k)
  }

  function Swapped<T>(s: seq<T>, i: nat, j: nat): (r: seq<T>)
    requires i < |s| && j < |s|
    ensures |r| == |s|
  {
    s[i := s[j]][j := s[i]]
  }

  lemma RiseStep(s: seq<int>, n: nat, k: nat)
    requires 0 < k < n <= |s| && MayRise(s, n, k) && s[k] < s[Parent(k)]
    ensures MayRise(Swapped(s, Parent(k), k), n, Parent(k))
  {
    var p, s2 := Parent(k), Swapped(s, Parent(k), k);
    forall j | 0 < j < n && j != p
      ensures s2[Parent(j)] <= s2[j]
    {
      assert s[Parent(j)] <= s[j] || j == k;
    }
    assert p > 0 ==> s[Parent(p)] <= s[p];
  }

  lemma RiseDone(s: seq<int>, n: nat, k: nat)
    requires k < n <= |s| && MayRise(s, n, k) && (k == 0 || s[Parent(k)] <= s[k])
    ensures InOrder(s, n)
  {
  }

  lemma SinkStep(s: seq<int>, n: nat, i: nat, k: nat, c: nat)
    requires i <= k < c < n <= |s| && MaySink(s, n, i, k) && Parent(c) == k && s[c] <= s[k]
    requires forall j :: 0 < j < n && Parent(j) == k ==> s[c] <= s[j]
    ensures MaySink(Swapped(s, k, c), n, i, c)
  {
  }

  lemma SinkDone(s: seq<int>, n: nat, i: nat, k: nat)
    requires i <= k < n <= |s| && MaySink(s, n, i, k)
    requires forall j :: 0 < j < n && Parent(j) == k ==> s[k] <= s[j]
    ensures MayRise(s, n, i)
  {
  }

  /** The first entry is due first. */
  lemma {:induction false} FirstIsLeast(s: seq<int>, n: nat, k: nat)
    requires k < n <= |s| && InOrder(s, n)
    ensures s[0] <= s[k]
  {
    if k > 0 {
      FirstIsLeast(s, n, Parent(k));
    }
  }

  lemma InOrderWithoutLast(s: seq<int>, n: nat)
    requires n < |s| && InOrder(s, n + 1)
    ensures InOrder(s, n)
  {
  }

  /** Replacing entry i by the last one and dropping the last leaves only entry i to be put right. */
  lemma LastIntoHole(s: seq<int>, i: nat)
    requires i < |s| - 1 && InOrder(s, |s|)
    ensures MaySink(Swapped(s, i, |s| - 1), |s| - 1, i, i)
  {
  }

  // ---- Entries ----

  class TimerData {
    var expire: int
    var fn: Option<nat>
    var index: int
    var next: TimerData?

    constructor ()
      ensures index == 0 && next == null && fn.None?
    {
      expire, fn, index, next := 0, None, 0, null;
    }
  }

  ghost function Dues(ts: seq<TimerData>): (r: seq<int>)
    reads ts`expire
    ensures |r| == |ts| && forall k :: 0 <= k < |ts| ==> r[k] == ts[k].expire
  {
    if ts == [] then [] else [ts[0].expire] + Dues(ts[1..])
  }

  twostate lemma DuesSame(ts: seq<TimerData>)
    requires forall x :: x in ts ==> x.expire == old(x.expire)
    ensures Dues(ts) == old(Dues(ts))
  {
  }

  /** The entries in the heap are the active ones, with the times they are due. */
  ghost predicate Matches(ts: seq<TimerData>, l: Ledger<TimerData>)
    reads ts`expire
  {
    && Sound(l) && |ts| == |l.active|
    && (forall td :: td in l.active ==> td in ts)
    && (forall td :: td in ts ==> td in l.active && td.expire == l.active[td].due)
  }

  lemma MatchesCancel(before: seq<TimerData>, after: seq<TimerData>, l: Ledger<TimerData>, td: TimerData, now: int)
    requires Matches(before, l) && l.clock <= now && td !in after
    requires |after| == |before| - if td in before then 1 else 0
    requires (forall x :: x in after ==> x in before) && forall x :: x in before && x != td ==> x in after
    ensures Matches(after, Cancel(l, td, now))
  {
    hide Sound, Cancel;
    CancelSound(l, td, now);
    CancelCounts(l, td, now);
  }

  lemma MatchesArm(before: seq<TimerData>, after: seq<TimerData>, l: Ledger<TimerData>, td: TimerData, now: int)
    requires td !in before && |after| == |before| + 1 && td in after && l.clock <= now < td.expire
    requires Matches(before, l)
    requires (forall x :: x in after ==> x in before || x == td) && forall x :: x in before ==> x in after
    ensures Matches(after, Arm(l, td, td.expire, now))
  {
    hide Sound, Arm;
    ArmSound(l, td, td.expire, now);
    ArmCounts(l, td, td.expire, now);
  }

  lemma MatchesFire(before: seq<TimerData>, after: seq<TimerData>, l: Ledger<TimerData>, td: TimerData, now: int)
    requires Matches(before, l) && td in before && td !in after && |after| == |before| - 1
    requires l.clock <= now && td.expire <= now && forall x :: x in before ==> td.expire <= x.expire
    requires (forall x :: x in after ==> x in before) && forall x :: x in before && x != td ==> x in after
    ensures td in l.active && Matches(after, Fire(l, td, now))
  {
    hide Sound, Fire;
    FireSound(l, td, now);
    FireCounts(l, td, now);
  }

  lemma MatchesCancelAll(before: seq<TimerData>, l: Ledger<TimerData>)
    requires Matches(before, l)
    ensures Matches([], CancelAll(l))
  {
    hide Sound;
    CancelAllSound(l);
  }

  /** The entry behind position k of a list, if there is one. */
  function Link(list: seq<TimerData>, k: int): TimerData?
    requires -1 <= k < |list|
  {
    if k + 1 < |list| then list[k + 1] else null
  }

  /** The longest a signal can wait. */
  const INFINITE: int := 0x7fff_ffff_ffff_ffff

  class Timer {
    var timers: seq<TimerData>
    var free: TimerData?
    var signal: Option<int>
    const capacity: nat
    /** The goroutine waits for the signal. */
    ghost var parked: bool
    /** Every entry ever allocated, and those on the free list in order. */
    ghost var nodes: set<TimerData>
    ghost var idle: seq<TimerData>
    /** What has been promised and what has fired. */
    ghost var ledger: Ledger<TimerData>

    /** Entries know where they are, and none is due before its parent. */
    ghost predicate HeapValid()
      reads `timers, `nodes, timers`index, timers`expire
    {
      && Indexed() && InOrder(Dues(timers), |timers|)
    }

    /** The free list, link by link. */
    ghost predicate FreeValid()
      reads `free, `idle, idle`next
    {
      && free == Link(idle, -1)
      && (forall k :: 0 <= k < |idle| ==> idle[k].next == Link(idle, k))
      && (forall i, j :: 0 <= i < j < |idle| ==> idle[i] != idle[j])
    }

    /** An entry is in the heap, on the free list, or held by a caller only. */
    ghost predicate Apart()
      reads `timers, `nodes, `idle
    {
      && (forall td :: td in timers ==> td !in idle)
      && (forall td :: td in idle ==> td in nodes)
    }

    ghost predicate Kept()
      reads `timers, timers`expire, `ledger
    {
      Matches(timers, ledger)
    }

    /** Waiting with something to do means being woken in time. */
    ghost predicate WillWake()
      reads `timers, timers`expire, `signal, `parked
    {
      parked && timers != [] ==> signal.Some? && signal.value <= timers[0].expire
    }

    ghost predicate Valid()
      reads this, timers, idle
    {
      capacity > 0 && Running() && FreeValid() && Apart()
    }

    constructor (capacity: int, now: int)
      ensures Valid() && timers == [] && ledger == Opened(now) && fresh(nodes) && !parked
    {
      this.capacity := if capacity <= 0 then 100 else capacity;
      timers, free, signal, parked := [], null, Some(now + INFINITE), false;
      nodes, idle, ledger := {}, [], Opened(now);
      new;
      Grow();
      hide FreeValid, Apart;
    }

    /** Allocates a batch of entries and links them into the free list. */
    method Grow()
      requires capacity > 0 && FreeValid() && idle == [] && Apart()
      modifies `free, `nodes, `idle
      ensures FreeValid() && Apart() && free != null
      ensures old(nodes) <= nodes && fresh(nodes - old(nodes)) && forall td :: td in idle ==> fresh(td)
    {
      var batch: seq<TimerData> := [];
      while |batch| < capacity
        invariant |batch| <= capacity && nodes == old(nodes)
        invariant forall k :: 0 <= k < |batch| ==> fresh(batch[k]) && batch[k].next == null
        invariant forall i, j :: 0 <= i < j < |batch| ==> batch[i] != batch[j]
      {
        var td := new TimerData();
        batch := batch + [td];
      }
      LinkUp(batch);
      free, idle := batch[0], batch;
      nodes := nodes + set td | td in batch;
    }

    /** Links new entries in order. */
    method LinkUp(batch: seq<TimerData>)
      requires batch != [] && forall k :: 0 <= k < |batch| ==> batch[k].next == null
      requires forall i, j :: 0 <= i < j < |batch| ==> batch[i] != batch[j]
      modifies set td | td in batch
      ensures forall k :: 0 <= k < |batch| ==> batch[k].next == Link(batch, k)
    {
      for i := 0 to |batch| - 1
        invariant forall k :: 0 <= k < i ==> batch[k].next == Link(batch, k)
        invariant forall k :: i <= k < |batch| ==> batch[k].next == null
      {
        batch[i].next := batch[i + 1];
      }
      batch[|batch| - 1].next := null;
    }

    /** Takes an entry off the free list. */
    method Get() returns (td: TimerData)
      requires capacity > 0 && FreeValid() && Apart()
      modifies `free, `nodes, `idle, idle`next
      ensures FreeValid() && Apart()
      ensures td in nodes && td !in idle && td !in timers && td.next == null && (td in old(idle) || fresh(td))
      ensures old(nodes) <= nodes && fresh(nodes - old(nodes))
      ensures old(Running()) ==> Running()
    {
      hide Running;
      if free == null {
        Grow();
        MoreNodes();
      }
      assert free == idle[0] && idle[0] in idle && (idle[0] in old(idle) || fresh(idle[0]));
      td := Take();
    }

    /** New entries do not disturb the heap. */
    twostate lemma MoreNodes()
      requires old(nodes) <= nodes && timers == old(timers) && ledger == old(ledger) && signal == old(signal)
      requires parked == old(parked)
      requires forall x :: x in timers ==> x.index == old(x.index) && x.expire == old(x.expire)
      ensures old(Running()) ==> Running()
    {
      hide InOrder, Sound;
      if old(Running()) {
        DuesSame(timers);
      }
    }

    /** Takes the first entry off the list. */
    method Take() returns (td: TimerData)
      requires idle != [] && FreeValid() && Apart()
      modifies `free, `idle, free`next
      ensures FreeValid() && Apart()
      ensures td == old(idle[0]) && td in nodes && td !in idle && td !in timers && td.next == null
    {
      ghost var was := idle;
      assert FreeValid() && was != [];
      td := free;
      free := td.next;
      td.next := null;
      idle := idle[1..];
      assert forall k :: 0 <= k < |idle| ==> idle[k] == was[k + 1] && was[k + 1] != was[0];
      assert forall k :: -1 <= k < |idle| ==> Link(idle, k) == Link(was, k + 1);
    }

    /** Puts an entry that is not in use any more on the free list. */
    method Put(td: TimerData?)
      requires FreeValid() && Apart() && (td != null ==> td in nodes && td !in idle && td !in timers)
      modifies `free, `idle, td
      ensures FreeValid() && Apart()
      ensures td == null ==> idle == old(idle)
      ensures td != null ==>
        idle == [td] + old(idle) && td.expire == old(td.expire) && td.index == old(td.index) && td.fn.None?
    {
      hide FreeValid;
      if td == null {
        return;
      }
      td.fn := None;
      Prepend(td);
      assert forall x :: x in idle ==> x == td || x in old(idle);
    }

    /** The entry becomes the first one of the list. */
    method Prepend(td: TimerData)
      requires FreeValid() && td !in idle
      modifies `free, `idle, td`next
      ensures FreeValid() && idle == [td] + old(idle)
    {
      ghost var was := idle;
      StillApart(was, td);
      LinksShift(was, td);
      td.next := free;
      free := td;
      idle := [td] + was;
      forall k | 0 <= k < |idle|
        ensures idle[k].next == Link(idle, k)
      {
        if k > 0 {
          assert idle[k] == was[k - 1] && was[k - 1] in was;
        }
      }
    }

    static lemma StillApart(was: seq<TimerData>, td: TimerData)
      requires td !in was && forall i, j :: 0 <= i < j < |was| ==> was[i] != was[j]
      ensures var list := [td] + was; forall i, j :: 0 <= i < j < |list| ==> list[i] != list[j]
    {
    }

    static lemma LinksShift(was: seq<TimerData>, td: TimerData)
      ensures forall k :: 0 <= k < |[td] + was| ==> Link([td] + was, k) == Link(was, k - 1)
    {
    }

    // ---- The heap ----

    ghost predicate Indexed()
      reads `timers, `nodes, timers`index
    {
      forall k :: 0 <= k < |timers| ==> timers[k] in nodes && timers[k].index == k
    }

    method Swap(i: nat, j: nat, ghost n: nat)
      requires i < n && j < n <= |timers| && Indexed()
      modifies `timers, nodes`index
      ensures timers == Swapped(old(timers), i, j) && Dues(timers) == Swapped(old(Dues(timers)), i, j)
      ensures Indexed() && multiset(timers) == multiset(old(timers)) && timers[n..] == old(timers[n..])
      ensures timers[j] == old(timers[i])
    {
      hide Dues;
      ghost var before := Swapped(Dues(timers), i, j);
      timers := timers[i := timers[j]][j := timers[i]];
      timers[i].index := i;
      timers[j].index := j;
      assert forall k :: 0 <= k < |timers| ==> Dues(timers)[k] == before[k];
    }

    method Less(i: nat, j: nat) returns (b: bool)
      requires i < |timers| && j < |timers|
      ensures b <==> Dues(timers)[i] < Dues(timers)[j]
    {
      b := timers[i].expire < timers[j].expire;
    }

    /** Moves entry at up to where it belongs among the first n. */
    method Up(at: nat, ghost n: nat)
      requires at < n <= |timers| && MayRise(Dues(timers), n, at) && Indexed()
      modifies `timers, nodes`index
      ensures |timers| == |old(timers)| && InOrder(Dues(timers), n) && Indexed()
      ensures multiset(timers) == multiset(old(timers)) && timers[n..] == old(timers[n..])
    {
      hide MayRise, InOrder, Swapped, Indexed, Dues;
      var j := at;
      while true
        invariant 0 <= j <= at && |timers| == |old(timers)| && MayRise(Dues(timers), n, j) && Indexed()
        invariant multiset(timers) == multiset(old(timers)) && timers[n..] == old(timers[n..])
        decreases j
      {
        var i := if j == 0 then 0 else (j - 1) / 2;
        if i >= j {
          break;
        }
        var less := Less(j, i);
        if !less {
          break;
        }
        RiseStep(Dues(timers), n, j);
        Swap(i, j, n);
        j := i;
      }
      RiseDone(Dues(timers), n, j);
    }

    /** The child of i to compare with: the one due first. */
    method Child(i: nat, n: nat) returns (j: nat)
      requires n <= |timers| && 2 * i + 1 < n
      ensures i < j < n && Parent(j) == i
      ensures forall k :: 0 < k < n && Parent(k) == i ==> Dues(timers)[j] <= Dues(timers)[k]
    {
      j := 2 * i + 1;
      var j2 := j + 1;
      assert forall k :: 0 < k < n && Parent(k) == i ==> k == j || k == j2;
      if j2 < n {
        var less := Less(j, j2);
        if !less {
          j := j2;
        }
      }
    }

    /** Moves entry at down to where it belongs among the first n. */
    method Down(at: nat, n: nat)
      requires at < n <= |timers| && MaySink(Dues(timers), n, at, at) && Indexed()
      modifies `timers, nodes`index
      ensures |timers| == |old(timers)| && MayRise(Dues(timers), n, at) && Indexed()
      ensures multiset(timers) == multiset(old(timers)) && timers[n..] == old(timers[n..])
    {
      hide MayRise, MaySink, InOrder, Swapped, Indexed, Dues;
      var i := at;
      while true
        invariant at <= i < n && |timers| == |old(timers)| && MaySink(Dues(timers), n, at, i) && Indexed()
        invariant multiset(timers) == multiset(old(timers)) && timers[n..] == old(timers[n..])
        decreases n - i
      {
        if 2 * i + 1 >= n {
          break;
        }
        var j := Child(i, n);
        var less := Less(j, i);
        if !less {
          break;
        }
        SinkStep(Dues(timers), n, at, i, j);
        Swap(i, j, n);
        i := j;
      }
      SinkDone(Dues(timers), n, at, i);
    }

    /** Brings entry i to the end and puts the others in order. */
    method MoveToEnd(i: nat)
      requires i < |timers| && HeapValid()
      modifies `timers, nodes`index
      ensures |timers| == |old(timers)| && Indexed() && InOrder(Dues(timers), |timers| - 1)
      ensures multiset(timers) == multiset(old(timers)) && timers[|timers| - 1] == old(timers[i])
    {
      hide InOrder, MaySink, Indexed, Dues, Swapped;
      var last := |timers| - 1;
      if i == last {
        InOrderWithoutLast(Dues(timers), last);
      } else {
        MoveOther(i, last);
      }
    }

    method MoveOther(i: nat, last: nat)
      requires i < last == |timers| - 1 && Indexed() && InOrder(Dues(timers), last + 1)
      modifies `timers, nodes`index
      ensures |timers| == |old(timers)| && Indexed() && InOrder(Dues(timers), last)
      ensures multiset(timers) == multiset(old(timers)) && timers[last] == old(timers[i])
    {
      hide *;
      LastIntoHole(Dues(timers), i);
      Swap(i, last, last + 1);
      SinkThenRise(i, last);
    }

    method SinkThenRise(i: nat, n: nat)
      requires i < n < |timers| && MaySink(Dues(timers), n, i, i) && Indexed()
      modifies `timers, nodes`index
      ensures |timers| == |old(timers)| && InOrder(Dues(timers), n) && Indexed()
      ensures multiset(timers) == multiset(old(timers)) && timers[n] == old(timers[n])
    {
      hide *;
      ghost var end := timers[n..];
      Down(i, n);
      Up(i, n);
      assert timers[n] == timers[n..][0] == end[0];
    }

    /** Forgets the last entry. */
    method DropLast()
      requires timers != [] && Indexed() && InOrder(Dues(timers), |timers| - 1)
      modifies `timers, nodes`index
      ensures HeapValid() && timers == old(timers[..|timers| - 1]) && old(timers[|timers| - 1]).index == -1
    {
      var last := |timers| - 1;
      timers[last].index := -1;
      timers := timers[..last];
      assert Dues(timers) == old(Dues(timers))[..last];
    }

    /** Takes an entry out of the heap; the guard finds out whether it is in, whatever its index says. */
    method Remove(td: TimerData) returns (ghost wasIn: bool)
      requires HeapValid()
      modifies `timers, nodes`index
      ensures HeapValid() && wasIn == (td in old(timers)) && td !in timers
      ensures !wasIn ==> timers == old(timers) && forall x :: x in nodes ==> x.index == old(x.index)
      ensures wasIn ==> td.index == -1 && multiset(timers) + multiset{td} == multiset(old(timers))
    {
      hide InOrder, Dues;
      var i := td.index;
      wasIn := false;
      if i < 0 || i >= |timers| || timers[i] != td {
        return;
      }
      wasIn := true;
      TakeOut(i);
    }

    /** Takes the entry at i out. */
    method TakeOut(i: nat)
      requires HeapValid() && i < |timers|
      modifies `timers, nodes`index
      ensures HeapValid() && old(timers[i]) !in timers && old(timers[i]).index == -1
      ensures multiset(timers) + multiset{old(timers[i])} == multiset(old(timers))
    {
      hide *;
      HeapIndexed();
      ghost var td := timers[i];
      MoveToEnd(i);
      ghost var all := timers;
      DropLast();
      assert all == timers + [td];
      HeapIndexed();
      NotIndexed(td);
    }

    lemma HeapIndexed()
      requires HeapValid()
      ensures Indexed() && InOrder(Dues(timers), |timers|)
    {
    }

    lemma NotIndexed(td: TimerData)
      requires Indexed() && td.index < 0
      ensures td !in timers
    {
    }

    /** A new last entry, which may have to rise. */
    method Append(td: TimerData)
      requires HeapValid() && td in nodes && td !in timers
      modifies `timers, nodes`index
      ensures timers == old(timers) + [td] && Indexed() && td.index == |timers| - 1
      ensures MayRise(Dues(timers), |timers|, |timers| - 1)
    {
      hide InOrder, MayRise;
      ghost var n, dues := |timers|, Dues(timers);
      td.index := |timers|;
      timers := timers + [td];
      assert Dues(timers)[..n] == dues;
      AppendedMayRise(Dues(timers), n);
    }

    lemma HeadKnown(td: TimerData)
      requires Indexed() && td in multiset(timers)
      ensures timers != [] && (timers[0] == td <==> td.index == 0)
    {
    }

    /** Puts an entry where it belongs in the heap. */
    method Place(td: TimerData)
      requires HeapValid() && td in nodes && td !in timers
      modifies `timers, nodes`index
      ensures HeapValid() && multiset(timers) == multiset(old(timers)) + multiset{td}
      ensures timers != [] && (timers[0] == td <==> td.index == 0)
    {
      hide InOrder, MayRise, Indexed, Dues;
      Append(td);
      ghost var all := timers;
      assert td in all;
      Up(td.index, |timers|);
      HeadKnown(td);
    }

    /** Puts an entry into the heap; if it is due first, the signal is set to it. */
    method Insert(td: TimerData, now: int)
      requires HeapValid() && td in nodes && td !in timers
      modifies `timers, nodes`index, `signal
      ensures HeapValid() && multiset(timers) == multiset(old(timers)) + multiset{td}
      ensures timers != [] && if timers[0] == td then signal == Some(td.expire) else signal == old(signal)
    {
      hide InOrder, Indexed, Dues;
      Place(td);
      if td.index == 0 {
        var delay := td.expire - now;
        signal := Some(now + delay);
      }
    }

    // ---- The heap and the ledger together ----

    lemma HeadIsLeast()
      requires HeapValid() && timers != []
      ensures forall x :: x in timers ==> timers[0].expire <= x.expire
    {
      forall x | x in timers
        ensures timers[0].expire <= x.expire
      {
        var k :| 0 <= k < |timers| && timers[k] == x;
        FirstIsLeast(Dues(timers), |timers|, k);
      }
    }

    /** One entry more or less, in the sequence and as a set. */
    static lemma OneMore(less: seq<TimerData>, more: seq<TimerData>, td: TimerData)
      requires multiset(more) == multiset(less) + multiset{td}
      ensures |more| == |less| + 1 && td in more
      ensures (forall x :: x in more ==> x in less || x == td) && (forall x :: x in less ==> x in more)
    {
      forall x | x in more
        ensures x in less || x == td
      {
        assert x in multiset(more);
      }
      forall x | x in less || x == td
        ensures x in more
      {
        assert x in multiset(more);
      }
      assert |multiset(more)| == |multiset(less)| + 1;
    }

    /** The state between two critical sections, apart from the free list. */
    ghost predicate Running()
      reads `timers, `nodes, timers`index, timers`expire, `ledger, `signal, `parked
    {
      HeapValid() && Kept() && WillWake()
    }

    /** An entry that is out of the heap is given its time and goes in; a parked goroutine will wake for it. */
    method Schedule(td: TimerData, due: int, now: int)
      requires HeapValid() && WillWake() && td in nodes && td !in timers
      modifies td`expire, `timers, nodes`index, `signal
      ensures HeapValid() && WillWake() && td.expire == due
      ensures multiset(timers) == multiset(old(timers)) + multiset{td}
      ensures |timers| == |old(timers)| + 1 && td in timers
      ensures (forall x :: x in timers ==> x in old(timers) || x == td) && forall x :: x in old(timers) ==> x in timers
    {
      hide InOrder, Indexed, Dues;
      if timers != [] {
        HeadIsLeast();
      }
      td.expire := due;
      Insert(td, now);
      OneMore(old(timers), timers, td);
    }

    /** The same, with the ledger. */
    method Activate(td: TimerData, due: int, now: int)
      requires Running() && td in nodes && td !in timers && ledger.clock <= now < due
      modifies td`expire, `timers, nodes`index, `signal, `ledger
      ensures Running() && ledger == Arm(old(ledger), td, due, now) && td.expire == due
      ensures multiset(timers) == multiset(old(timers)) + multiset{td}
      ensures forall x :: x in timers ==> x in old(timers) || x == td
    {
      hide HeapValid, WillWake, Matches, Arm;
      Schedule(td, due, now);
      MatchesArm(old(timers), timers, ledger, td, now);
      ledger := Arm(ledger, td, due, now);
    }

    /** Takes an entry out, if it is in; a parked goroutine may now wake too early, never too late. */
    method Unschedule(td: TimerData) returns (ghost wasIn: bool)
      requires HeapValid() && WillWake()
      modifies `timers, nodes`index
      ensures HeapValid() && WillWake() && wasIn == (td in old(timers)) && td !in timers
      ensures !wasIn ==> timers == old(timers) && td.index == old(td.index)
      ensures wasIn ==>
        td.index == -1 && multiset(timers) + multiset{td} == multiset(old(timers)) && |timers| == |old(timers)| - 1
      ensures (forall x :: x in timers ==> x in old(timers)) && forall x :: x in old(timers) && x != td ==> x in timers
    {
      hide InOrder, Indexed, Dues;
      if timers != [] {
        HeadIsLeast();
      }
      wasIn := Remove(td);
      if wasIn {
        OneMore(timers, old(timers), td);
      }
      assert timers != [] ==> timers[0] in timers;
    }

    /** The same, with the ledger. */
    method Deactivate(td: TimerData, now: int)
      requires Running() && ledger.clock <= now
      modifies `timers, nodes`index, `ledger
      ensures Running() && ledger == Cancel(old(ledger), td, now) && td !in timers
      ensures td in old(timers) ==> multiset(timers) + multiset{td} == multiset(old(timers))
      ensures td !in old(timers) ==> timers == old(timers)
      ensures forall x :: x in timers ==> x in old(timers)
    {
      hide HeapValid, WillWake, Matches, Cancel;
      CancelCounts(ledger, td, now);
      ghost var wasIn := Unschedule(td);
      MatchesCancel(old(timers), timers, ledger, td, now);
      ledger := Cancel(ledger, td, now);
    }

    // ---- What callers and the goroutine do, each under the lock ----

    /** A free entry starts running. */
    method AddEntry(due: int, fn: Option<nat>, now: int) returns (td: TimerData)
      requires Valid() && ledger.clock <= now < due
      modifies this, nodes
      ensures Valid() && old(nodes) <= nodes && fresh(nodes - old(nodes)) && parked == old(parked)
      ensures (td in old(idle) || fresh(td)) && td.fn == fn && ledger == Arm(old(ledger), td, due, now)
      ensures multiset(timers) == multiset(old(timers)) + multiset{td}
    {
      hide Running, FreeValid, Arm;
      td := Get();
      td.fn := fn;
      Activate(td, due, now);
    }

    method Add(d: int, fn: Option<nat>, now: int) returns (td: TimerData?)
      requires Valid() && ledger.clock <= now
      modifies this, nodes
      ensures Valid() && old(nodes) <= nodes && fresh(nodes - old(nodes)) && parked == old(parked)
      ensures d <= 0 ==>
        td == null && timers == old(timers) && idle == old(idle) && ledger == old(ledger) && signal == old(signal)
      ensures d > 0 ==>
        && td != null && (td in old(idle) || fresh(td)) && td.fn == fn
        && ledger == Arm(old(ledger), td, now + d, now)
        && multiset(timers) == multiset(old(timers)) + multiset{td}
    {
      hide *;
      td := null;
      if d <= 0 {
        return;
      }
      td := AddEntry(now + d, fn, now);
    }

    /** An entry stops running, if it was, and is free again. */
    method Discard(td: TimerData, now: int)
      requires Valid() && ledger.clock <= now && td in nodes && td !in idle
      modifies this, nodes
      ensures Valid() && nodes == old(nodes) && parked == old(parked) && signal == old(signal)
      ensures ledger == Cancel(old(ledger), td, now) && idle == [td] + old(idle) && td !in timers && td.fn.None?
      ensures td in old(timers) ==> multiset(timers) + multiset{td} == multiset(old(timers))
      ensures td !in old(timers) ==> timers == old(timers)
    {
      hide FreeValid, HeapValid, Cancel, Sound;
      Deactivate(td, now);
      Put(td);
    }

    /** Cancels a timer and gives its entry back; the caller must not use it again. */
    method Del(td: TimerData?, now: int)
      requires Valid() && ledger.clock <= now && (td != null ==> td in nodes && td !in idle)
      modifies this, nodes
      ensures Valid() && nodes == old(nodes) && parked == old(parked) && signal == old(signal)
      ensures td == null ==> timers == old(timers) && idle == old(idle) && ledger == old(ledger)
      ensures td != null ==>
        && ledger == Cancel(old(ledger), td, now) && idle == [td] + old(idle) && td !in timers && td.fn.None?
        && if td in old(timers) then multiset(timers) + multiset{td} == multiset(old(timers)) else timers == old(timers)
    {
      hide *;
      if td == null {
        return;
      }
      Discard(td, now);
    }

    /** An entry stops running, if it was, and starts again. */
    method Reset(td: TimerData, due: int, now: int)
      requires Valid() && ledger.clock <= now < due && td in nodes && td !in idle
      modifies this, nodes
      ensures Valid() && nodes == old(nodes) && parked == old(parked) && idle == old(idle)
      ensures td.expire == due && td.fn == old(td.fn) && ledger == Arm(Cancel(old(ledger), td, now), td, due, now)
    {
      hide FreeValid, Cancel, Arm, Running;
      CancelCounts(ledger, td, now);
      Deactivate(td, now);
      Activate(td, due, now);
    }

    /** Gives a timer a new time, whether it is running, has fired, or was stopped. */
    method Set(td: TimerData?, d: int, now: int)
      requires Valid() && ledger.clock <= now && (td != null ==> td in nodes && td !in idle)
      modifies this, nodes
      ensures Valid() && nodes == old(nodes) && parked == old(parked) && idle == old(idle)
      ensures td == null || d <= 0 ==> timers == old(timers) && ledger == old(ledger) && signal == old(signal)
      ensures td != null && d > 0 ==>
        && td.expire == now + d && td.fn == old(td.fn)
        && ledger == Arm(Cancel(old(ledger), td, now), td, now + d, now)
    {
      hide *;
      if td == null || d <= 0 {
        return;
      }
      Reset(td, now + d, now);
    }

    /**
     One round of the goroutine's loop in expire: either the first entry is due, and leaves the
     heap with its callback to be run once the lock is dropped; or nothing is due, and the goroutine
     arms the signal and parks.
     */
    method ExpireRound(now: int) returns (td: TimerData?, fn: Option<nat>)
      requires Valid() && !parked && ledger.clock <= now
      modifies this, nodes
      ensures Valid() && nodes == old(nodes) && idle == old(idle)
      ensures td == null ==>
        && parked && timers == old(timers) && ledger == old(ledger)
        && signal == Some(if timers == [] then now + INFINITE else timers[0].expire)
        && forall x :: x in timers ==> now < x.expire
      ensures td != null ==>
        && !parked && td in old(timers) && fn == old(td.fn) && td.expire <= now
        && (forall x :: x in old(timers) ==> td.expire <= x.expire)
        && td in old(ledger).active && ledger == Fire(old(ledger), td, now)
        && multiset(timers) + multiset{td} == multiset(old(timers))
    {
      hide InOrder, Indexed, Dues, FreeValid, Sound;
      td, fn := null, None;
      if |timers| == 0 {
        Park(now, INFINITE);
        return;
      }
      HeadIsLeast();
      var delay := timers[0].expire - now;
      if delay > 0 {
        Park(now, delay);
        return;
      }
      td, fn := timers[0], timers[0].fn;
      FireHead(now);
    }

    /** Arms the signal and waits for it. */
    method Park(now: int, delay: int)
      requires Valid() && (timers != [] ==> delay == timers[0].expire - now)
      modifies `signal, `parked
      ensures Valid() && parked && signal == Some(now + delay)
    {
      hide HeapValid, FreeValid, Sound;
      signal, parked := Some(now + delay), true;
    }

    /** The first entry leaves the heap because it is due. */
    method FireHead(now: int)
      requires Valid() && !parked && ledger.clock <= now && timers != [] && timers[0].expire <= now
      modifies `timers, nodes`index, `ledger
      ensures Valid() && !parked
      ensures old(timers[0]) in old(ledger).active && ledger == Fire(old(ledger), old(timers[0]), now)
      ensures multiset(timers) + multiset{old(timers[0])} == multiset(old(timers))
    {
      hide HeapValid, FreeValid, WillWake, Matches, Fire;
      HeadIsLeast();
      var td := timers[0];
      assert td in timers;
      ghost var wasIn := Unschedule(td);
      MatchesFire(old(timers), timers, ledger, td, now);
      ledger := Fire(ledger, td, now);
    }

    /** The signal goes off. */
    method Wake(now: int)
      requires Valid() && parked && ledger.clock <= now && signal.Some? && signal.value <= now
      modifies `parked, `signal
      ensures Valid() && !parked && timers == old(timers) && ledger == old(ledger)
    {
      hide HeapValid, FreeValid, Sound;
      signal, parked := None, false;
    }

    /** Empties the heap; entries keep whatever index they had. */
    method Stop()
      requires Valid()
      modifies `signal, `timers, `ledger
      ensures Valid() && timers == [] && ledger == CancelAll(old(ledger)) && parked == old(parked)
    {
      hide FreeValid, Matches;
      MatchesCancelAll(timers, ledger);
      signal, timers, ledger := None, [], CancelAll(ledger);
    }

    /** No wake-up is lost: once the first entry is due, the signal of a parked goroutine is due too. */
    lemma NoLostWakeUp(now: int)
      requires Valid() && parked && timers != [] && timers[0].expire <= now
      ensures signal.Some? && signal.value <= now
    {
    }

    /** The guard of del decides membership for every entry, whatever its index says. */
    lemma GuardIsMembership(td: TimerData)
      requires HeapValid()
      ensures td in timers <==> 0 <= td.index < |timers| && timers[td.index] == td
    {
    }
  }

  lemma AppendedMayRise(s: seq<int>, n: nat)
    requires |s| == n + 1 && InOrder(s[..n], n)
    ensures MayRise(s, n + 1, n)
  {
    assert forall k :: 0 <= k < n ==> s[k] == s[..n][k];
  }
}
