/** The pool of write and read buffers: stretches of shared slabs on a linked free list. */
module BufferPool {
  class Buffer {
    /** The stretch of a slab this buffer is. */
    const data: array<bv8>
    const lo: nat
    const hi: nat
    var next: Buffer?

    constructor (data: array<bv8>, lo: nat, hi: nat)
      requires lo <= hi <= data.Length
      ensures this.data == data && this.lo == lo && this.hi == hi && next == null
    {
      this.data, this.lo, this.hi, next := data, lo, hi, null;
    }
  }

  /** The buffer behind position k of a list, if there is one. */
  function Link(list: seq<Buffer>, k: int): Buffer?
    requires -1 <= k < |list|
  {
    if k + 1 < |list| then list[k + 1] else null
  }

  /** No byte belongs to both. */
  predicate Disjoint(a: Buffer, b: Buffer) {
    a.data != b.data || a.hi <= b.lo || b.hi <= a.lo
  }

  /** Every buffer has the given size, and no two share a byte. */
  ghost predicate Apart(bs: set<Buffer>, size: nat) {
    && (forall b :: b in bs ==> b.lo + size == b.hi <= b.data.Length)
    && (forall a, b :: a in bs && b in bs && a != b ==> Disjoint(a, b))
  }

  class Pool {
    var freeList: Buffer?
    const bufNum: nat
    const bufSize: nat
    /** Every buffer ever made; those on the free list in order; those that have been handed out. */
    ghost var made: set<Buffer>
    ghost var idle: seq<Buffer>
    ghost var out: set<Buffer>

    /** The free list, link by link: it ends, and no buffer is on it twice. */
    ghost predicate ListValid()
      reads `freeList, `idle, idle`next
    {
      && freeList == Link(idle, -1)
      && (forall k :: 0 <= k < |idle| ==> idle[k].next == Link(idle, k))
      && (forall i, j :: 0 <= i < j < |idle| ==> idle[i] != idle[j])
    }

    /** Exactly the buffers that are not out are on the free list. */
    ghost predicate Conserved()
      reads `made, `idle, `out
    {
      && (forall b :: b in made ==> b in out || b in idle)
      && (forall b :: b in out ==> b in made)
      && (forall b :: b in idle ==> b in made && b !in out)
    }

    ghost predicate Valid()
      reads this, idle
    {
      0 < bufNum && 0 < bufSize && ListValid() && Conserved() && Apart(made, bufSize)
    }

    /** A pool of positive sizes; the source panics on others. */
    constructor (bufNum: int, bufSize: int)
      requires 0 < bufNum && 0 < bufSize
      ensures Valid() && out == {} && this.bufNum == bufNum && this.bufSize == bufSize
    {
      this.bufNum, this.bufSize := bufNum, bufSize;
      freeList, made, idle, out := null, {}, [], {};
      new;
      Grow();
    }

    static lemma Steps(i: nat, j: nat, size: nat)
      requires i < j
      ensures (i + 1) * size <= j * size && (i + 1) * size == i * size + size
    {
    }

    /** Cuts a new slab into buffers. */
    method Cut() returns (buffers: seq<Buffer>, data: array<bv8>)
      requires 0 < bufNum && 0 < bufSize
      ensures |buffers| == bufNum && fresh(data)
      ensures forall k :: 0 <= k < bufNum ==>
        fresh(buffers[k]) && buffers[k].next == null
        && buffers[k].data == data && buffers[k].lo + bufSize == buffers[k].hi <= data.Length
      ensures forall i, j :: 0 <= i < j < bufNum ==> buffers[i] != buffers[j] && buffers[i].hi <= buffers[j].lo
    {
      data := new bv8[bufNum * bufSize];
      buffers := [];
      while |buffers| < bufNum
        invariant |buffers| <= bufNum
        invariant forall k :: 0 <= k < |buffers| ==>
          fresh(buffers[k]) && buffers[k].next == null
          && buffers[k].data == data && buffers[k].lo + bufSize == buffers[k].hi <= |buffers| * bufSize
        invariant forall i, j :: 0 <= i < j < |buffers| ==> buffers[i] != buffers[j] && buffers[i].hi <= buffers[j].lo
        invariant |buffers| * bufSize <= data.Length
      {
        var i := |buffers|;
        Steps(i, bufNum, bufSize);
        var b := new Buffer(data, i * bufSize, (i + 1) * bufSize);
        buffers := buffers + [b];
      }
    }

    /** Links new buffers in order. */
    method LinkUp(buffers: seq<Buffer>)
      requires buffers != [] && forall k :: 0 <= k < |buffers| ==> buffers[k].next == null
      requires forall i, j :: 0 <= i < j < |buffers| ==> buffers[i] != buffers[j]
      modifies set b | b in buffers
      ensures forall k :: 0 <= k < |buffers| ==> buffers[k].next == Link(buffers, k)
    {
      for i := 0 to |buffers| - 1
        invariant forall k :: 0 <= k < i ==> buffers[k].next == Link(buffers, k)
        invariant forall k :: i <= k < |buffers| ==> buffers[k].next == null
      {
        buffers[i].next := buffers[i + 1];
      }
    }

    /** New buffers on a new slab are apart from each other and from all older ones. */
    lemma AddApart(older: set<Buffer>, buffers: seq<Buffer>, data: array<bv8>)
      requires Apart(older, bufSize) && forall b :: b in older ==> b.data != data
      requires forall k :: 0 <= k < |buffers| ==>
        buffers[k].data == data && buffers[k].lo + bufSize == buffers[k].hi <= data.Length
      requires forall i, j :: 0 <= i < j < |buffers| ==> buffers[i].hi <= buffers[j].lo
      ensures Apart(older + (set b | b in buffers), bufSize)
    {
      var all := older + set b | b in buffers;
      forall a, b | a in all && b in all && a != b
        ensures Disjoint(a, b)
      {
        if a in buffers && b in buffers {
          var i :| 0 <= i < |buffers| && buffers[i] == a;
          var j :| 0 <= j < |buffers| && buffers[j] == b;
          if i < j {
            assert buffers[i].hi <= buffers[j].lo;
          } else {
            assert buffers[j].hi <= buffers[i].lo;
          }
        }
      }
    }

    /** A batch of new buffers, linked, and apart from all older ones. */
    method Batch(ghost older: set<Buffer>) returns (buffers: seq<Buffer>)
      requires 0 < bufNum && 0 < bufSize && Apart(older, bufSize)
      ensures |buffers| == bufNum && forall b :: b in buffers ==> fresh(b)
      ensures forall k :: 0 <= k < |buffers| ==> buffers[k].next == Link(buffers, k)
      ensures forall i, j :: 0 <= i < j < bufNum ==> buffers[i] != buffers[j]
      ensures Apart(older + (set b | b in buffers), bufSize)
    {
      hide Apart;
      var data;
      buffers, data := Cut();
      assert forall b :: b in older ==> b.data != data;
      AddApart(older, buffers, data);
      LinkUp(buffers);
    }

    /** A new slab's buffers become the free list. */
    method Grow()
      requires 0 < bufNum && 0 < bufSize && freeList == null && idle == [] && Conserved() && Apart(made, bufSize)
      modifies `freeList, `made, `idle
      ensures Valid() && idle != [] && out == old(out)
      ensures old(made) <= made && forall b :: b in idle ==> fresh(b)
    {
      hide Apart;
      var buffers := Batch(made);
      freeList, idle := buffers[0], buffers;
      made := made + set b | b in buffers;
    }

    /** A buffer nobody else has. */
    method Get() returns (b: Buffer)
      requires Valid()
      modifies this, idle
      ensures Valid() && b.next == null && b.hi - b.lo == bufSize
      ensures b !in old(out) && out == old(out) + {b} && (b in old(idle) || fresh(b))
      ensures old(made) <= made && (old(idle) != [] ==> made == old(made) && idle == old(idle[1..]))
      ensures forall c :: c in old(out) ==> Disjoint(b, c)
    {
      if freeList == null {
        Grow();
      }
      ghost var was := idle;
      assert freeList == idle[0] && idle[0] in idle && (idle[0] in old(idle) || fresh(idle[0]));
      b := freeList;
      freeList := b.next;
      b.next := null;
      idle, out := idle[1..], out + {b};
      assert forall k :: 0 <= k < |idle| ==> idle[k] == was[k + 1] && was[k + 1] != was[0];
      assert forall k :: -1 <= k < |idle| ==> Link(idle, k) == Link(was, k + 1);
    }

    /** A buffer that was handed out comes back. */
    method Put(b: Buffer?)
      requires Valid() && (b != null ==> b in out)
      modifies `freeList, `idle, `out, b
      ensures Valid() && made == old(made)
      ensures b == null ==> idle == old(idle) && out == old(out)
      ensures b != null ==> idle == [b] + old(idle) && out == old(out) - {b}
    {
      if b == null {
        return;
      }
      ghost var was := idle;
      assert forall k :: 0 <= k < |was| ==> was[k].next == Link(was, k);
      b.next := freeList;
      freeList := b;
      idle, out := [b] + was, out - {b};
      forall k | 0 <= k < |idle|
        ensures idle[k].next == Link(idle, k)
        ensures k > 0 ==> idle[k] != b
      {
        if k > 0 {
          assert idle[k] == was[k - 1] && was[k - 1] in was && was[k - 1].next == Link(was, k - 1);
        }
      }
    }
  }
}
