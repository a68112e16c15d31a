/** The buffered writer, over a sink with arbitrary short writes and errors. */
module BufioWriter {
  import opened Wrappers
  import opened Seqs

  /**
   An io.Writer. A call may take any prefix and may fail at any point; a call that takes nothing
   of a non-empty argument reports an error.
   */
  class Sink<T> {
    var wire: seq<T>
    /** How many calls have failed or fallen short. */
    ghost var faults: nat

    constructor ()
      ensures wire == []
    {
      wire, faults := [], 0;
    }

    method Write(p: seq<T>) returns (n: nat, err: Option<Error>)
      modifies this
      ensures n <= |p| && wire == old(wire) + p[..n]
      ensures n == 0 < |p| ==> err.Some?
      ensures faults == old(faults) + if err.Some? || n < |p| then 1 else 0
    {
      n :| n <= |p|;
      var code: int := *;
      var fails: bool := *;
      err := if fails || n == 0 then Some(IO(code)) else None;
      wire := wire + p[..n];
      if err.Some? || n < |p| {
        faults := faults + 1;
      }
    }
  }

  /** What a caller may ask of a Writer. */
  datatype Op<T> = WriteOp(p: seq<T>) | WriteByteOp(b: T) | FlushOp

  /**
   The buffer is slab[base..base + size]. A pooled buffer is a slice of a larger slab, and its
   capacity reaches to the end of that slab.
   */
  class Writer<T> {
    var err: Option<Error>
    var bufferedLen: nat
    const slab: array<T>
    const base: nat
    const size: nat
    const sink: Sink<T>

    constructor (sink: Sink<T>, slab: array<T>, base: nat, size: nat)
      requires 0 < size && base + size <= slab.Length
      ensures Valid() && err.None? && bufferedLen == 0
      ensures this.sink == sink && this.slab == slab && this.base == base && this.size == size
    {
      this.sink, this.slab, this.base, this.size := sink, slab, base, size;
      err, bufferedLen := None, 0;
    }

    ghost predicate Valid()
      reads this
    {
      0 < size && base + size <= slab.Length && bufferedLen <= size
    }

    /** The bytes accepted and not yet handed to the sink. */
    ghost function Pending(): (s: seq<T>)
      requires Valid()
      reads this, slab
      ensures |s| == bufferedLen
    {
      slab[base..base + bufferedLen]
    }

    /** What the peer will have received once everything pending is flushed. */
    ghost function Stream(): seq<T>
      requires Valid()
      reads this, slab, sink
    {
      sink.wire + Pending()
    }

    /** The slab outside this writer's own range. */
    ghost function Outside(): (seq<T>, seq<T>)
      requires Valid()
      reads this, slab
    {
      (slab[..base], slab[base + size..])
    }

    function Available(): nat
      requires Valid()
      reads this
    {
      size - bufferedLen
    }

    function Buffered(): nat
      reads this
    {
      bufferedLen
    }

    /** copy(w.buffer[at:], p) for a p that fits. */
    method CopyIn(at: nat, p: seq<T>)
      requires Valid() && at + |p| <= size
      modifies slab
      ensures slab[base + at..base + at + |p|] == p
      ensures slab[base..base + at] == old(slab[base..base + at])
      ensures Outside() == old(Outside())
    {
      forall i | 0 <= i < |p| {
        slab[base + at + i] := p[i];
      }
      assert slab[..base] == old(slab[..base]) && slab[base + size..] == old(slab[base + size..]);
    }

    /** Buffers a p that fits. */
    method Append(p: seq<T>)
      requires Valid() && |p| <= Available()
      modifies this`bufferedLen, slab
      ensures Valid() && Outside() == old(Outside()) && bufferedLen == old(bufferedLen) + |p|
      ensures Pending() == old(Pending()) + p && Stream() == old(Stream()) + p
    {
      CopyIn(bufferedLen, p);
      assert slab[base..base + bufferedLen + |p|]
          == slab[base..base + bufferedLen] + slab[base + bufferedLen..base + bufferedLen + |p|];
      bufferedLen := bufferedLen + |p|;
      assert base + old(bufferedLen) + |p| == base + bufferedLen;
      Assoc(sink.wire, old(Pending()), p);
    }

    /** Hands the buffer to the sink; what a short write leaves over moves to the front. */
    method FlushBuffer() returns (e: Option<Error>)
      requires Valid() && err.None?
      modifies this, slab, sink
      ensures Valid() && Stream() == old(Stream()) && Outside() == old(Outside())
      ensures old(sink.wire) <= sink.wire
      ensures e.None? ==> bufferedLen == 0 && sink.wire == old(Stream())
      ensures e == err
      ensures sink.faults == old(sink.faults) + if e.Some? then 1 else 0
    {
      ghost var wire, pending := sink.wire, Pending();
      if bufferedLen == 0 {
        assert wire + pending == wire;
        return err;
      }
      var n;
      n, e := sink.Write(slab[base..base + bufferedLen]);
      if n < bufferedLen && e.None? {
        e := Some(ShortWrite);
      }
      if e.Some? {
        KeepRest(n);
        err := e;
      } else {
        bufferedLen := 0;
      }
      assert Pending() == pending[n..];
      Rejoin(wire, pending, n);
    }

    static lemma Rejoin(wire: seq<T>, pending: seq<T>, n: nat)
      requires n <= |pending|
      ensures wire + pending[..n] + pending[n..] == wire + pending
      ensures n == |pending| ==> wire + pending[..n] == wire + pending
    {
    }

    /** Drops the n bytes the sink took from the front of the buffer. */
    method KeepRest(n: nat)
      requires Valid() && n <= bufferedLen
      modifies this`bufferedLen, slab
      ensures Valid() && Pending() == old(Pending())[n..] && Outside() == old(Outside())
    {
      var left := slab[base + n..base + bufferedLen];
      assert left == Pending()[n..];
      if 0 < n < bufferedLen {
        CopyIn(0, left);
      }
      bufferedLen := bufferedLen - n;
    }

    /** A pending error is returned and cleared; nothing is written then. */
    method Flush() returns (e: Option<Error>)
      requires Valid()
      modifies this, slab, sink
      ensures Valid() && Stream() == old(Stream()) && Outside() == old(Outside())
      ensures old(sink.wire) <= sink.wire
      ensures old(err).Some? ==>
        e == old(err) && err.None? && sink.wire == old(sink.wire) && bufferedLen == old(bufferedLen)
      ensures old(err).None? ==> e == err && (e.None? ==> bufferedLen == 0 && sink.wire == old(Stream()))
      ensures sink.faults == old(sink.faults) + if old(err).None? && e.Some? then 1 else 0
    {
      if err.Some? {
        e := err;
        err := None;
        return;
      }
      e := FlushBuffer();
    }

    /** One round of Write's loop: a large write with an empty buffer, or fill the buffer and flush it. */
    method WriteRound(p: seq<T>) returns (n: nat)
      requires Valid() && |p| > Available() && err.None?
      modifies this, slab, sink
      ensures Valid() && Outside() == old(Outside())
      ensures n <= |p| && Stream() == old(Stream()) + p[..n]
      ensures old(sink.wire) <= sink.wire
      ensures err.None? ==> bufferedLen == 0 && (old(bufferedLen) == 0 ==> n > 0)
      ensures err.Some? && |p| <= size ==> n < |p|
      ensures sink.faults >= old(sink.faults) && (err.Some? ==> sink.faults > old(sink.faults))
    {
      if bufferedLen == 0 {
        n, err := sink.Write(p);
        return;
      }
      n := size - bufferedLen;
      Append(p[..n]);
      assert Stream() == old(Stream()) + p[..n];
      var _ := FlushBuffer();
    }

    /**
     Accepts nn bytes of p. What fits goes to the buffer and to nowhere else; an error stays
     until a Flush reports it.
     */
    method Write(p: seq<T>) returns (nn: nat, e: Option<Error>)
      requires Valid()
      modifies this, slab, sink
      ensures Valid() && Outside() == old(Outside())
      ensures nn <= |p| && Stream() == old(Stream()) + p[..nn]
      ensures old(sink.wire) <= sink.wire
      ensures e == err && (e.None? ==> nn == |p|)
      ensures e.Some? && 0 < |p| <= size ==> nn < |p|
      ensures old(err).Some? ==> nn == 0 && e == old(err) && sink.wire == old(sink.wire)
      ensures old(err).None? && |p| <= old(Available()) ==>
        && e.None? && sink.wire == old(sink.wire) && Pending() == old(Pending()) + p
        && bufferedLen == old(bufferedLen) + |p| && sink.faults == old(sink.faults)
      ensures sink.faults >= old(sink.faults)
      ensures old(err).None? && e.Some? ==> sink.faults > old(sink.faults)
    {
      hide Stream, Pending, Outside;
      nn := 0;
      var rest := p;
      while |rest| > Available() && err.None?
        invariant Valid() && Outside() == old(Outside())
        invariant nn <= |p| && rest == p[nn..] && Stream() == old(Stream()) + p[..nn]
        invariant old(sink.wire) <= sink.wire
        invariant err.Some? && 0 < |p| <= size ==> nn < |p|
        invariant old(err).Some? ==> err == old(err) && nn == 0 && sink.wire == old(sink.wire)
        invariant old(err).None? && |p| <= old(Available()) ==>
          && nn == 0 && err.None? && sink.wire == old(sink.wire) && Pending() == old(Pending())
          && bufferedLen == old(bufferedLen) && sink.faults == old(sink.faults)
        invariant sink.faults >= old(sink.faults)
        invariant old(err).None? && err.Some? ==> sink.faults > old(sink.faults)
        decreases |rest|, bufferedLen, if err.None? then 1 else 0
      {
        var n := WriteRound(rest);
        assert p[..nn + n] == p[..nn] + rest[..n];
        Assoc(old(Stream()), p[..nn], rest[..n]);
        nn := nn + n;
        rest := rest[n..];
        if err.Some? {
          return nn, err;
        }
      }
      if err.Some? {
        return nn, err;
      }
      Append(rest);
      assert p[..nn + |rest|] == p[..nn] + rest;
      Assoc(old(Stream()), p[..nn], rest);
      return nn + |rest|, None;
    }

    /** A single byte is accepted exactly when no error is reported. */
    method WriteByte(b: T) returns (e: Option<Error>)
      requires Valid()
      modifies this, slab, sink
      ensures Valid() && Outside() == old(Outside())
      ensures Stream() == old(Stream()) + (if e.None? then [b] else [])
      ensures old(sink.wire) <= sink.wire && e == err
      ensures old(err).Some? ==> e == old(err) && sink.wire == old(sink.wire)
      ensures sink.faults >= old(sink.faults)
      ensures old(err).None? && e.Some? ==> sink.faults > old(sink.faults)
    {
      var nn;
      nn, e := Write([b]);
      assert [b][..1] == [b] && [b][..0] == [];
    }

    /**
     Any sequence of operations: sink and buffer together hold exactly the bytes reported as
     accepted, in order.
     */
    method Perform(ops: seq<Op<T>>) returns (accepted: seq<T>)
      requires Valid()
      modifies this, slab, sink
      ensures Valid() && Stream() == old(Stream()) + accepted
      ensures Outside() == old(Outside()) && old(sink.wire) <= sink.wire
    {
      accepted := [];
      for i := 0 to |ops|
        invariant Valid() && Stream() == old(Stream()) + accepted
        invariant Outside() == old(Outside()) && old(sink.wire) <= sink.wire
      {
        match ops[i]
        case WriteOp(p) =>
          var nn, _ := Write(p);
          accepted := accepted + p[..nn];
        case WriteByteOp(b) =>
          var e := WriteByte(b);
          accepted := accepted + (if e.None? then [b] else []);
        case FlushOp =>
          var _ := Flush();
      }
    }
  }
}
