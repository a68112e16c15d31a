/** The decompression dictionary (RFC 7692, section 7.1.1): the end of everything decompressed so far. */
module SlidingWindow {
  import opened Seqs

  /** The last n bytes, or all of them. */
  function LastBytes(s: seq<bv8>, n: nat): (r: seq<bv8>)
    ensures |r| == if |s| < n then |s| else n
  {
    if |s| < n then s else s[|s| - n..]
  }

  /** What comes before the last n bytes, and they, are all of it. */
  lemma LastAreLast(s: seq<bv8>, n: nat) returns (front: seq<bv8>)
    ensures s == front + LastBytes(s, n) && (front != [] ==> |LastBytes(s, n)| == n)
  {
    front := s[..|s| - |LastBytes(s, n)|];
  }

  /** Keeping only the last n bytes in between loses nothing of the last n bytes in the end. */
  lemma LastOfLast(s: seq<bv8>, p: seq<bv8>, n: nat)
    ensures LastBytes(LastBytes(s, n) + p, n) == LastBytes(s + p, n)
  {
    if |s| >= n {
      assert s + p == s[..|s| - n] + (LastBytes(s, n) + p);
    }
  }

  class SlidingWindow {
    var buf: array<bv8>
    var length: nat
    /** Everything written since the window was last empty. */
    ghost var written: seq<bv8>

    ghost predicate Valid()
      reads this, buf
    {
      && 0 < buf.Length && length <= buf.Length
      && buf[..length] == LastBytes(written, buf.Length)
    }

    constructor (n: nat)
      ensures Valid() && written == [] && fresh(buf)
      ensures buf.Length == if n == 0 then 32768 else n
    {
      buf := new bv8[if n == 0 then 32768 else n];
      length, written := 0, [];
    }

    /** Moves the bytes behind from to the front; the two stretches may overlap. */
    method Shift(from: nat)
      requires from <= length <= buf.Length
      modifies buf, `length
      ensures length == old(length) - from && buf[..length] == old(buf[from..length])
    {
      forall i | 0 <= i < length - from {
        buf[i] := buf[from + i];
      }
      length := length - from;
    }

    /** A piece that fills the window by itself. */
    method Replace(p: seq<bv8>)
      requires Valid() && |p| >= buf.Length
      modifies buf, `length, `written
      ensures Valid() && written == old(written) + p && length == buf.Length
    {
      length := buf.Length;
      written := written + p;
      assert written[|written| - buf.Length..] == p[|p| - buf.Length..];
      Paste(buf, 0, p[|p| - buf.Length..]);
    }

    method Write(p: seq<bv8>)
      requires Valid()
      modifies buf, `length, `written
      ensures Valid() && written == old(written) + p
      ensures buf[..length] == LastBytes(old(written) + p, buf.Length)
    {
      if |p| >= buf.Length {
        Replace(p);
        return;
      }
      ghost var before := buf[..length];
      LastOfLast(written, p, buf.Length);
      var left := buf.Length - length;
      if left < |p| {
        Shift(|p| - left);
      }
      assert buf[..length] + p == LastBytes(before + p, buf.Length);
      Append(p);
    }

    /** A piece that fits behind what is kept. */
    method Append(p: seq<bv8>)
      requires 0 < buf.Length && length + |p| <= buf.Length && buf[..length] + p == LastBytes(written + p, buf.Length)
      modifies buf, `length, `written
      ensures Valid() && written == old(written) + p
    {
      hide LastBytes;
      ghost var kept := buf[..length];
      Paste(buf, length, p);
      length := length + |p|;
      assert buf[..length] == kept + p;
      written := written + p;
    }

    /** What the next compressed message is decompressed with. */
    method Dictionary() returns (d: seq<bv8>)
      requires Valid()
      ensures d == LastBytes(written, buf.Length)
    {
      d := buf[..length];
    }

    /** Back to the pool, to be reused empty. */
    method Close()
      requires Valid()
      modifies `length, `written
      ensures Valid() && written == [] && length == 0
    {
      length, written := 0, [];
    }

    /** The pieces a message is read in do not matter, only what they add up to. */
    method WriteAll(pieces: seq<seq<bv8>>)
      requires Valid()
      modifies buf, `length, `written
      ensures Valid() && written == old(written) + Joined(pieces)
      ensures buf[..length] == LastBytes(old(written) + Joined(pieces), buf.Length)
    {
      var i := 0;
      assert written + Joined(pieces[..0]) == written;
      while i < |pieces|
        invariant i <= |pieces| && Valid() && buf == old(buf) && written == old(written) + Joined(pieces[..i])
      {
        Write(pieces[i]);
        JoinedSnoc(pieces[..i], pieces[i]);
        assert pieces[..i + 1] == pieces[..i] + [pieces[i]];
        Assoc(old(written), Joined(pieces[..i]), pieces[i]);
        i := i + 1;
      }
      assert pieces[..|pieces|] == pieces;
    }
  }
}
