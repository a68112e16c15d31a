/** The buffered reader, over a source with arbitrary short reads and errors. */
module BufioReader {
  import opened Wrappers
  import opened Seqs

  /** What one call of the source does: how many bytes it delivers at most, and its error. */
  datatype Step = Step(limit: nat, err: Option<Error>)

  /**
   An io.Reader that delivers data in order. The script says what each call does: any number of
   bytes, an error with or without them, or neither. After the script the peer has hung up.
   */
  class Source<T> {
    const data: seq<T>
    var pos: nat
    var script: seq<Step>
    /** How many calls in a row, up to now, have brought neither bytes nor an error. */
    ghost var idle: nat
    /** The errors it has reported so far, among them NoProgress once it has been idle a hundred times in a row. */
    ghost var reported: set<Error>

    constructor (data: seq<T>, script: seq<Step>)
      ensures Valid() && this.data == data && pos == 0 && this.script == script && reported == {} && idle == 0
    {
      this.data, pos, this.script, reported, idle := data, 0, script, {}, 0;
    }

    ghost predicate Valid()
      reads this
    {
      pos <= |data|
    }

    /** The next call delivers nothing but the end of the stream. */
    ghost predicate NextIsEof()
      reads this
    {
      script == [] || (script[0].err == Some(EOF) && (script[0].limit == 0 || pos == |data|))
    }

    method Read(b: array<T>, lo: nat, hi: nat) returns (n: nat, err: Option<Error>)
      requires Valid() && lo <= hi <= b.Length
      modifies this, b
      ensures Valid() && n <= hi - lo && pos == old(pos) + n
      ensures b[lo..lo + n] == data[old(pos)..pos]
      ensures b[..lo] == old(b[..lo]) && b[lo + n..] == old(b[lo + n..])
      ensures old(script) == [] ==> n == 0 && err == Some(EOF) && script == []
      ensures idle == if n == 0 && err.None? then old(idle) + 1 else 0
      ensures reported == old(reported) + (if err.Some? then {err.value} else {})
                                        + (if idle >= 100 then {NoProgress} else {})
      ensures old(script) != [] ==>
        && script == old(script)[1..] && err == old(script)[0].err
        && n == Min(old(script)[0].limit, Min(hi - lo, |data| - old(pos)))
    {
      if script == [] {
        reported, idle := reported + {EOF}, 0;
        return 0, Some(EOF);
      }
      n := Min(script[0].limit, Min(hi - lo, |data| - pos));
      err := script[0].err;
      idle := if n == 0 && err.None? then idle + 1 else 0;
      reported := reported + (if err.Some? then {err.value} else {})
                           + (if idle >= MAX_CONSECUTIVE_EMPTY_READS then {NoProgress} else {});
      script := script[1..];
      Paste(b, lo, data[pos..pos + n]);
      pos := pos + n;
    }
  }

  const MAX_CONSECUTIVE_EMPTY_READS: nat := 100

  class Reader<T(==,0)> {
    const buffer: array<T>
    const source: Source<T>
    var readPos: nat
    var writePos: nat
    var err: Option<Error>

    constructor (source: Source<T>, buffer: array<T>)
      requires source.Valid() && buffer.Length > 0
      ensures Valid() && err.None? && Buffered() == 0 && Pos() == source.pos
      ensures this.source == source && this.buffer == buffer
    {
      this.source, this.buffer := source, buffer;
      readPos, writePos, err := 0, 0, None;
    }

    /** The buffer holds the stretch of the stream between what was consumed and what was taken. */
    ghost predicate Valid()
      reads this, source, buffer
    {
      && 0 < buffer.Length && readPos <= writePos <= buffer.Length
      && source.Valid() && writePos - readPos <= source.pos
      && buffer[readPos..writePos] == source.data[Pos()..source.pos]
      && Known(err)
    }

    /** If there is an error, the source has reported it. */
    ghost predicate Known(e: Option<Error>)
      reads source`reported
    {
      e.Some? ==> e.value in source.reported
    }

    function Buffered(): nat
      requires readPos <= writePos
      reads this
    {
      writePos - readPos
    }

    /** Everything has been consumed, and the end of the stream comes next. */
    ghost predicate HungUp()
      reads this, source
    {
      readPos == writePos && (err == Some(EOF) || (err.None? && source.NextIsEof()))
    }

    /** The source has nothing more to give. */
    ghost predicate Ended()
      reads this, source
    {
      source.script == [] && err in {None, Some(EOF)}
    }

    /** How much of the stream the callers have consumed. */
    ghost function Pos(): nat
      requires readPos <= writePos && writePos - readPos <= source.pos
      reads this, source
    {
      source.pos - (writePos - readPos)
    }

    /** The first half of fillBuffer: what is buffered moves to the front. */
    method Slide()
      requires Valid()
      modifies this`readPos, this`writePos, buffer
      ensures Valid() && Pos() == old(Pos()) && Buffered() == old(Buffered()) && readPos == 0
    {
      if readPos > 0 {
        var kept := buffer[readPos..writePos];
        forall i | 0 <= i < |kept| {
          buffer[i] := kept[i];
        }
        assert buffer[..|kept|] == kept;
        writePos := writePos - readPos;
        readPos := 0;
      }
    }

    /** One call of the source, appended to the buffer. */
    method Fetch() returns (n: nat, e: Option<Error>)
      requires Valid() && writePos < buffer.Length
      modifies this`writePos, source, buffer
      ensures Valid() && Pos() == old(Pos()) && writePos == old(writePos) + n && |source.script| <= |old(source.script)|
      ensures (old(source.NextIsEof()) ==> n == 0 && e == Some(EOF)) && Known(e)
      ensures source.idle == if n == 0 && e.None? then old(source.idle) + 1 else 0
      ensures source.idle >= MAX_CONSECUTIVE_EMPTY_READS ==> NoProgress in source.reported
      ensures |source.script| >= |old(source.script)| - 1
      ensures old(source.script) == [] ==> source.script == []
      ensures old(source.script) != [] ==>
        && source.script == old(source.script)[1..] && e == old(source.script)[0].err
        && n == Min(old(source.script)[0].limit, Min(buffer.Length - old(writePos), |source.data| - old(source.pos)))
    {
      ghost var before, at := buffer[readPos..writePos], source.pos;
      n, e := source.Read(buffer, writePos, buffer.Length);
      assert buffer[readPos..writePos] == buffer[..writePos][readPos..] == old(buffer[..writePos])[readPos..] == before;
      assert buffer[readPos..writePos + n] == before + source.data[at..source.pos];
      writePos := writePos + n;
      assert source.data[Pos()..source.pos] == source.data[Pos()..at] + source.data[at..source.pos];
    }

    /** How many bytes the source's next call brings into the buffer. */
    ghost function Arriving(): nat
      requires Valid() && source.script != []
      reads this, source, buffer
    {
      Min(source.script[0].limit, Min(buffer.Length - Buffered(), |source.data| - source.pos))
    }

    /** The source's next call brings bytes, or an error. */
    ghost predicate Decisive()
      requires Valid()
      reads this, source, buffer
    {
      source.script != [] && (Arriving() > 0 || source.script[0].err.Some?)
    }

    /**
     Slides what is buffered to the front and reads one chunk behind it. A full buffer would
     panic; every caller rules that out.
     */
    method FillBuffer()
      requires Valid() && Buffered() < buffer.Length
      modifies this, source, buffer
      ensures Valid() && Pos() == old(Pos()) && Buffered() >= old(Buffered()) && |source.script| <= |old(source.script)|
      ensures Buffered() > old(Buffered()) || err.Some?
      ensures |source.script| >= |old(source.script)| - 100
      ensures err == old(err) || err.Some?
      ensures old(source.NextIsEof()) ==> err == Some(EOF) && Buffered() == old(Buffered())
      ensures old(Ended()) ==> Ended()
      ensures old(Decisive()) ==>
        && source.script == old(source.script)[1..] && Buffered() == old(Buffered() + Arriving())
        && err == if old(source.script)[0].err.Some? then old(source.script)[0].err else old(err)
    {
      Slide();
      var i := MAX_CONSECUTIVE_EMPTY_READS;
      while i > 0
        invariant Valid() && Pos() == old(Pos()) && Buffered() == old(Buffered())
        invariant readPos == 0 && writePos < buffer.Length && err == old(err) && |source.script| <= |old(source.script)|
        invariant 0 <= i <= MAX_CONSECUTIVE_EMPTY_READS <= source.idle + i
        invariant |source.script| >= |old(source.script)| - (MAX_CONSECUTIVE_EMPTY_READS - i)
        invariant i == 0 ==> NoProgress in source.reported
        invariant old(source.NextIsEof()) || old(Decisive()) ==>
          i == MAX_CONSECUTIVE_EMPTY_READS && source.script == old(source.script) && source.pos == old(source.pos)
      {
        var n, e := Fetch();
        if e.Some? {
          err := e;
          return;
        }
        if n > 0 {
          return;
        }
        i := i - 1;
      }
      err := Some(NoProgress);
    }

    method ConsumeError() returns (e: Option<Error>)
      modifies this`err
      ensures e == old(err) && err.None?
    {
      e := err;
      err := None;
    }

    /** Advances over n buffered bytes. */
    method Advance(n: nat)
      requires Valid() && n <= Buffered()
      modifies this`readPos
      ensures Valid() && Pos() == old(Pos()) + n && Buffered() == old(Buffered()) - n
    {
      assert buffer[readPos + n..writePos] == buffer[readPos..writePos][n..];
      assert source.data[Pos() + n..source.pos] == source.data[Pos()..source.pos][n..];
      readPos := readPos + n;
    }

    /** Consumes the next n buffered bytes. */
    method Take(n: nat) returns (line: seq<T>)
      requires Valid() && n <= Buffered()
      modifies this`readPos
      ensures Valid() && Pos() == old(Pos()) + n && Pos() <= |source.data| && Buffered() == old(Buffered()) - n
      ensures line == source.data[old(Pos())..Pos()] == old(buffer[readPos..writePos])[..n]
    {
      BufferedIsStream(n);
      line := buffer[readPos..readPos + n];
      Advance(n);
    }

    /** The next n buffered bytes are the next n bytes of the stream. */
    lemma BufferedIsStream(n: nat)
      requires Valid() && n <= Buffered()
      ensures Pos() + n <= |source.data|
      ensures buffer[readPos..readPos + n] == source.data[Pos()..Pos() + n] == buffer[readPos..writePos][..n]
    {
      assert buffer[readPos..readPos + n] == buffer[readPos..writePos][..n];
      assert source.data[Pos()..Pos() + n] == source.data[Pos()..source.pos][..n];
    }

    /**
     Shows the next bytes and consumes nothing. Fewer than n bytes come with an error, and then
     they are all that is buffered.
     */
    method Peek(n: int) returns (d: seq<T>, e: Option<Error>)
      requires Valid()
      modifies this, source, buffer
      ensures Valid() && Pos() == old(Pos())
      ensures Pos() + |d| <= |source.data| && d == source.data[Pos()..Pos() + |d|] && |d| <= Buffered()
      ensures n < 0 ==> d == [] && e == Some(NegativeCount)
      ensures n > buffer.Length ==> d == [] && e == Some(BufferFull)
      ensures 0 <= n <= buffer.Length ==>
        |d| <= n && (e.None? <==> |d| == n) && (e.Some? ==> |d| == Buffered() && err.None? && Known(e))
      ensures 0 <= n <= buffer.Length && (n <= old(Buffered()) || old(err).Some?) ==>
        && Buffered() == old(Buffered()) && source.script == old(source.script) && (e.None? <==> n <= old(Buffered()))
        && (e.Some? ==> e == old(err)) && (e.None? ==> err == old(err))
    {
      if n < 0 {
        return [], Some(NegativeCount);
      }
      if n > buffer.Length {
        return [], Some(BufferFull);
      }
      while Buffered() < n && err.None?
        invariant Valid() && Pos() == old(Pos())
        invariant n <= old(Buffered()) || old(err).Some? ==>
          Buffered() == old(Buffered()) && err == old(err) && source.script == old(source.script)
        decreases n - Buffered(), if err.None? then 1 else 0
      {
        FillBuffer();
      }
      var k := n;
      e := None;
      if Buffered() < n {
        k := Buffered();
        e := ConsumeError();
        if e.None? {
          e := Some(BufferFull);
        }
      }
      BufferedIsStream(k);
      d := buffer[readPos..readPos + k];
    }

    /**
     Peek, and on success consume what was shown. On an error nothing is consumed or shown: the
     buffered bytes, fewer than asked for, stay unread, and the error before which they came is gone.
     With an error pending beforehand, that happens exactly if fewer bytes are buffered than asked for.
     */
    method Pop(n: int) returns (d: seq<T>, e: Option<Error>)
      requires Valid()
      modifies this, source, buffer
      ensures Valid() && Pos() == old(Pos()) + |d|
      ensures Pos() <= |source.data| && d == source.data[old(Pos())..Pos()]
      ensures e.None? ==> |d| == n
      ensures e.Some? ==> d == []
      ensures n < 0 ==> e == Some(NegativeCount)
      ensures n > buffer.Length ==> e == Some(BufferFull)
      ensures 0 <= n <= buffer.Length && e.Some? ==> Known(e) && err.None? && Buffered() < n
      ensures 0 <= n <= buffer.Length && (n <= old(Buffered()) || old(err).Some?) ==>
        && (e.Some? <==> old(Buffered()) < n)
        && (e.Some? ==> e == old(err) && Buffered() == old(Buffered()))
    {
      d, e := Peek(n);
      if e.None? {
        Advance(n);
        return;
      }
      return [], e;
    }

    /** Skips up to n bytes; an error means the buffer has run dry before that. */
    method Discard(n: int) returns (discarded: nat, e: Option<Error>)
      requires Valid()
      modifies this, source, buffer
      ensures Valid() && Pos() == old(Pos()) + discarded
      ensures n < 0 ==> discarded == 0 && e == Some(NegativeCount)
      ensures n >= 0 ==> discarded <= n && (e.None? <==> discarded == n)
      ensures n >= 0 && e.Some? ==> Buffered() == 0 && err.None? && Known(e)
    {
      if n < 0 {
        return 0, Some(NegativeCount);
      }
      if n == 0 {
        return 0, None;
      }
      var remain := n;
      while true
        invariant Valid() && 0 < remain <= n && Pos() == old(Pos()) + (n - remain)
        decreases remain
      {
        var skip := Buffered();
        if skip == 0 {
          FillBuffer();
          skip := Buffered();
        }
        if skip > remain {
          skip := remain;
        }
        Advance(skip);
        remain := remain - skip;
        if remain == 0 {
          return n, None;
        }
        if err.Some? {
          e := ConsumeError();
          return n - remain, e;
        }
      }
    }

    /**
     Reads some bytes into p[lo..hi], from the buffer first. An error comes with buffered bytes
     still unread only when nothing was asked for.
     */
    method Read(p: array<T>, lo: nat, hi: nat) returns (n: nat, e: Option<Error>)
      requires Valid() && lo <= hi <= p.Length && p != buffer
      modifies this, source, buffer, p
      ensures Valid() && n <= hi - lo && Pos() == old(Pos()) + n && Pos() <= |source.data|
      ensures p[lo..lo + n] == source.data[old(Pos())..Pos()]
      ensures p[..lo] == old(p[..lo]) && p[lo + n..] == old(p[lo + n..])
      ensures e.Some? ==> err.None? && Known(e)
      ensures e.Some? && Buffered() > 0 <==> lo == hi && old(err).Some? && old(Buffered()) > 0
      ensures |source.script| <= |old(source.script)|
      ensures n == 0 && e.None? && lo < hi ==> |source.script| < |old(source.script)|
      ensures old(Ended()) ==> Ended()
      ensures lo < hi && old(HungUp()) ==> n == 0 && e == Some(EOF)
      ensures lo < hi && old(Buffered()) > 0 ==>
        && n == Min(hi - lo, old(Buffered())) && e.None?
        && Buffered() == old(Buffered()) - n && source.script == old(source.script) && err == old(err)
      ensures lo < hi <= lo + buffer.Length - 1 && old(Buffered() == 0 && err.None? && Decisive()) ==>
        && n == Min(hi - lo, old(Arriving())) && source.script == old(source.script)[1..]
        && (n > 0 ==> e.None? && Buffered() == old(Arriving()) - n && err == old(source.script)[0].err)
      ensures lo == hi ==>
        n == 0 && e == old(err) && Buffered() == old(Buffered()) && source.script == old(source.script)
    {
      if hi == lo {
        e := ConsumeError();
        return 0, e;
      }
      if readPos == writePos {
        if err.Some? {
          e := ConsumeError();
          return 0, e;
        }
        if hi - lo >= buffer.Length {
          n, e := ReadDirect(p, lo, hi);
          return;
        }
        FillBuffer();
        if readPos == writePos {
          e := ConsumeError();
          return 0, e;
        }
      }
      n := CopyOut(p, lo, hi);
      return n, None;
    }

    /** Moves as much as fits from the buffer into p[lo..hi]. */
    method CopyOut(p: array<T>, lo: nat, hi: nat) returns (n: nat)
      requires Valid() && lo <= hi <= p.Length && p != buffer
      modifies this`readPos, p
      ensures Valid() && n <= hi - lo && Pos() == old(Pos()) + n && Pos() <= |source.data|
      ensures p[lo..lo + n] == source.data[old(Pos())..Pos()]
      ensures p[..lo] == old(p[..lo]) && p[lo + n..] == old(p[lo + n..])
      ensures Buffered() == old(Buffered()) - n && n == if hi - lo < old(Buffered()) then hi - lo else old(Buffered())
    {
      n := if hi - lo < Buffered() then hi - lo else Buffered();
      var chunk := Take(n);
      Paste(p, lo, chunk);
    }

    /** A large read with an empty buffer bypasses it. */
    method ReadDirect(p: array<T>, lo: nat, hi: nat) returns (n: nat, e: Option<Error>)
      requires Valid() && lo <= hi <= p.Length && p != buffer && Buffered() == 0
      modifies this`err, source, p
      ensures Valid() && n <= hi - lo && Pos() == old(Pos()) + n && Pos() <= |source.data|
      ensures p[lo..lo + n] == source.data[old(Pos())..Pos()]
      ensures p[..lo] == old(p[..lo]) && p[lo + n..] == old(p[lo + n..])
      ensures Buffered() == 0 && err.None? && Known(e) && |source.script| <= |old(source.script)|
      ensures n == 0 && e.None? && lo < hi ==> |source.script| < |old(source.script)|
      ensures old(source.NextIsEof()) && lo < hi ==> n == 0 && e == Some(EOF)
      ensures old(Ended()) ==> Ended()
    {
      n, err := source.Read(p, lo, hi);
      e := ConsumeError();
    }

    method ReadByte() returns (c: T, e: Option<Error>)
      requires Valid()
      modifies this, source, buffer
      ensures Valid() && Pos() <= |source.data|
      ensures e.None? ==> Pos() == old(Pos()) + 1 && c == source.data[old(Pos())]
      ensures e.Some? ==> Pos() == old(Pos()) && Buffered() == 0 && err.None? && Known(e)
      ensures old(HungUp()) ==> e == Some(EOF)
      ensures old(Ended()) ==> Ended()
      ensures old(Buffered()) > 0 ==>
        e.None? && Buffered() == old(Buffered()) - 1 && source.script == old(source.script)
    {
      while readPos == writePos
        invariant Valid() && Pos() == old(Pos())
        invariant old(Ended()) ==> Ended()
        invariant old(HungUp()) ==> readPos == writePos && (err == Some(EOF) || (err.None? && source.NextIsEof()))
        invariant old(Buffered()) > 0 ==> Buffered() == old(Buffered()) && source.script == old(source.script)
        decreases if readPos < writePos then 0 else if err.Some? then 1 else 2
      {
        if err.Some? {
          e := ConsumeError();
          c := *;
          return;
        }
        FillBuffer();
      }
      c := buffer[readPos];
      assert c == buffer[readPos..readPos + 1][0];
      var one := Take(1);
      return c, None;
    }

    /**
     What the buffer alone decides: the delimiter is in it, an error is pending, or it is full.
     Otherwise there is more to read.
     */
    method SliceBuffered(delim: T) returns (line: seq<T>, e: Option<Error>, more: bool)
      requires Valid()
      modifies this
      ensures Valid()
      ensures more ==>
        Pos() == old(Pos()) && Buffered() < buffer.Length && err == old(err) == None && Buffered() == old(Buffered())
      ensures !more ==> Pos() == old(Pos()) + |line| && Pos() <= |source.data| && line == source.data[old(Pos())..Pos()]
      ensures !more ==>
        (e.None? <==> line != [] && line[|line| - 1] == delim) && (line != [] ==> delim !in line[..|line| - 1])
      ensures !more && e.Some? ==> Buffered() == 0 && (Known(e) || (e.value == BufferFull && |line| == buffer.Length))
    {
      var view := buffer[readPos..writePos];
      var i := IndexByte(view, delim);
      line, e, more := [], None, false;
      assert view[..|view|] == view;
      if i < |view| {
        line := Take(i + 1);
      } else if err.Some? {
        line := Take(Buffered());
        e := ConsumeError();
      } else if Buffered() >= buffer.Length {
        line := Take(Buffered());
        e := Some(BufferFull);
      } else {
        more := true;
      }
    }

    /**
     Reads through the first delimiter, or all that is buffered together with the reason there
     is no more: a full buffer, or the pending error.
     */
    method ReadSlice(delim: T) returns (line: seq<T>, e: Option<Error>)
      requires Valid()
      modifies this, source, buffer
      ensures Valid() && Pos() == old(Pos()) + |line| && Pos() <= |source.data|
      ensures line == source.data[old(Pos())..Pos()]
      ensures e.None? <==> line != [] && line[|line| - 1] == delim
      ensures line != [] ==> delim !in line[..|line| - 1]
      ensures e.Some? ==> Buffered() == 0 && (Known(e) || (e.value == BufferFull && |line| == buffer.Length))
    {
      while true
        invariant Valid() && Pos() == old(Pos())
        decreases buffer.Length - Buffered(), if err.Some? then 0 else 1
      {
        var more;
        line, e, more := SliceBuffered(delim);
        if !more {
          return;
        }
        FillBuffer();
      }
    }

    /** bytes.IndexByte; the length when the byte is absent. */
    static method IndexByte(s: seq<T>, delim: T) returns (i: nat)
      ensures i <= |s| && delim !in s[..i]
      ensures i < |s| ==> s[i] == delim
    {
      i := 0;
      while i < |s| && s[i] != delim
        invariant i <= |s| && delim !in s[..i]
      {
        i := i + 1;
      }
    }

    /**
     io.ReadFull: all of p[lo..hi], or an error after fewer. An error that comes with the last
     byte is dropped.
     */
    method ReadFull(p: array<T>, lo: nat, hi: nat) returns (n: nat, e: Option<Error>)
      requires Valid() && lo <= hi <= p.Length && p != buffer
      modifies this, source, buffer, p
      ensures Valid() && n <= hi - lo && Pos() == old(Pos()) + n && Pos() <= |source.data|
      ensures p[lo..lo + n] == source.data[old(Pos())..Pos()]
      ensures p[..lo] == old(p[..lo]) && p[lo + n..] == old(p[lo + n..])
      ensures e.None? <==> n == hi - lo
      ensures Known(e) || (e == Some(UnexpectedEOF) && n > 0 && Known(Some(EOF)))
      ensures e.Some? ==> Buffered() == 0
      ensures old(Ended()) ==> Ended()
      ensures lo < hi && old(HungUp()) ==> n == 0 && e == Some(EOF)
      ensures hi - lo <= old(Buffered()) ==>
        e.None? && Buffered() == old(Buffered()) - (hi - lo) && source.script == old(source.script)
    {
      n, e := 0, None;
      while n < hi - lo && e.None?
        invariant Valid() && n <= hi - lo && Pos() == old(Pos()) + n && Pos() <= |source.data|
        invariant p[lo..lo + n] == source.data[old(Pos())..Pos()]
        invariant p[..lo] == old(p[..lo]) && p[lo + n..] == old(p[lo + n..]) && Known(e)
        invariant e.Some? ==> Buffered() == 0
        invariant old(Ended()) ==> Ended()
        invariant lo < hi && old(HungUp()) ==> n == 0 && (if e.None? then HungUp() else e == Some(EOF))
        invariant hi - lo <= old(Buffered()) ==>
          e.None? && Buffered() == old(Buffered()) - n && source.script == old(source.script)
        decreases hi - lo - n, |source.script|, if e.None? then 1 else 0
      {
        var m;
        m, e := ReadMore(p, lo, n, hi, old(Pos()));
        n := n + m;
      }
      if n == hi - lo {
        e := None;
      } else if n > 0 && e == Some(EOF) {
        e := Some(UnexpectedEOF);
      }
    }

    /** One more read behind the n bytes read since `start`. */
    method ReadMore(p: array<T>, lo: nat, n: nat, hi: nat, ghost start: nat) returns (m: nat, e: Option<Error>)
      requires Valid() && lo + n < hi <= p.Length && p != buffer && start + n == Pos() <= |source.data|
      requires p[lo..lo + n] == source.data[start..Pos()]
      modifies this, source, buffer, p
      ensures Valid() && n + m <= hi - lo && start + n + m == Pos() <= |source.data|
      ensures p[lo..lo + (n + m)] == source.data[start..Pos()]
      ensures p[..lo] == old(p[..lo]) && p[lo + (n + m)..] == old(p[lo + n..])[m..]
      ensures |source.script| <= |old(source.script)| && (m == 0 && e.None? ==> |source.script| < |old(source.script)|)
      ensures Known(e) && (old(HungUp()) ==> m == 0 && e == Some(EOF)) && (old(Ended()) ==> Ended())
      ensures e.Some? ==> Buffered() == 0
      ensures hi - lo - n <= old(Buffered()) ==>
        e.None? && Buffered() == old(Buffered()) - m && source.script == old(source.script)
    {
      ghost var at, before := Pos(), p[..];
      m, e := Read(p, lo + n, hi);
      Extended(p[..], before, lo, n, m, source.data[start..at], source.data[at..Pos()]);
      Join(source.data, start, at, Pos());
    }

    /** A second piece pasted behind a first one. */
    static lemma Extended(s: seq<T>, before: seq<T>, lo: nat, n: nat, m: nat, x: seq<T>, y: seq<T>)
      requires lo + n + m <= |s| == |before|
      requires before[lo..lo + n] == x && s[lo + n..lo + n + m] == y
      requires s[..lo + n] == before[..lo + n] && s[lo + n + m..] == before[lo + n + m..]
      ensures s[lo..lo + (n + m)] == x + y && s[..lo] == before[..lo] && s[lo + (n + m)..] == before[lo + n..][m..]
    {
      assert s[lo..lo + n] == s[..lo + n][lo..] == before[..lo + n][lo..];
      Join(s, lo, lo + n, lo + n + m);
      assert s[..lo] == s[..lo + n][..lo];
    }
  }
}
