/**
 Payload masking (RFC 6455, section 5.3): a byte-at-a-time definition, its laws, and the
 unrolled word-at-a-time routine that the library runs.
 */
module Mask {
  import opened Seqs

  // ---- Definition ----

  /** The four key bytes in the order they meet the payload. */
  datatype Key = Key(k0: bv8, k1: bv8, k2: bv8, k3: bv8) {
    /** The key after one byte. */
    function Turn(): Key {
      Key(k1, k2, k3, k0)
    }

    /** The key to go on with after n bytes. */
    function Turned(n: nat): Key
      decreases n
    {
      if n == 0 then this else Turn().Turned(n - 1)
    }
  }

  /** Byte at a time: xor with the first key byte, then turn the key. */
  function Masked(s: seq<bv8>, key: Key): (m: seq<bv8>)
    ensures |m| == |s|
  {
    if s == [] then [] else [s[0] ^ key.k0] + Masked(s[1..], key.Turn())
  }

  // ---- Laws ----

  lemma {:induction false} TurnedAdds(key: Key, m: nat, n: nat)
    ensures key.Turned(m).Turned(n) == key.Turned(m + n)
    decreases m
  {
    if m > 0 {
      TurnedAdds(key.Turn(), m - 1, n);
    }
  }

  /** Four bytes on, the key is back where it was: only the length mod 4 matters. */
  lemma {:induction false} TurnedPeriod(key: Key, n: nat)
    ensures key.Turned(n) == key.Turned(n % 4)
  {
    if n >= 4 {
      assert key.Turn().Turn().Turn().Turn() == key;
      assert key.Turned(n) == key.Turn().Turn().Turned(n - 2) == key.Turned(n - 4);
      TurnedPeriod(key, n - 4);
    }
  }

  lemma TurnedBack(key: Key, n: nat)
    requires n % 4 == 0
    ensures key.Turned(n) == key
  {
    TurnedPeriod(key, n);
  }

  /** Key byte i mod 4. */
  function KeyAt(key: Key, i: nat): bv8 {
    if i % 4 == 0 then key.k0 else if i % 4 == 1 then key.k1 else if i % 4 == 2 then key.k2 else key.k3
  }

  lemma TurnedFirst(key: Key, i: nat)
    ensures key.Turned(i).k0 == KeyAt(key, i)
  {
    TurnedPeriod(key, i);
    assert key.Turned(1) == key.Turn();
    assert key.Turned(2) == key.Turn().Turned(1) == key.Turn().Turn();
    assert key.Turned(3) == key.Turn().Turned(2) == key.Turn().Turn().Turn();
  }

  /** The formula of RFC 6455: output byte i is input byte i xor key byte i mod 4. */
  lemma {:induction false} MaskedAt(s: seq<bv8>, key: Key, i: nat)
    requires i < |s|
    ensures Masked(s, key)[i] == s[i] ^ KeyAt(key, i)
  {
    MaskedHead(s, key, i);
    TurnedFirst(key, i);
  }

  lemma {:induction false} MaskedHead(s: seq<bv8>, key: Key, i: nat)
    requires i < |s|
    ensures Masked(s, key)[i] == s[i] ^ key.Turned(i).k0
    decreases i
  {
    if i > 0 {
      MaskedHead(s[1..], key.Turn(), i - 1);
    }
  }

  /** Masking in two pieces with the key threaded through equals masking the whole. */
  lemma {:induction false} MaskedAppend(a: seq<bv8>, b: seq<bv8>, key: Key)
    ensures Masked(a + b, key) == Masked(a, key) + Masked(b, key.Turned(|a|))
  {
    if a == [] {
      assert a + b == b;
    } else {
      MaskedAppend(a[1..], b, key.Turn());
      assert (a + b)[1..] == a[1..] + b;
    }
  }

  /** Chunks, each masked with the key that the chunk before it returned. */
  function MaskedChunks(chunks: seq<seq<bv8>>, key: Key): seq<bv8> {
    if chunks == [] then []
    else Masked(chunks[0], key) + MaskedChunks(chunks[1..], key.Turned(|chunks[0]|))
  }

  /** However the payload is cut up, the bytes on the wire are the same. */
  lemma {:induction false} ChunkingIrrelevant(chunks: seq<seq<bv8>>, key: Key)
    ensures MaskedChunks(chunks, key) == Masked(Joined(chunks), key)
  {
    if chunks != [] {
      ChunkingIrrelevant(chunks[1..], key.Turned(|chunks[0]|));
      MaskedAppend(chunks[0], Joined(chunks[1..]), key);
    }
  }

  lemma XorTwice(b: bv8, k: bv8)
    ensures (b ^ k) ^ k == b
  {
  }

  /** Masking is its own inverse. */
  lemma {:induction false} MaskedTwice(s: seq<bv8>, key: Key)
    ensures Masked(Masked(s, key), key) == s
  {
    if s != [] {
      MaskedTwice(s[1..], key.Turn());
      MaskedTwiceCons(s[0], s[1..], key);
      assert s == [s[0]] + s[1..];
    }
  }

  lemma MaskedTwiceCons(x: bv8, rest: seq<bv8>, key: Key)
    requires Masked(Masked(rest, key.Turn()), key.Turn()) == rest
    ensures Masked(Masked([x] + rest, key), key) == [x] + rest
  {
    hide *;
    var y, m := x ^ key.k0, Masked(rest, key.Turn());
    assert x == y ^ key.k0 by { XorTwice(x, key.k0); }
    MaskedCons(x, rest, key, y, m);
    MaskedCons(y, m, key, x, rest);
  }

  lemma MaskedCons(y: bv8, m: seq<bv8>, key: Key, x: bv8, rest: seq<bv8>)
    requires x == y ^ key.k0 && rest == Masked(m, key.Turn())
    ensures Masked([y] + m, key) == [x] + rest
  {
    assert ([y] + m)[1..] == m;
  }

  // ---- Words ----

  /** The key bytes of a little-endian word, and the word of a key (binary.LittleEndian.Uint32). */
  function KeyOf(w: bv32): Key {
    Key((w & 0xff) as bv8, ((w >> 8) & 0xff) as bv8, ((w >> 16) & 0xff) as bv8, ((w >> 24) & 0xff) as bv8)
  }

  function WordOf(k: Key): bv32 {
    (k.k0 as bv32) | ((k.k1 as bv32) << 8) | ((k.k2 as bv32) << 16) | ((k.k3 as bv32) << 24)
  }

  /** Words and keys correspond one to one. */
  lemma KeyWordBijection(w: bv32, k: Key)
    ensures WordOf(KeyOf(w)) == w
    ensures KeyOf(WordOf(k)) == k
  {
  }

  /** bits.RotateLeft32(w, -8). */
  function RotateByte(w: bv32): (r: bv32)
    ensures KeyOf(r) == KeyOf(w).Turn()
  {
    (w >> 8) | (w << 24)
  }

  lemma LowByte(w: bv32)
    ensures (w & 0xff) as bv8 == KeyOf(w).k0
  {
  }

  /** A little-endian 64-bit word as its low and its high four bytes. */
  function Low(v: bv64): Key {
    Key((v & 0xff) as bv8, ((v >> 8) & 0xff) as bv8, ((v >> 16) & 0xff) as bv8, ((v >> 24) & 0xff) as bv8)
  }

  function High(v: bv64): Key {
    Key(((v >> 32) & 0xff) as bv8, ((v >> 40) & 0xff) as bv8, ((v >> 48) & 0xff) as bv8, ((v >> 56) & 0xff) as bv8)
  }

  /** binary.LittleEndian.Uint64. */
  function Word64(l: Key, h: Key): bv64 {
    (l.k0 as bv64) | ((l.k1 as bv64) << 8) | ((l.k2 as bv64) << 16) | ((l.k3 as bv64) << 24)
    | ((h.k0 as bv64) << 32) | ((h.k1 as bv64) << 40) | ((h.k2 as bv64) << 48) | ((h.k3 as bv64) << 56)
  }

  /** uint64(key)<<32 | uint64(key). */
  function Doubled(w: bv32): bv64 {
    ((w as bv64) << 32) | (w as bv64)
  }

  function Xor(a: Key, b: Key): Key {
    Key(a.k0 ^ b.k0, a.k1 ^ b.k1, a.k2 ^ b.k2, a.k3 ^ b.k3)
  }

  lemma LowXor(l: Key, h: Key, w: bv32)
    ensures Low(Word64(l, h) ^ Doubled(w)) == Xor(l, KeyOf(w))
  {
  }

  lemma HighXor(l: Key, h: Key, w: bv32)
    ensures High(Word64(l, h) ^ Doubled(w)) == Xor(h, KeyOf(w))
  {
  }

  lemma HalfWordXor(k: Key, w: bv32)
    ensures KeyOf(WordOf(k) ^ w) == Xor(k, KeyOf(w))
  {
  }

  // ---- The routine ----

  /** The first n bytes of b[lo..] are masked; every other byte of b is as before. */
  ghost predicate MaskedUpTo(b: seq<bv8>, before: seq<bv8>, lo: nat, n: nat, key: Key) {
    && |b| == |before| && lo + n <= |b|
    && b[..lo] == before[..lo]
    && b[lo..lo + n] == Masked(before[lo..lo + n], key)
    && b[lo + n..] == before[lo + n..]
  }

  lemma MaskedFour(k: Key, key: Key, r: Key)
    requires r == Xor(k, key)
    ensures Masked(Bytes4(k), key) == Bytes4(r)
  {
    hide Masked;
    var s := [k.k0, k.k1, k.k2, k.k3];
    MaskedAt(s, key, 0);
    MaskedAt(s, key, 1);
    MaskedAt(s, key, 2);
    MaskedAt(s, key, 3);
    var m := Masked(s, key);
    assert m == [m[0], m[1], m[2], m[3]];
  }

  function Bytes4(k: Key): seq<bv8> {
    [k.k0, k.k1, k.k2, k.k3]
  }

  /** Storing a masked piece right after the masked part extends it. */
  lemma PieceStored(b: seq<bv8>, entry: seq<bv8>, before: seq<bv8>, lo: nat, n: nat, m: nat, key: Key)
    requires MaskedUpTo(entry, before, lo, n, key)
    requires lo + n + m <= |b| == |entry|
    requires b[..lo + n] == entry[..lo + n] && b[lo + n + m..] == entry[lo + n + m..]
    requires b[lo + n..lo + n + m] == Masked(entry[lo + n..lo + n + m], key.Turned(n))
    ensures MaskedUpTo(b, before, lo, n + m, key)
  {
    var done, piece := before[lo..lo + n], before[lo + n..lo + n + m];
    MaskedAppend(done, piece, key);
    Slices(b, entry, before, lo, n, m, Masked(done, key), Masked(piece, key.Turned(n)));
  }

  lemma Slices(b: seq<bv8>, entry: seq<bv8>, before: seq<bv8>, lo: nat, n: nat, m: nat, x: seq<bv8>, y: seq<bv8>)
    requires lo + n + m <= |b| == |entry| == |before|
    requires entry[..lo] == before[..lo] && entry[lo..lo + n] == x && entry[lo + n..] == before[lo + n..]
    requires b[..lo + n] == entry[..lo + n] && b[lo + n + m..] == entry[lo + n + m..]
    requires entry[lo + n..lo + n + m] == before[lo + n..lo + n + m] ==> b[lo + n..lo + n + m] == y
    ensures b[..lo] == before[..lo] && b[lo..lo + (n + m)] == x + y && b[lo + n + m..] == before[lo + n + m..]
    ensures before[lo..lo + (n + m)] == before[lo..lo + n] + before[lo + n..lo + n + m]
  {
    assert entry[lo + n..lo + n + m] == entry[lo + n..][..m] == before[lo + n..][..m] == before[lo + n..lo + n + m];
    assert b[lo..lo + n] == b[..lo + n][lo..] == entry[..lo + n][lo..] == entry[lo..lo + n];
    assert b[lo..lo + (n + m)] == b[lo..lo + n] + b[lo + n..lo + n + m];
    assert b[..lo] == b[..lo + n][..lo] == entry[..lo];
    assert b[lo + n + m..] == entry[lo + n..][m..] == before[lo + n..][m..] == before[lo + n + m..];
  }

  lemma MaskedEight(l: Key, h: Key, k: Key, l': Key, h': Key)
    requires l' == Xor(l, k) && h' == Xor(h, k)
    ensures Masked(Bytes4(l) + Bytes4(h), k) == Bytes4(l') + Bytes4(h')
  {
    TurnedBack(k, 4);
    assert |Bytes4(l)| == 4;
    hide *;
    MaskedFour(l, k, l');
    MaskedFour(h, k, h');
    MaskedAppend(Bytes4(l), Bytes4(h), k);
  }

  function Load(b: array<bv8>, i: nat): (k: Key)
    requires i + 4 <= b.Length
    reads b
    ensures Bytes4(k) == b[i..i + 4]
  {
    Key(b[i], b[i + 1], b[i + 2], b[i + 3])
  }

  method Store(b: array<bv8>, i: nat, k: Key)
    requires i + 4 <= b.Length
    modifies b
    ensures b[i..i + 4] == Bytes4(k)
    ensures b[..i] == old(b[..i]) && b[i + 4..] == old(b[i + 4..])
  {
    b[i], b[i + 1], b[i + 2], b[i + 3] := k.k0, k.k1, k.k2, k.k3;
  }

  method StoreBoth(b: array<bv8>, i: nat, l: Key, h: Key)
    requires i + 8 <= b.Length
    modifies b
    ensures b[i..i + 8] == Bytes4(l) + Bytes4(h)
    ensures b[..i] == old(b[..i]) && b[i + 8..] == old(b[i + 8..])
  {
    Store(b, i, l);
    label L:
    Store(b, i + 4, h);
    assert b[..i] == b[..i + 4][..i] == old@L(b[..i + 4])[..i] == old@L(b[..i]);
    assert b[i..i + 4] == b[..i + 4][i..] == old@L(b[..i + 4])[i..] == old@L(b[i..i + 4]);
    assert b[i..i + 8] == b[i..i + 4] + b[i + 4..i + 8];
    assert old@L(b[i + 8..]) == old@L(b[i + 4..])[4..] == old(b[i + 4..])[4..] == old(b[i + 8..]);
  }

  /** Load eight bytes as one word, xor it with the doubled key, store it. */
  method XorWord64(b: array<bv8>, lo: nat, n: nat, key: bv32, ghost k: Key, ghost before: seq<bv8>)
    requires k == KeyOf(key) && n % 4 == 0 && lo + n + 8 <= b.Length
    requires MaskedUpTo(b[..], before, lo, n, k)
    modifies b
    ensures MaskedUpTo(b[..], before, lo, n + 8, k)
  {
    hide *;
    var i := lo + n;
    var l, h := Load(b, i), Load(b, i + 4);
    var w := Word64(l, h) ^ Doubled(key);
    LowXor(l, h, key);
    HighXor(l, h, key);
    MaskedEight(l, h, k, Low(w), High(w));
    assert b[i..i + 8] == b[i..i + 4] + b[i + 4..i + 8];
    StoreBoth(b, i, Low(w), High(w));
    TurnedBack(k, n);
    PieceStored(b[..], old(b[..]), before, lo, n, 8, k);
  }

  /** The same for four bytes and the plain key. */
  method XorWord32(b: array<bv8>, lo: nat, n: nat, key: bv32, ghost k: Key, ghost before: seq<bv8>)
    requires k == KeyOf(key) && n % 4 == 0 && lo + n + 4 <= b.Length
    requires MaskedUpTo(b[..], before, lo, n, k)
    modifies b
    ensures MaskedUpTo(b[..], before, lo, n + 4, k)
  {
    var i := lo + n;
    var word := Load(b, i);
    var w := WordOf(word) ^ key;
    HalfWordXor(word, key);
    Store(b, i, KeyOf(w));
    MaskedFour(word, k, KeyOf(w));
    TurnedBack(k, n);
    PieceStored(b[..], old(b[..]), before, lo, n, 4, k);
  }

  lemma MaskedOne(x: bv8, key: Key, y: bv8)
    requires y == x ^ key.k0
    ensures Masked([x], key) == [y]
  {
  }

  /** One trailing byte, with the key that has already been rotated n times. */
  method XorByte(b: array<bv8>, lo: nat, n: nat, key: bv32, ghost start: Key, ghost before: seq<bv8>)
    requires lo + n < b.Length && KeyOf(key) == start.Turned(n)
    requires MaskedUpTo(b[..], before, lo, n, start)
    modifies b
    ensures MaskedUpTo(b[..], before, lo, n + 1, start)
  {
    hide *;
    var i := lo + n;
    var x := b[i];
    var y := x ^ (key & 0xff) as bv8;
    LowByte(key);
    MaskedOne(x, start.Turned(n), y);
    assert b[i..i + 1] == [x];
    Put(b, i, y);
    PieceStored(b[..], old(b[..]), before, lo, n, 1, start);
  }

  method Put<T>(b: array<T>, i: nat, y: T)
    requires i < b.Length
    modifies b
    ensures b[i..i + 1] == [y]
    ensures b[..i] == old(b[..i]) && b[i + 1..] == old(b[i + 1..])
  {
    b[i] := y;
  }

  // The five unrolled loops, each with its body.

  method XorBlock128(b: array<bv8>, lo: nat, n: nat, key: bv32, ghost k: Key, ghost before: seq<bv8>)
    requires k == KeyOf(key) && n % 4 == 0 && lo + n + 128 <= b.Length
    requires MaskedUpTo(b[..], before, lo, n, k)
    modifies b
    ensures MaskedUpTo(b[..], before, lo, n + 128, k)
  {
    hide *;
    XorWord64(b, lo, n, key, k, before);
    XorWord64(b, lo, n + 8, key, k, before);
    XorWord64(b, lo, n + 16, key, k, before);
    XorWord64(b, lo, n + 24, key, k, before);
    XorWord64(b, lo, n + 32, key, k, before);
    XorWord64(b, lo, n + 40, key, k, before);
    XorWord64(b, lo, n + 48, key, k, before);
    XorWord64(b, lo, n + 56, key, k, before);
    XorWord64(b, lo, n + 64, key, k, before);
    XorWord64(b, lo, n + 72, key, k, before);
    XorWord64(b, lo, n + 80, key, k, before);
    XorWord64(b, lo, n + 88, key, k, before);
    XorWord64(b, lo, n + 96, key, k, before);
    XorWord64(b, lo, n + 104, key, k, before);
    XorWord64(b, lo, n + 112, key, k, before);
    XorWord64(b, lo, n + 120, key, k, before);
  }

  method MaskBlocks128(b: array<bv8>, lo: nat, start: nat, hi: nat, key: bv32, ghost k: Key, ghost before: seq<bv8>)
    returns (n: nat)
    requires lo + start <= hi <= b.Length && k == KeyOf(key) && start % 4 == 0
    requires MaskedUpTo(b[..], before, lo, start, k)
    modifies b
    ensures n % 4 == 0 && hi - 128 < lo + n <= hi
    ensures MaskedUpTo(b[..], before, lo, n, k)
  {
    hide *;
    n := start;
    while hi - (lo + n) >= 128
      invariant n % 4 == 0 && lo + n <= hi && MaskedUpTo(b[..], before, lo, n, k)
    {
      XorBlock128(b, lo, n, key, k, before);
      n := n + 128;
    }
  }

  method XorBlock64(b: array<bv8>, lo: nat, n: nat, key: bv32, ghost k: Key, ghost before: seq<bv8>)
    requires k == KeyOf(key) && n % 4 == 0 && lo + n + 64 <= b.Length
    requires MaskedUpTo(b[..], before, lo, n, k)
    modifies b
    ensures MaskedUpTo(b[..], before, lo, n + 64, k)
  {
    hide *;
    XorWord64(b, lo, n, key, k, before);
    XorWord64(b, lo, n + 8, key, k, before);
    XorWord64(b, lo, n + 16, key, k, before);
    XorWord64(b, lo, n + 24, key, k, before);
    XorWord64(b, lo, n + 32, key, k, before);
    XorWord64(b, lo, n + 40, key, k, before);
    XorWord64(b, lo, n + 48, key, k, before);
    XorWord64(b, lo, n + 56, key, k, before);
  }

  method MaskBlocks64(b: array<bv8>, lo: nat, start: nat, hi: nat, key: bv32, ghost k: Key, ghost before: seq<bv8>)
    returns (n: nat)
    requires lo + start <= hi <= b.Length && k == KeyOf(key) && start % 4 == 0
    requires MaskedUpTo(b[..], before, lo, start, k)
    modifies b
    ensures n % 4 == 0 && hi - 64 < lo + n <= hi
    ensures MaskedUpTo(b[..], before, lo, n, k)
  {
    hide *;
    n := start;
    while hi - (lo + n) >= 64
      invariant n % 4 == 0 && lo + n <= hi && MaskedUpTo(b[..], before, lo, n, k)
    {
      XorBlock64(b, lo, n, key, k, before);
      n := n + 64;
    }
  }

  method XorBlock32(b: array<bv8>, lo: nat, n: nat, key: bv32, ghost k: Key, ghost before: seq<bv8>)
    requires k == KeyOf(key) && n % 4 == 0 && lo + n + 32 <= b.Length
    requires MaskedUpTo(b[..], before, lo, n, k)
    modifies b
    ensures MaskedUpTo(b[..], before, lo, n + 32, k)
  {
    hide *;
    XorWord64(b, lo, n, key, k, before);
    XorWord64(b, lo, n + 8, key, k, before);
    XorWord64(b, lo, n + 16, key, k, before);
    XorWord64(b, lo, n + 24, key, k, before);
  }

  method MaskBlocks32(b: array<bv8>, lo: nat, start: nat, hi: nat, key: bv32, ghost k: Key, ghost before: seq<bv8>)
    returns (n: nat)
    requires lo + start <= hi <= b.Length && k == KeyOf(key) && start % 4 == 0
    requires MaskedUpTo(b[..], before, lo, start, k)
    modifies b
    ensures n % 4 == 0 && hi - 32 < lo + n <= hi
    ensures MaskedUpTo(b[..], before, lo, n, k)
  {
    hide *;
    n := start;
    while hi - (lo + n) >= 32
      invariant n % 4 == 0 && lo + n <= hi && MaskedUpTo(b[..], before, lo, n, k)
    {
      XorBlock32(b, lo, n, key, k, before);
      n := n + 32;
    }
  }

  method MaskBlocks16(b: array<bv8>, lo: nat, start: nat, hi: nat, key: bv32, ghost k: Key, ghost before: seq<bv8>)
    returns (n: nat)
    requires lo + start <= hi <= b.Length && k == KeyOf(key) && start % 4 == 0
    requires MaskedUpTo(b[..], before, lo, start, k)
    modifies b
    ensures n % 4 == 0 && hi - 16 < lo + n <= hi
    ensures MaskedUpTo(b[..], before, lo, n, k)
  {
    hide *;
    n := start;
    while hi - (lo + n) >= 16
      invariant n % 4 == 0 && lo + n <= hi && MaskedUpTo(b[..], before, lo, n, k)
    {
      XorWord64(b, lo, n, key, k, before);
      XorWord64(b, lo, n + 8, key, k, before);
      n := n + 16;
    }
  }

  method MaskBlocks8(b: array<bv8>, lo: nat, start: nat, hi: nat, key: bv32, ghost k: Key, ghost before: seq<bv8>)
    returns (n: nat)
    requires lo + start <= hi <= b.Length && k == KeyOf(key) && start % 4 == 0
    requires MaskedUpTo(b[..], before, lo, start, k)
    modifies b
    ensures n % 4 == 0 && hi - 8 < lo + n <= hi
    ensures MaskedUpTo(b[..], before, lo, n, k)
  {
    hide *;
    n := start;
    while hi - (lo + n) >= 8
      invariant n % 4 == 0 && lo + n <= hi && MaskedUpTo(b[..], before, lo, n, k)
    {
      XorWord64(b, lo, n, key, k, before);
      n := n + 8;
    }
  }

  method MaskBlocks4(b: array<bv8>, lo: nat, start: nat, hi: nat, key: bv32, ghost k: Key, ghost before: seq<bv8>)
    returns (n: nat)
    requires lo + start <= hi <= b.Length && k == KeyOf(key) && start % 4 == 0
    requires MaskedUpTo(b[..], before, lo, start, k)
    modifies b
    ensures n % 4 == 0 && hi - 4 < lo + n <= hi
    ensures MaskedUpTo(b[..], before, lo, n, k)
  {
    hide *;
    n := start;
    while hi - (lo + n) >= 4
      invariant n % 4 == 0 && lo + n <= hi && MaskedUpTo(b[..], before, lo, n, k)
    {
      XorWord32(b, lo, n, key, k, before);
      n := n + 4;
    }
  }

  /** The bytes after the last whole four, rotating the key at each. */
  method MaskRest(b: array<bv8>, lo: nat, start: nat, hi: nat, key: bv32, ghost k: Key, ghost before: seq<bv8>)
    returns (rotated: bv32)
    requires lo + start <= hi <= b.Length && KeyOf(key) == k.Turned(start)
    requires MaskedUpTo(b[..], before, lo, start, k)
    modifies b
    ensures MaskedUpTo(b[..], before, lo, hi - lo, k)
    ensures KeyOf(rotated) == k.Turned(hi - lo)
  {
    hide MaskedUpTo, KeyOf, RotateByte;
    rotated := key;
    var n := start;
    while lo + n < hi
      invariant lo + n <= hi && MaskedUpTo(b[..], before, lo, n, k)
      invariant KeyOf(rotated) == k.Turned(n)
    {
      XorByte(b, lo, n, rotated, k, before);
      TurnedAdds(k, n, 1);
      rotated := RotateByte(rotated);
      assert k.Turned(n).Turned(1) == k.Turned(n).Turn();
      n := n + 1;
    }
  }

  method MaskFrom(b: array<bv8>, lo: nat, hi: nat, key: bv32, ghost k: Key) returns (rotated: bv32)
    requires lo <= hi <= b.Length && k == KeyOf(key)
    modifies b
    ensures MaskedUpTo(b[..], old(b[..]), lo, hi - lo, k)
    ensures KeyOf(rotated) == k.Turned(hi - lo)
  {
    ghost var before := b[..];
    var n := 0;
    if hi - lo >= 8 {
      n := MaskBlocks128(b, lo, n, hi, key, k, before);
      n := MaskBlocks64(b, lo, n, hi, key, k, before);
      n := MaskBlocks32(b, lo, n, hi, key, k, before);
      n := MaskBlocks16(b, lo, n, hi, key, k, before);
      n := MaskBlocks8(b, lo, n, hi, key, k, before);
    }
    n := MaskBlocks4(b, lo, n, hi, key, k, before);
    TurnedBack(k, n);
    rotated := MaskRest(b, lo, n, hi, key, k, before);
  }

  /**
   Masks b[lo..hi] in place, in blocks of 128, 64, 32, 16, 8 and 4 bytes and then byte by byte,
   and returns the key to go on with.
   */
  method MaskGo(b: array<bv8>, lo: nat, hi: nat, key: Key) returns (rotated: Key)
    requires lo <= hi <= b.Length
    modifies b
    ensures b[lo..hi] == Masked(old(b[lo..hi]), key)
    ensures b[..lo] == old(b[..lo]) && b[hi..] == old(b[hi..])
    ensures rotated == key.Turned(hi - lo)
  {
    var word := WordOf(key);
    KeyWordBijection(word, key);
    word := MaskFrom(b, lo, hi, word, key);
    rotated := KeyOf(word);
    assert lo + (hi - lo) == hi;
    assert old(b[..])[lo..hi] == old(b[lo..hi]);
  }
}
