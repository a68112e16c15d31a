/** Frame headers and frames as bytes (RFC 6455, section 5.2). */
module Frame {
  import opened Bytes
  import opened Mask
  import opened Seqs

  const OP_CONTINUATION: bv8 := 0
  const OP_TEXT: bv8 := 1
  const OP_BINARY: bv8 := 2
  const OP_CLOSE: bv8 := 8
  const OP_PING: bv8 := 9
  const OP_PONG: bv8 := 10
  const MAX_CONTROL_PAYLOAD: nat := 125

  datatype Header = Header(
    fin: bool, rsv1: bool, rsv2: bool, rsv3: bool, opcode: bv8,
    payloadLength: nat, masked: bool, maskKey: Key)
  {
    /** What the writer puts into its header field: a 4-bit opcode and an int64 length. */
    predicate Valid() {
      opcode < 16 && payloadLength < MaxLength() && (!masked ==> maskKey == NoKey())
    }
  }

  /** 2^63. */
  function MaxLength(): (n: nat)
    ensures n == 0x8000_0000_0000_0000
    ensures 2 * n == Pow256(8)
  {
    assert Pow256(8) == 0x1_0000_0000_0000_0000 by { EightBytes(); }
    0x8000_0000_0000_0000
  }

  lemma EightBytes()
    ensures Pow256(2) == 0x1_0000
    ensures Pow256(8) == 0x1_0000_0000_0000_0000
  {
    assert Pow256(2) == 256 * Pow256(1) == 256 * (256 * Pow256(0));
    assert Pow256(4) == 256 * Pow256(3) == 256 * (256 * Pow256(2));
    assert Pow256(6) == 256 * Pow256(5) == 256 * (256 * Pow256(4));
    assert Pow256(8) == 256 * Pow256(7) == 256 * (256 * Pow256(6));
  }

  function NoKey(): Key {
    Key(0, 0, 0, 0)
  }

  // ---- Encoding ----

  function Flag(on: bool, bit: bv8): bv8 {
    if on then bit else 0
  }

  function FlagsByte(fin: bool, rsv1: bool, rsv2: bool, rsv3: bool, opcode: bv8): bv8 {
    Flag(fin, 0x80) | Flag(rsv1, 0x40) | Flag(rsv2, 0x20) | Flag(rsv3, 0x10) | opcode
  }

  function FirstByte(h: Header): bv8 {
    FlagsByte(h.fin, h.rsv1, h.rsv2, h.rsv3, h.opcode)
  }

  /** The 7-bit length, or the marker of a longer form. */
  function ShortLength(n: nat): (b: bv8)
    ensures 0 <= Nat(b) < 128
  {
    if n > 0xffff then Byte(127) else if n > 125 then Byte(126) else Byte(n)
  }

  function LengthByte(h: Header): bv8 {
    Flag(h.masked, 0x80) | ShortLength(h.payloadLength)
  }

  function ExtendedLength(n: nat): seq<bv8> {
    if n > 0xffff then BigEndian(n, 8) else if n > 125 then BigEndian(n, 2) else []
  }

  function KeyBytes(h: Header): seq<bv8> {
    if h.masked then Bytes4(h.maskKey) else []
  }

  function EncodeHeader(h: Header): seq<bv8> {
    [FirstByte(h), LengthByte(h)] + ExtendedLength(h.payloadLength) + KeyBytes(h)
  }

  // ---- Parsing ----

  datatype HeaderParse =
    | Incomplete
    | NegativeLength
    | Parsed(h: Header, n: nat)

  /** How many length bytes follow a given 7-bit length. */
  function ExtendedSize(short: nat): nat {
    if short == 127 then 8 else if short == 126 then 2 else 0
  }

  /** The fields of the first byte. */
  datatype Flags = Flags(fin: bool, rsv1: bool, rsv2: bool, rsv3: bool, opcode: bv8)

  function ReadFlags(b: bv8): (f: Flags)
    ensures f.opcode < 16
  {
    Flags(b & 0x80 != 0, b & 0x40 != 0, b & 0x20 != 0, b & 0x10 != 0, b & 0xf)
  }

  function ReadMasked(b: bv8): bool {
    b & 0x80 != 0
  }

  function ReadShort(b: bv8): (n: nat)
    ensures n < 128
  {
    SevenBits(b & 0x7f);
    Nat(b & 0x7f)
  }

  lemma SevenBits(b: bv8)
    ensures b < 128 <==> Nat(b) < 128
  {
  }

  function ParseHeader(s: seq<bv8>): (p: HeaderParse)
    ensures p.Parsed? ==> 2 <= p.n <= |s| && p.h.Valid()
  {
    if |s| < 2 then Incomplete
    else
      var short := ReadShort(s[1]);
      var ext := ExtendedSize(short);
      if |s| < 2 + ext then Incomplete
      else
        var length := if ext == 0 then short else FromBigEndian(s[2..2 + ext]);
        if length >= MaxLength() then NegativeLength
        else
          var masked := ReadMasked(s[1]);
          if masked && |s| < 2 + ext + 4 then Incomplete
          else
            var key := if masked then KeyFrom(s[2 + ext..2 + ext + 4]) else NoKey();
            Parsed(HeaderOf(ReadFlags(s[0]), length, masked, key), 2 + ext + if masked then 4 else 0)
  }

  function HeaderOf(f: Flags, length: nat, masked: bool, key: Key): Header {
    Header(f.fin, f.rsv1, f.rsv2, f.rsv3, f.opcode, length, masked, key)
  }

  function KeyFrom(s: seq<bv8>): (k: Key)
    requires |s| == 4
    ensures Bytes4(k) == s
  {
    Key(s[0], s[1], s[2], s[3])
  }

  // ---- Header round trip ----

  lemma FlagsReadBack(h: Header)
    requires h.opcode < 16
    ensures ReadFlags(FirstByte(h)) == Flags(h.fin, h.rsv1, h.rsv2, h.rsv3, h.opcode)
  {
  }

  lemma FlagsWrittenBack(b: bv8, h: Header)
    requires ReadFlags(b) == Flags(h.fin, h.rsv1, h.rsv2, h.rsv3, h.opcode)
    ensures FirstByte(h) == b
  {
  }

  lemma MaskedShort(masked: bool, short: bv8, b: bv8)
    requires short < 128 && b == Flag(masked, 0x80) | short
    ensures ReadMasked(b) == masked && b & 0x7f == short
  {
  }

  lemma LengthByteReadsBack(h: Header)
    ensures ReadMasked(LengthByte(h)) == h.masked
    ensures ReadShort(LengthByte(h)) == Nat(ShortLength(h.payloadLength))
  {
    var short, b := ShortLength(h.payloadLength), LengthByte(h);
    SevenBits(short);
    MaskedShort(h.masked, short, b);
  }

  lemma LengthWrittenBack(b: bv8, short: bv8)
    requires short == b & 0x7f
    ensures b == Flag(ReadMasked(b), 0x80) | short
  {
  }

  /** The length comes back from the two length fields, for every length below 2^63. */
  lemma LengthRoundTrip(n: nat)
    requires n < MaxLength()
    ensures |ExtendedLength(n)| == ExtendedSize(Nat(ShortLength(n)))
    ensures n == if ExtendedLength(n) == [] then Nat(ShortLength(n)) else FromBigEndian(ExtendedLength(n))
  {
    EightBytes();
    if n > 0xffff {
      BigEndianRoundTrip(n, 8);
    } else if n > 125 {
      BigEndianRoundTrip(n, 2);
    }
  }

  /** How the parser sees a header laid out as two bytes, a longer length and a key. */
  lemma ParseOfParts(b0: bv8, b1: bv8, ext: seq<bv8>, key: seq<bv8>, tail: seq<bv8>, n: nat)
    requires |ext| == ExtendedSize(ReadShort(b1)) && n < MaxLength()
    requires n == if ext == [] then ReadShort(b1) else FromBigEndian(ext)
    requires |key| == if ReadMasked(b1) then 4 else 0
    ensures ParseHeader([b0, b1] + ext + key + tail)
         == Parsed(HeaderOf(ReadFlags(b0), n, ReadMasked(b1), if ReadMasked(b1) then KeyFrom(key) else NoKey()),
                   2 + |ext| + |key|)
  {
    hide ReadFlags, ReadMasked, ReadShort, KeyFrom, FromBigEndian;
    var s := [b0, b1] + ext + key + tail;
    assert s[0] == b0 && s[1] == b1 && s[2..2 + |ext|] == ext;
    assert s[2 + |ext|..2 + |ext| + |key|] == key;
  }

  /**
   Reading a written header, whatever follows it, returns the header and stops exactly behind it.
   */
  lemma HeaderRoundTrip(h: Header, tail: seq<bv8>)
    requires h.Valid()
    ensures ParseHeader(EncodeHeader(h) + tail) == Parsed(h, |EncodeHeader(h)|)
  {
    hide *;
    Reassembled(h);
    FlagsReadBack(h);
    LengthByteReadsBack(h);
    LengthRoundTrip(h.payloadLength);
    KeyReadsBack(h);
    ParseOfParts(FirstByte(h), LengthByte(h), ExtendedLength(h.payloadLength), KeyBytes(h), tail, h.payloadLength);
  }

  lemma KeyReadsBack(h: Header)
    ensures |KeyBytes(h)| == if h.masked then 4 else 0
    ensures h.masked ==> KeyFrom(KeyBytes(h)) == h.maskKey
  {
  }

  lemma Reassembled(h: Header)
    requires h.Valid()
    ensures h.opcode < 16 && h.payloadLength < MaxLength()
    ensures
      var key := if h.masked then h.maskKey else NoKey();
      HeaderOf(Flags(h.fin, h.rsv1, h.rsv2, h.rsv3, h.opcode), h.payloadLength, h.masked, key) == h
    ensures EncodeHeader(h) == [FirstByte(h), LengthByte(h)] + ExtendedLength(h.payloadLength) + KeyBytes(h)
  {
    hide FirstByte, LengthByte, ExtendedLength, KeyBytes;
  }

  // ---- The encoding is the shortest one ----

  /** A parsed header is laid out as the encoder would, except for the form of its length. */
  lemma ParsedLayout(s: seq<bv8>)
    requires ParseHeader(s).Parsed?
    ensures
      var h, n := ParseHeader(s).h, ParseHeader(s).n;
      var ext := ExtendedSize(ReadShort(s[1]));
      && n == 2 + ext + |KeyBytes(h)| && FirstByte(h) == s[0] && h.masked == ReadMasked(s[1])
      && s[..n] == [s[0], s[1]] + s[2..2 + ext] + KeyBytes(h)
      && h.payloadLength == (if ext == 0 then ReadShort(s[1]) else FromBigEndian(s[2..2 + ext]))
  {
    var h, n := ParseHeader(s).h, ParseHeader(s).n;
    FlagsWrittenBack(s[0], h);
    hide ReadFlags, ReadMasked, ReadShort, FirstByte, FromBigEndian;
    var ext := ExtendedSize(ReadShort(s[1]));
    InPieces(s, 2 + ext, n);
  }

  lemma InPieces(s: seq<bv8>, k: nat, n: nat)
    requires 2 <= k <= n <= |s|
    ensures s[..n] == [s[0], s[1]] + s[2..k] + s[k..n]
  {
  }

  /** A length that fits a form is at most what that form can hold. */
  lemma FormBounds(s: seq<bv8>)
    requires ParseHeader(s).Parsed?
    ensures
      var ext := ExtendedSize(ReadShort(s[1]));
      && |ExtendedLength(ParseHeader(s).h.payloadLength)| <= ext
      && (|ExtendedLength(ParseHeader(s).h.payloadLength)| == ext ==>
            ExtendedLength(ParseHeader(s).h.payloadLength) == s[2..2 + ext]
            && ShortLength(ParseHeader(s).h.payloadLength) == s[1] & 0x7f)
  {
    var length, short := ParseHeader(s).h.payloadLength, s[1] & 0x7f;
    var ext := ExtendedSize(ReadShort(s[1]));
    ParsedLayout(s);
    EightBytes();
    ByteOfNat(short);
    if ext > 0 {
      BigEndianOfValue(s[2..2 + ext]);
    }
  }

  /**
   Minimality: no header bytes that parse to h are shorter than the encoding of h, and any that
   are as short are the encoding of h.
   */
  lemma EncodingShortest(s: seq<bv8>)
    requires ParseHeader(s).Parsed?
    ensures
      var h, n := ParseHeader(s).h, ParseHeader(s).n;
      && |EncodeHeader(h)| <= n
      && (|EncodeHeader(h)| == n ==> EncodeHeader(h) == s[..n])
  {
    ParsedLayout(s);
    FormBounds(s);
    LengthWrittenBack(s[1], s[1] & 0x7f);
    hide ReadFlags, ReadMasked, ReadShort, FirstByte, FromBigEndian, ExtendedLength, ShortLength, ParseHeader, Flag;
  }

  // ---- The layout itself ----

  /** Fin is the first bit, the three reserved bits come next, and the opcode is the low half (section 5.2). */
  lemma FlagBits(h: Header)
    requires h.opcode < 16
    ensures FirstByte(h) >= 0x80 <==> h.fin
    ensures FirstByte(h) & 0x7f >= 0x40 <==> h.rsv1
    ensures FirstByte(h) & 0x3f >= 0x20 <==> h.rsv2
    ensures FirstByte(h) & 0x1f >= 0x10 <==> h.rsv3
    ensures FirstByte(h) & 0x0f == h.opcode
    ensures LengthByte(h) >= 0x80 <==> h.masked
  {
  }

  /** The headers of the examples of section 5.7, a close frame's, and a compressed message's. */
  lemma Examples(key: Key)
    ensures EncodeHeader(Header(true, false, false, false, OP_TEXT, 5, false, NoKey())) == [0x81, 0x05]
    ensures EncodeHeader(Header(false, false, false, false, OP_TEXT, 3, false, NoKey())) == [0x01, 0x03]
    ensures EncodeHeader(Header(true, false, false, false, OP_CONTINUATION, 2, false, NoKey())) == [0x80, 0x02]
    ensures EncodeHeader(Header(true, false, false, false, OP_PING, 5, false, NoKey())) == [0x89, 0x05]
    ensures EncodeHeader(Header(true, false, false, false, OP_PONG, 5, true, key))
         == [0x8a, 0x85, key.k0, key.k1, key.k2, key.k3]
    ensures EncodeHeader(Header(true, false, false, false, OP_CLOSE, 0, false, NoKey())) == [0x88, 0x00]
    ensures EncodeHeader(Header(true, true, false, false, OP_TEXT, 7, false, NoKey())) == [0xc1, 0x07]
  {
    SmallBytes();
    hide Byte;
  }

  lemma SmallBytes()
    ensures Byte(0) == 0 && Byte(1) == 1 && Byte(2) == 2 && Byte(3) == 3 && Byte(5) == 5 && Byte(7) == 7
    ensures Byte(126) == 126 && Byte(127) == 127
  {
  }

  /** Lengths of more than 125 and of more than 65535 bytes. */
  lemma LongExamples()
    ensures EncodeHeader(Header(true, false, false, false, OP_BINARY, 256, false, NoKey())) == [0x82, 0x7e, 0x01, 0x00]
    ensures EncodeHeader(Header(true, false, false, false, OP_BINARY, 65536, false, NoKey()))
         == [0x82, 0x7f, 0x00, 0x00, 0x00, 0x00, 0x00, 0x01, 0x00, 0x00]
  {
    SmallBytes();
    LongLengths();
    hide Byte, BigEndian;
  }

  lemma LongLengths()
    ensures BigEndian(256, 2) == [0x01, 0x00]
    ensures BigEndian(65536, 8) == [0x00, 0x00, 0x00, 0x00, 0x00, 0x01, 0x00, 0x00]
  {
    SmallBytes();
    hide Byte;
    Zeros(5);
    assert BigEndian(1, 1) == BigEndian(0, 0) + [Byte(1)];
    assert BigEndian(1, 6) == BigEndian(0, 5) + [Byte(1)];
    hide BigEndian;
    LastByte(256, 2);
    LastByte(65536, 8);
    LastByte(256, 7);
  }

  lemma LastByte(n: nat, k: nat)
    requires k > 0
    ensures BigEndian(n, k) == BigEndian(n / 256, k - 1) + [Byte(n % 256)]
  {
  }

  lemma {:induction false} Zeros(k: nat)
    ensures BigEndian(0, k) == seq(k, _ => 0)
  {
    SmallBytes();
    hide Byte;
    if k > 0 {
      Zeros(k - 1);
      LastByte(0, k);
    }
  }

  // ---- Frames ----

  /** A frame with its payload as the application sees it, before masking. */
  datatype Frame = Frame(h: Header, payload: seq<bv8>) {
    predicate Valid() {
      h.Valid() && |payload| == h.payloadLength
    }
  }

  /** The payload as it travels. */
  function WirePayload(h: Header, payload: seq<bv8>): (s: seq<bv8>)
    ensures |s| == |payload|
  {
    if h.masked then Masked(payload, h.maskKey) else payload
  }

  function EncodeFrame(f: Frame): seq<bv8> {
    EncodeHeader(f.h) + WirePayload(f.h, f.payload)
  }

  function EncodeFrames(fs: seq<Frame>): seq<bv8> {
    if fs == [] then [] else EncodeFrame(fs[0]) + EncodeFrames(fs[1..])
  }

  lemma {:induction false} EncodeFramesAppend(fs: seq<Frame>, gs: seq<Frame>)
    ensures EncodeFrames(fs + gs) == EncodeFrames(fs) + EncodeFrames(gs)
  {
    hide EncodeFrame;
    if fs == [] {
      assert fs + gs == gs;
    } else {
      EncodeFramesAppend(fs[1..], gs);
      assert (fs + gs)[0] == fs[0] && (fs + gs)[1..] == fs[1..] + gs;
      Assoc(EncodeFrame(fs[0]), EncodeFrames(fs[1..]), EncodeFrames(gs));
    }
  }

  lemma EncodeFramesSnoc(fs: seq<Frame>, f: Frame)
    ensures EncodeFrames(fs + [f]) == EncodeFrames(fs) + EncodeFrame(f)
  {
    EncodeFramesAppend(fs, [f]);
    assert EncodeFrames([f]) == EncodeFrame(f) + EncodeFrames([]);
  }

  datatype FrameParse = NoFrame | OneFrame(f: Frame, n: nat)

  function ParseFrame(s: seq<bv8>): (p: FrameParse)
    ensures p.OneFrame? ==> 0 < p.n <= |s|
  {
    var p := ParseHeader(s);
    if !p.Parsed? || |s| < p.n + p.h.payloadLength then NoFrame
    else
      var end := p.n + p.h.payloadLength;
      OneFrame(Frame(p.h, WirePayload(p.h, s[p.n..end])), end)
  }

  /** The whole frames at the front of a stream. */
  function ParseFrames(s: seq<bv8>): seq<Frame>
    decreases |s|
  {
    var p := ParseFrame(s);
    if p.NoFrame? then [] else [p.f] + ParseFrames(s[p.n..])
  }

  lemma FrameRoundTrip(f: Frame, tail: seq<bv8>)
    requires f.Valid()
    ensures ParseFrame(EncodeFrame(f) + tail) == OneFrame(f, |EncodeFrame(f)|)
  {
    hide ParseHeader, EncodeHeader, Masked, Header.Valid;
    var head, body := EncodeHeader(f.h), WirePayload(f.h, f.payload);
    var s := EncodeFrame(f) + tail;
    HeaderRoundTrip(f.h, body + tail);
    assert s == head + (body + tail);
    assert s[|head|..|head| + |body|] == body;
    if f.h.masked {
      MaskedTwice(f.payload, f.h.maskKey);
    }
  }

  /** A stream of written frames parses back to those frames and to no others. */
  lemma {:induction false} FramesRoundTrip(fs: seq<Frame>)
    requires forall i :: 0 <= i < |fs| ==> fs[i].Valid()
    ensures ParseFrames(EncodeFrames(fs)) == fs
  {
    if fs != [] {
      var first, rest := EncodeFrame(fs[0]), EncodeFrames(fs[1..]);
      FrameRoundTrip(fs[0], rest);
      FramesRoundTrip(fs[1..]);
      assert (first + rest)[|first|..] == rest;
    }
  }

  /** Different frame sequences never share a byte stream. */
  lemma StreamsParseUniquely(fs: seq<Frame>, gs: seq<Frame>)
    requires forall i :: 0 <= i < |fs| ==> fs[i].Valid()
    requires forall i :: 0 <= i < |gs| ==> gs[i].Valid()
    requires EncodeFrames(fs) == EncodeFrames(gs)
    ensures fs == gs
  {
    FramesRoundTrip(fs);
    FramesRoundTrip(gs);
  }

  // ---- Bytes still to come do not change what has been parsed ----

  lemma ParseHeaderStable(s: seq<bv8>, more: seq<bv8>)
    requires ParseHeader(s).Parsed?
    ensures ParseHeader(s + more) == ParseHeader(s)
  {
    hide ReadFlags, ReadMasked, ReadShort, KeyFrom, FromBigEndian;
    var ext := ExtendedSize(ReadShort(s[1]));
    assert (s + more)[0] == s[0] && (s + more)[1] == s[1];
    assert (s + more)[2..2 + ext] == s[2..2 + ext];
    if ReadMasked(s[1]) {
      assert (s + more)[2 + ext..2 + ext + 4] == s[2 + ext..2 + ext + 4];
    }
  }

  /** And bytes behind what has been parsed are not needed for it. */
  lemma ParseHeaderArrived(s: seq<bv8>, more: seq<bv8>)
    requires ParseHeader(s + more).Parsed? && ParseHeader(s + more).n <= |s|
    ensures ParseHeader(s) == ParseHeader(s + more)
  {
    hide ReadFlags, ReadMasked, ReadShort, KeyFrom, FromBigEndian;
    var ext := ExtendedSize(ReadShort(s[1]));
    assert (s + more)[0] == s[0] && (s + more)[1] == s[1];
    assert (s + more)[2..2 + ext] == s[2..2 + ext];
    if ReadMasked(s[1]) {
      assert (s + more)[2 + ext..2 + ext + 4] == s[2 + ext..2 + ext + 4];
    }
  }

  lemma ParseFrameArrived(s: seq<bv8>, more: seq<bv8>)
    requires ParseFrame(s + more).OneFrame? && ParseFrame(s + more).n <= |s|
    ensures ParseFrame(s) == ParseFrame(s + more)
  {
    hide ParseHeader, WirePayload;
    ParseHeaderArrived(s, more);
    var p := ParseHeader(s);
    assert (s + more)[p.n..p.n + p.h.payloadLength] == s[p.n..p.n + p.h.payloadLength];
  }

  lemma NegativeLengthStable(s: seq<bv8>, more: seq<bv8>)
    requires ParseHeader(s) == NegativeLength
    ensures ParseHeader(s + more) == NegativeLength
  {
    hide ReadFlags, ReadMasked, ReadShort, KeyFrom, FromBigEndian;
    var ext := ExtendedSize(ReadShort(s[1]));
    assert (s + more)[0] == s[0] && (s + more)[1] == s[1];
    assert (s + more)[2..2 + ext] == s[2..2 + ext];
  }

  lemma ParseFrameStable(s: seq<bv8>, more: seq<bv8>)
    requires ParseFrame(s).OneFrame?
    ensures ParseFrame(s + more) == ParseFrame(s)
  {
    hide ParseHeader, WirePayload;
    ParseHeaderStable(s, more);
    var p := ParseHeader(s);
    assert (s + more)[p.n..p.n + p.h.payloadLength] == s[p.n..p.n + p.h.payloadLength];
  }
}
