/** Bytes, and the big-endian numbers of the frame header. */
module Bytes {
  /** A byte from its two halves. */
  function Both(high: bv4, low: bv4): bv8 {
    (high as bv8 << 4) | low as bv8
  }

  function High(b: bv8): bv4 {
    (b >> 4) as bv4
  }

  function Low(b: bv8): bv4 {
    (b & 0xf) as bv4
  }

  /** The number a byte stands for. */
  function Nat(b: bv8): (n: int)
    ensures 0 <= n < 256
  {
    16 * (High(b) as int) + Low(b) as int
  }

  /** The byte that stands for a number below 256. */
  function Byte(n: int): (b: bv8)
    requires 0 <= n < 256
    ensures Nat(b) == n
  {
    HalfByte(n / 16);
    HalfByte(n % 16);
    Halves((n / 16) as bv4, (n % 16) as bv4);
    Both((n / 16) as bv4, (n % 16) as bv4)
  }

  lemma HalfByte(n: int)
    requires 0 <= n < 16
    ensures (n as bv4) as int == n
  {
  }

  lemma Halves(high: bv4, low: bv4)
    ensures High(Both(high, low)) == high && Low(Both(high, low)) == low
  {
  }

  lemma BothHalves(b: bv8)
    ensures Both(High(b), Low(b)) == b
  {
  }

  lemma ByteOfNat(b: bv8)
    ensures Byte(Nat(b)) == b
  {
    hide High, Low, Both;
    BothHalves(b);
    Quotients(High(b) as int, Low(b) as int);
  }

  lemma Quotients(high: int, low: int)
    requires 0 <= low < 16
    ensures (16 * high + low) / 16 == high && (16 * high + low) % 16 == low
  {
  }

  function Pow256(k: nat): (p: nat)
    ensures p > 0
  {
    if k == 0 then 1 else 256 * Pow256(k - 1)
  }

  /** binary.BigEndian.PutUint16 and PutUint64: the low k bytes of n, most significant first. */
  function BigEndian(n: nat, k: nat): (s: seq<bv8>)
    ensures |s| == k
  {
    if k == 0 then [] else BigEndian(n / 256, k - 1) + [Byte(n % 256)]
  }

  /** binary.BigEndian.Uint16 and Uint64. */
  function FromBigEndian(s: seq<bv8>): (n: nat)
    ensures n < Pow256(|s|)
  {
    if s == [] then 0 else 256 * FromBigEndian(s[..|s| - 1]) + Nat(s[|s| - 1])
  }

  lemma OneMoreByte(front: seq<bv8>, last: bv8)
    ensures FromBigEndian(front + [last]) == 256 * FromBigEndian(front) + Nat(last)
  {
    hide Nat;
    assert (front + [last])[..|front|] == front;
  }

  lemma Quotient(n: nat, k: nat)
    requires k > 0 && n < Pow256(k)
    ensures n / 256 < Pow256(k - 1) && 256 * (n / 256) + n % 256 == n
  {
  }

  lemma {:induction false} BigEndianRoundTrip(n: nat, k: nat)
    requires n < Pow256(k)
    ensures FromBigEndian(BigEndian(n, k)) == n
  {
    hide Nat, Byte, FromBigEndian;
    if k > 0 {
      Quotient(n, k);
      BigEndianRoundTrip(n / 256, k - 1);
      OneMoreByte(BigEndian(n / 256, k - 1), Byte(n % 256));
    }
  }

  lemma BigEndianStep(front: seq<bv8>, last: bv8, x: nat, d: nat)
    requires BigEndian(x, |front|) == front
    requires d < 256 && Byte(d) == last
    ensures BigEndian(256 * x + d, |front| + 1) == front + [last]
  {
    hide Byte;
    Digits(x, d);
  }

  lemma Digits(x: nat, d: nat)
    requires d < 256
    ensures (256 * x + d) / 256 == x && (256 * x + d) % 256 == d
  {
  }

  lemma {:induction false} BigEndianOfValue(s: seq<bv8>)
    ensures BigEndian(FromBigEndian(s), |s|) == s
  {
    hide Nat, Byte, BigEndian, Pow256;
    if s == [] {
      BigEndianNothing(0);
    } else {
      var front, last := s[..|s| - 1], s[|s| - 1];
      assert s == front + [last];
      BigEndianOfValue(front);
      ByteOfNat(last);
      BigEndianStep(front, last, FromBigEndian(front), Nat(last));
    }
  }

  lemma BigEndianNothing(n: nat)
    ensures BigEndian(n, 0) == []
  {
  }
}
