/** Facts about sequences of anything, and copying one into an array. */
module Seqs {
  function Min(a: nat, b: nat): nat {
    if a < b then a else b
  }

  lemma Assoc<T>(a: seq<T>, b: seq<T>, c: seq<T>)
    ensures (a + b) + c == a + (b + c)
  {
  }

  lemma Split<T>(s: seq<T>, n: nat)
    requires n <= |s|
    ensures s == s[..n] + s[n..]
  {
  }

  lemma Join<T>(s: seq<T>, i: nat, j: nat, k: nat)
    requires i <= j <= k <= |s|
    ensures s[i..k] == s[i..j] + s[j..k]
  {
  }

  function Joined<T>(pieces: seq<seq<T>>): seq<T> {
    if pieces == [] then [] else pieces[0] + Joined(pieces[1..])
  }

  lemma {:induction false} JoinedSnoc<T>(pieces: seq<seq<T>>, p: seq<T>)
    ensures Joined(pieces + [p]) == Joined(pieces) + p
  {
    if pieces == [] {
      assert [p][1..] == [] && p + [] == p && [] + p == p;
    } else {
      JoinedSnoc(pieces[1..], p);
      assert (pieces + [p])[1..] == pieces[1..] + [p];
      Assoc(pieces[0], Joined(pieces[1..]), p);
    }
  }

  /** copy(p[lo:], piece). */
  method Paste<T>(p: array<T>, lo: nat, piece: seq<T>)
    requires lo + |piece| <= p.Length
    modifies p
    ensures p[lo..lo + |piece|] == piece
    ensures p[..lo] == old(p[..lo]) && p[lo + |piece|..] == old(p[lo + |piece|..])
  {
    forall i | 0 <= i < |piece| {
      p[lo + i] := piece[i];
    }
  }
}
