/** The frames at the front of any byte stream, and where each of them ends. */
module FrameStream {
  import opened Wrappers
  import opened Seqs
  import opened Frame

  datatype Prefix = Prefix(frames: seq<Frame>, end: nat)

  /** The first k frames of s, if s begins with k whole frames. */
  function FirstFrames(s: seq<bv8>, k: nat): (p: Option<Prefix>)
    ensures p.Some? ==> p.value.end <= |s| && |p.value.frames| == k
  {
    if k == 0 then Some(Prefix([], 0))
    else
      var p := FirstFrames(s, k - 1);
      if p.None? then None
      else
        var next := ParseFrame(s[p.value.end..]);
        if next.NoFrame? then None
        else Some(Prefix(p.value.frames + [next.f], p.value.end + next.n))
  }

  /** pos is where the first k frames of s end. */
  ghost predicate IsBoundary(s: seq<bv8>, k: nat, pos: nat) {
    FirstFrames(s, k).Some? && FirstFrames(s, k).value.end == pos
  }

  /** pos is where some number of first frames ends. */
  ghost predicate OnBoundary(s: seq<bv8>, pos: nat) {
    exists k: nat :: IsBoundary(s, k, pos)
  }

  ghost predicate OnBoundaries(s: seq<bv8>, starts: seq<nat>) {
    forall i :: 0 <= i < |starts| ==> OnBoundary(s, starts[i])
  }

  lemma AtBoundary(s: seq<bv8>, k: nat, pos: nat)
    requires IsBoundary(s, k, pos)
    ensures OnBoundary(s, pos)
  {
  }

  /** A position is where one number of frames ends only. */
  lemma OneBoundary(s: seq<bv8>, j: nat, k: nat, pos: nat)
    requires IsBoundary(s, j, pos) && IsBoundary(s, k, pos)
    ensures j == k
  {
    hide FirstFrames;
    if j < k {
      FirstFramesMonotone(s, j, k);
    } else if k < j {
      FirstFramesMonotone(s, k, j);
    }
  }

  lemma OnNoBoundary(s: seq<bv8>)
    ensures OnBoundaries(s, [])
  {
  }

  lemma OneMoreStart(s: seq<bv8>, starts: seq<nat>, k: nat, pos: nat)
    requires OnBoundaries(s, starts) && IsBoundary(s, k, pos)
    ensures OnBoundaries(s, starts + [pos])
  {
    hide IsBoundary;
    assert OnBoundary(s, pos);
  }

  lemma OneMoreFrame(s: seq<bv8>, k: nat, p: Prefix, f: Frame, n: nat)
    requires FirstFrames(s, k) == Some(p) && ParseFrame(s[p.end..]) == OneFrame(f, n)
    ensures FirstFrames(s, k + 1) == Some(Prefix(p.frames + [f], p.end + n))
  {
    hide ParseFrame;
  }

  /** In a stream that starts with written frames, those are the first frames. */
  lemma {:induction false} FirstFramesWritten(fs: seq<Frame>, tail: seq<bv8>, k: nat)
    requires k <= |fs| && forall i :: 0 <= i < |fs| ==> fs[i].Valid()
    ensures FirstFrames(EncodeFrames(fs) + tail, k) == Some(Prefix(fs[..k], |EncodeFrames(fs[..k])|))
  {
    hide *;
    if k == 0 {
      assert fs[..0] == [];
      NoFrames(EncodeFrames(fs) + tail);
    } else {
      FirstFramesWritten(fs, tail, k - 1);
      OneMoreWritten(EncodeFrames(fs) + tail, fs, tail, k - 1, fs[..k - 1], fs[k - 1]);
    }
  }

  lemma NoFrames(s: seq<bv8>)
    ensures FirstFrames(s, 0) == Some(Prefix([], 0)) && EncodeFrames([]) == []
  {
  }

  lemma OneMoreWritten(s: seq<bv8>, fs: seq<Frame>, tail: seq<bv8>, k: nat, before: seq<Frame>, f: Frame)
    requires s == EncodeFrames(fs) + tail && k < |fs| && before == fs[..k] && f == fs[k] && f.Valid()
    requires FirstFrames(s, k) == Some(Prefix(before, |EncodeFrames(before)|))
    ensures FirstFrames(s, k + 1) == Some(Prefix(fs[..k + 1], |EncodeFrames(fs[..k + 1])|))
  {
    hide *;
    FrameAfter(fs, tail, k);
    ghost var rest := EncodeFrames(fs[k + 1..]) + tail;
    FrameRoundTrip(f, rest);
    OneMoreFrame(s, k, Prefix(before, |EncodeFrames(before)|), f, |EncodeFrame(f)|);
    EncodeFramesSnoc(before, f);
    assert fs[..k + 1] == before + [f];
  }

  lemma FrameAfter(fs: seq<Frame>, tail: seq<bv8>, k: nat)
    requires k < |fs|
    ensures |EncodeFrames(fs[..k])| <= |EncodeFrames(fs)|
    ensures (EncodeFrames(fs) + tail)[|EncodeFrames(fs[..k])|..]
         == EncodeFrame(fs[k]) + (EncodeFrames(fs[k + 1..]) + tail)
  {
    hide EncodeFrame;
    var front, rest := fs[..k], fs[k..];
    assert fs == front + rest && rest[0] == fs[k] && rest[1..] == fs[k + 1..];
    EncodeFramesAppend(front, rest);
    Assoc(EncodeFrames(front), EncodeFrames(rest), tail);
    Assoc(EncodeFrame(fs[k]), EncodeFrames(fs[k + 1..]), tail);
  }

  /** Fewer frames are a prefix of more. */
  lemma {:induction false} FirstFramesMonotone(s: seq<bv8>, j: nat, k: nat)
    requires j <= k && FirstFrames(s, k).Some?
    ensures FirstFrames(s, j).Some?
    ensures FirstFrames(s, j).value.frames == FirstFrames(s, k).value.frames[..j]
    ensures j < k ==> FirstFrames(s, j).value.end < FirstFrames(s, k).value.end
  {
    hide ParseFrame;
    if j < k {
      FirstFramesMonotone(s, j, k - 1);
    }
  }

  /** Inside a frame, behind its start and before its end, there is no boundary. */
  lemma NoBoundaryInside(s: seq<bv8>, k: nat, end: nat, pos: nat)
    requires k > 0 && IsBoundary(s, k, end) && FirstFrames(s, k - 1).value.end < pos < end
    ensures !OnBoundary(s, pos)
  {
    hide FirstFrames;
    FirstFramesMonotone(s, k - 1, k);
    forall j: nat | IsBoundary(s, j, pos)
      ensures false
    {
      if j < k {
        FirstFramesMonotone(s, j, k - 1);
      } else {
        FirstFramesMonotone(s, k, j);
      }
    }
  }

  lemma {:induction false} FirstFramesStable(s: seq<bv8>, more: seq<bv8>, k: nat)
    requires FirstFrames(s, k).Some?
    ensures FirstFrames(s + more, k) == FirstFrames(s, k)
  {
    hide ParseFrame;
    if k > 0 {
      FirstFramesStable(s, more, k - 1);
      var end := FirstFrames(s, k - 1).value.end;
      ParseFrameStable(s[end..], more);
      assert (s + more)[end..] == s[end..] + more;
    }
  }

  /** The first frames of a stream are there as soon as their bytes are. */
  lemma {:induction false} FirstFramesArrived(s: seq<bv8>, more: seq<bv8>, k: nat)
    requires FirstFrames(s + more, k).Some? && FirstFrames(s + more, k).value.end <= |s|
    ensures FirstFrames(s, k) == FirstFrames(s + more, k)
  {
    hide ParseFrame;
    if k > 0 {
      var end := FirstFrames(s + more, k - 1).value.end;
      FirstFramesMonotone(s + more, k - 1, k);
      FirstFramesArrived(s, more, k - 1);
      assert (s + more)[end..] == s[end..] + more;
      ParseFrameArrived(s[end..], more);
    }
  }

  /** The stream of written frames holds no frame after the last one. */
  lemma NoMoreFrames(fs: seq<Frame>, k: nat)
    requires k > |fs| && forall i :: 0 <= i < |fs| ==> fs[i].Valid()
    ensures FirstFrames(EncodeFrames(fs), k).None?
  {
    hide EncodeFrames;
    var all := EncodeFrames(fs);
    assert all + [] == all && fs[..|fs|] == fs && all[|all|..] == [];
    FirstFramesWritten(fs, [], |fs|);
    assert FirstFrames(all, |fs| + 1).None?;
    if FirstFrames(all, k).Some? {
      FirstFramesMonotone(all, |fs| + 1, k);
    }
  }

  /** A receiver of any part of what was written finds the written frames, in order, and no others. */
  lemma FramesOfPrefix(s: seq<bv8>, fs: seq<Frame>, k: nat)
    requires s <= EncodeFrames(fs) && forall i :: 0 <= i < |fs| ==> fs[i].Valid()
    requires FirstFrames(s, k).Some?
    ensures k <= |fs| && FirstFrames(s, k) == Some(Prefix(fs[..k], |EncodeFrames(fs[..k])|))
  {
    hide *;
    var all := EncodeFrames(fs);
    FirstFramesStable(s, all[|s|..], k);
    assert all == s + all[|s|..] == all + [];
    if k > |fs| {
      NoMoreFrames(fs, k);
      assert false;
    }
    FirstFramesWritten(fs, [], k);
  }
}
