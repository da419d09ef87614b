/**
 The history window of the frame decoder: bytes that stand in for a whole history,
 because no match reaches further back than 64 KB.
 */
module HistoryWindow {
  import opened Bytes
  import opened BlockFormat
  import opened History

  /** `e` serves as the history `h`: it is all of `h`, or both are long and end alike. */
  ghost predicate Window(e: seq<byte>, h: seq<byte>) {
    if |h| < KB64 then e == h else |e| >= KB64 && Last(e, KB64) == Last(h, KB64)
  }

  /** A buffer of `t` bytes is long enough for a window of a history of `n` bytes. */
  ghost predicate Spare(t: nat, n: nat) {
    if n < KB64 then t == n else t >= KB64
  }

  lemma WholeWindow(h: seq<byte>)
    ensures Window(h, h)
  {}

  lemma WindowGrows(e: seq<byte>, h: seq<byte>, p: seq<byte>)
    requires Window(e, h)
    ensures Window(e + p, h + p)
  {
    if |h| >= KB64 {
      SameEnd(e, h, p, KB64, KB64);
    }
  }

  /** Sequences that end alike for `k` bytes still do so, for `w` bytes, after both grow by `p`. */
  lemma SameEnd(a: seq<byte>, b: seq<byte>, p: seq<byte>, k: nat, w: nat)
    requires k <= |a| && k <= |b| && Last(a, k) == Last(b, k) && w <= k + |p|
    ensures w <= |a + p| && w <= |b + p| && Last(a + p, w) == Last(b + p, w)
  {
    LastOfSum(a, p, k, w);
    LastOfSum(b, p, k, w);
  }

  lemma LastOfSum(a: seq<byte>, p: seq<byte>, k: nat, w: nat)
    requires k <= |a| && w <= k + |p|
    ensures Last(a + p, w) == Last(Last(a, k) + p, w)
  {}

  /** A window may be cut to its last 64 KB or more. */
  lemma WindowCut(e: seq<byte>, h: seq<byte>, k: nat)
    requires Window(e, h) && KB64 <= k <= |e|
    ensures Window(Last(e, k), h)
  {
    LastOfLast(e, k, KB64);
  }

  /** What was written last is a window by itself once it is long enough. */
  lemma LongTail(e: seq<byte>, h: seq<byte>)
    requires |e| >= KB64 && EndsWith(h, e)
    ensures Window(e, h)
  {
    LastOfLast(h, |e|, KB64);
  }

  /** The end of a window, of 64 KB together with what is added, is a window of the grown history. */
  lemma WindowJoined(e: seq<byte>, h: seq<byte>, p: seq<byte>, k: nat)
    requires Window(e, h) && k <= |e| && |p| <= KB64
    requires k == |e| || k + |p| == KB64
    ensures Window(Last(e, k) + p, h + p)
  {
    hide Last;
    if k == |e| {
      assert Last(e, k) == e by { AllOfIt(e); }
      WindowGrows(e, h, p);
    } else {
      var w := Min(|h|, KB64);
      if |h| >= KB64 {
        assert Last(e, KB64) == Last(h, KB64);
        LastOfLast(e, KB64, k);
        LastOfLast(h, KB64, k);
      }
      assert Last(e, k) == Last(h, k);
      LastOfSum(h, p, k, KB64);
      AllOfIt(Last(h, k) + p);
    }
  }

  lemma AllOfIt(s: seq<byte>)
    ensures Last(s, |s|) == s
  {}

  /** What the end of a window holds, `f` bytes back, is what the history holds there. */
  lemma WindowInside(e: seq<byte>, h0: seq<byte>, b: seq<byte>, copy: nat)
    requires Window(e, h0 + b) && copy <= |h0| && copy + |b| <= KB64
    ensures |b| + copy <= |e| && e[|e| - |b| - copy..|e| - |b|] == Last(h0, copy)
  {
    var h := h0 + b;
    var n := copy + |b|;
    if |h| >= KB64 {
      LastOfLast(e, KB64, n);
      LastOfLast(h, KB64, n);
    }
    assert Last(e, n) == Last(h, n);
    assert e[|e| - |b| - copy..|e| - |b|] == Last(e, n)[..copy];
    assert Last(h, n)[..copy] == Last(h0, copy);
  }

  /** History copied in front of a block in a buffer makes a window, whatever lies before it. */
  lemma FrontedBlock(x: seq<byte>, h0: seq<byte>, b: seq<byte>, t: nat, copy: nat)
    requires Spare(t, |h0|) && copy == Min(if |b| > KB64 then 0 else KB64 - |b|, t) && |x| == t - copy
    ensures copy <= |h0| && Window(x + Last(h0, copy) + b, h0 + b)
  {
    var e := x + Last(h0, copy) + b;
    if |h0 + b| < KB64 {
      assert copy == |h0| && x == [];
      AllOfIt(h0);
    } else if |b| >= KB64 {
      assert Last(e, KB64) == Last(b, KB64) == Last(h0 + b, KB64);
    } else {
      assert copy == KB64 - |b|;
      assert e == x + (Last(h0, copy) + b);
      assert Last(e, KB64) == Last(h0, copy) + b == Last(h0 + b, KB64);
    }
  }

  lemma WindowSpare(e: seq<byte>, h: seq<byte>)
    requires Window(e, h)
    ensures Spare(|e|, |h|) && Spare(Min(|e|, KB64), |h|)
  {}

  /** Two decodings of one block, behind `e` and behind `h`, that produce the same bytes. */
  ghost predicate SameBlock(r: Decoded, e: seq<byte>, r': Decoded, h: seq<byte>) {
    match r
    case Corrupt => r'.Corrupt?
    case Decoded(o, c) => e <= o && r' == Decoded(h + o[|e|..], c)
  }

  /** A window is as good as the history it stands for. */
  lemma WindowDecodes(block: seq<byte>, e: seq<byte>, h: seq<byte>)
    requires Window(e, h)
    ensures SameBlock(Decode(block, 0, e), e, Decode(block, 0, h), h)
  {
    hide Decode, Last;
    if |h| < KB64 {
      SelfSame(Decode(block, 0, h), h);
    } else {
      var l := Last(h, KB64);
      var x, y := e[..|e| - KB64], h[..|h| - KB64];
      assert e == x + l && h == y + l by { SplitEnd(e, KB64); SplitEnd(h, KB64); }
      DecodeShifted(block, 0, x, l);
      DecodeShifted(block, 0, y, l);
      ShiftedAlike(Decode(block, 0, l), l, x, y);
    }
  }

  lemma SplitEnd(s: seq<byte>, k: nat)
    requires k <= |s|
    ensures s == s[..|s| - k] + Last(s, k)
  {}

  lemma SelfSame(r: Decoded, h: seq<byte>)
    requires r.Decoded? ==> h <= r.out
    ensures SameBlock(r, h, r, h)
  {}

  /** One block behind `l`, with `x` and with `y` in front. */
  lemma ShiftedAlike(r: Decoded, l: seq<byte>, x: seq<byte>, y: seq<byte>)
    requires r.Decoded? ==> l <= r.out
    ensures SameBlock(if r.Decoded? then Decoded(x + r.out, r.conforming) else r, x + l,
                      if r.Decoded? then Decoded(y + r.out, r.conforming) else r, y + l)
  {
    if r.Decoded? {
      var b := r.out[|l|..];
      assert x + r.out == (x + l) + b && y + r.out == (y + l) + b;
    }
  }
}
