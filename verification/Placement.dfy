/**
 Where the history lies, in front of the output or elsewhere, makes a difference to the decoder: the relaxed distance
 for a short match is granted only inside the prefix. A block may thus be taken in one place and refused in another.
 */
module Placement {
  import opened Bytes
  import opened BlockFormat
  import opened BlockEncoding
  import opened BlockDecoder
  import opened History
  import opened HistoryWindow

  /** One sequence keeps its distances: token at `i`, `ll` literals at `p`, a match of `mc` and four bytes. */
  predicate Fits(j: Job, i: nat, op: int, ll: nat, p: nat, mc: nat, q: nat)
    requires i < |j.src| && p + ll + 2 <= |j.src|
  {
    var nibble, offset, short := j.src[i] as int % 16, Read16(j.src, p + ll), Short(j, p, op, ll);
    && (short || (op + ll <= j.oend - MFLIMIT && p + ll <= |j.src| - (2 + 1 + LASTLITERALS)))
    && (nibble == ML_MASK ==> q <= |j.src| - LASTLITERALS + 1) && offset <= |j.dict| + op + ll - j.lo
    && (op + ll + mc + MINMATCH <= j.oend - LASTLITERALS
        || (short && nibble != ML_MASK && 8 <= offset <= op + ll - j.lo))
  }

  lemma OneTaken(j: Job, i: nat, op: int, ll: nat, p: nat, mc: nat, q: nat)
    requires i < |j.src| && ReadLength(j.src, i + 1, j.src[i] as int / 16) == Length(ll, p) && p + ll + 2 <= |j.src|
    requires ReadLength(j.src, p + ll + 2, j.src[i] as int % 16) == Length(mc, q)
    ensures Takes(j, i, op) <==> Fits(j, i, op, ll, p, mc, q) && Takes(j, q, op + ll + mc + MINMATCH)
  {
    hide ReadLength;
    var nibble, offset, short := j.src[i] as int % 16, Read16(j.src, p + ll), Short(j, p, op, ll);
    assert TakesMatch(j, p + ll + 2, op + ll, nibble, offset, short) <==>
      && (nibble == ML_MASK ==> q <= |j.src| - LASTLITERALS + 1) && offset <= |j.dict| + op + ll - j.lo
      && (op + ll + mc + MINMATCH <= j.oend - LASTLITERALS
          || (short && nibble != ML_MASK && 8 <= offset <= op + ll - j.lo))
      && Takes(j, q, op + ll + mc + MINMATCH);
  }

  /** What a taken block starts with: literals to its end, or a whole sequence. */
  lemma TakenReads(j: Job, i: nat, op: int)
    requires Takes(j, i, op)
    ensures i < |j.src| && ReadLength(j.src, i + 1, j.src[i] as int / 16).Length?
    ensures var Length(ll, p) := ReadLength(j.src, i + 1, j.src[i] as int / 16);
      if p + ll >= |j.src| then p + ll == |j.src| && op + ll <= j.oend
      else p + ll + 2 <= |j.src| && ReadLength(j.src, p + ll + 2, j.src[i] as int % 16).Length?
  {
    hide ReadLength;
    var Length(ll, p) := ReadLength(j.src, i + 1, j.src[i] as int / 16);
    if p + ll < |j.src| {
      assert TakesMatch(j, p + ll + 2, op + ll, j.src[i] as int % 16, Read16(j.src, p + ll), Short(j, p, op, ll));
    }
  }

  lemma LastTaken(j: Job, i: nat, op: int)
    requires i < |j.src| && ReadLength(j.src, i + 1, j.src[i] as int / 16).Length?
    requires var Length(ll, p) := ReadLength(j.src, i + 1, j.src[i] as int / 16);
      p + ll == |j.src| && op + ll <= j.oend
    ensures Takes(j, i, op)
  {
    hide ReadLength;
  }

  /** With more room, more history and more of it in the prefix, no less is taken. */
  lemma {:induction false} Easier(j: Job, k: Job, i: nat, op: int, op': int)
    requires k.src == j.src && j.oend - op <= k.oend - op' && Min(op - j.lo, DISTANCE_MAX) <= op' - k.lo
    requires Min(|j.dict| + op - j.lo, DISTANCE_MAX) <= |k.dict| + op' - k.lo
    ensures Takes(j, i, op) ==> Takes(k, i, op')
    decreases |j.src| - i
  {
    hide ReadLength, Takes;
    if Takes(j, i, op) {
      TakenReads(j, i, op);
      var Length(ll, p) := ReadLength(j.src, i + 1, j.src[i] as int / 16);
      if p + ll == |j.src| {
        LastTaken(k, i, op');
      } else {
        var Length(mc, q) := ReadLength(j.src, p + ll + 2, j.src[i] as int % 16);
        OneTaken(j, i, op, ll, p, mc, q);
        OneTaken(k, i, op', ll, p, mc, q);
        Easier(j, k, q, op + ll + mc + MINMATCH, op' + ll + mc + MINMATCH);
      }
    }
  }

  /** Taken behind the history `h`, in any place: also when all of it is external. */
  predicate TakenAlways(block: seq<byte>, h: seq<byte>, room: nat) {
    Takes(Job(block, 0, room, UsingExtDict, 0, h), 0, 0)
  }

  /** Taken behind the history `h` in some place, which then is in front of the output. */
  predicate TakenEver(block: seq<byte>, h: seq<byte>, room: nat) {
    Takes(Job(block, |h|, |h| + room, NoDict, 0, []), 0, |h|)
  }

  /** Whatever the place, and however much of a long history is at hand, the decoder is between the two. */
  lemma InAnyPlace(j: Job, h: seq<byte>, d: seq<byte>)
    requires j.lo <= j.dst <= j.oend && Window(d, h) && |d| == |j.dict| + j.dst - j.lo
    ensures TakenAlways(j.src, h, j.oend - j.dst) ==> Takes(j, 0, j.dst)
    ensures Takes(j, 0, j.dst) ==> TakenEver(j.src, h, j.oend - j.dst)
  {
    hide Takes, Last;
    var room := j.oend - j.dst;
    Easier(Job(j.src, 0, room, UsingExtDict, 0, h), j, 0, 0, j.dst);
    Easier(j, Job(j.src, |h|, |h| + room, NoDict, 0, []), 0, j.dst, |h|);
  }

  /** A window serves as well as the whole history. */
  lemma SameWindow(block: seq<byte>, d: seq<byte>, h: seq<byte>, room: nat)
    requires Window(d, h)
    ensures TakenAlways(block, d, room) <==> TakenAlways(block, h, room)
    ensures TakenEver(block, d, room) <==> TakenEver(block, h, room)
  {
    hide Takes, Last;
    var far, far' := Job(block, 0, room, UsingExtDict, 0, d), Job(block, 0, room, UsingExtDict, 0, h);
    Easier(far, far', 0, 0, 0);
    Easier(far', far, 0, 0, 0);
    var near, near' := Job(block, |d|, |d| + room, NoDict, 0, []), Job(block, |h|, |h| + room, NoDict, 0, []);
    Easier(near, near', 0, |d|, |h|);
    Easier(near', near, 0, |h|, |d|);
  }

  /** A conforming block that fits is taken always. */
  lemma ConformingAlways(block: seq<byte>, h: seq<byte>, room: nat)
    ensures var r := Decode(block, 0, h);
      r.Decoded? && r.conforming && |r.out| <= |h| + room ==>
        TakenAlways(block, h, room) && TakenEver(block, h, room)
  {
    hide Decode, Takes;
    ConformingTaken(Job(block, 0, room, UsingExtDict, 0, h), 0, 0, h);
    ConformingTaken(Job(block, |h|, |h| + room, NoDict, 0, []), 0, |h|, h);
  }

  /** In a large output the place makes no difference: close to its end no offset reaches the history. */
  lemma SamePlace(block: seq<byte>, h: seq<byte>, room: nat)
    requires room >= DISTANCE_MAX + 22 || h == []
    ensures TakenAlways(block, h, room) <==> TakenEver(block, h, room)
  {
    hide Takes;
    AwayFromEnd(block, h, room, 0, 0);
    AlwaysIsEver(block, h, room);
  }

  lemma AlwaysIsEver(block: seq<byte>, h: seq<byte>, room: nat)
    ensures TakenAlways(block, h, room) ==> TakenEver(block, h, room)
  {
    hide Takes;
    Easier(Job(block, 0, room, UsingExtDict, 0, h), Job(block, |h|, |h| + room, NoDict, 0, []), 0, 0, |h|);
  }

  lemma NoExtension(src: seq<byte>, p: nat, nibble: nat)
    ensures nibble < ML_MASK ==> ReadLength(src, p, nibble) == Length(nibble, p)
  {}

  lemma {:induction false} AwayFromEnd(block: seq<byte>, h: seq<byte>, room: nat, i: nat, op: nat)
    requires room >= DISTANCE_MAX + 22 || h == []
    ensures Takes(Job(block, |h|, |h| + room, NoDict, 0, []), i, |h| + op) ==>
      Takes(Job(block, 0, room, UsingExtDict, 0, h), i, op)
    decreases |block| - i
  {
    hide ReadLength, Takes;
    var j, k := Job(block, |h|, |h| + room, NoDict, 0, []), Job(block, 0, room, UsingExtDict, 0, h);
    if Takes(j, i, |h| + op) {
      TakenReads(j, i, |h| + op);
      var Length(ll, p) := ReadLength(block, i + 1, block[i] as int / 16);
      if p + ll == |block| {
        LastTaken(k, i, op);
      } else {
        var Length(mc, q) := ReadLength(block, p + ll + 2, block[i] as int % 16);
        NoExtension(block, p + ll + 2, block[i] as int % 16);
        OneTaken(j, i, |h| + op, ll, p, mc, q);
        OneTaken(k, i, op, ll, p, mc, q);
        AwayFromEnd(block, h, room, q, op + ll + mc + MINMATCH);
      }
    }
  }

  // --- A block of 64 KB to which it does make a difference ---

  /** One byte repeated, 14 literals, and a match of 18 bytes that reaches as far back as an offset can. */
  function FarMatch(x: byte, lits: seq<byte>): seq<byte>
    requires |lits| == 14
  {
    EncodeSequence(Sequence([x], 1, 65503)) + ([0xEE] + lits + [0xFF, 0xFF, 0x00])
  }

  /** The second sequence, right at the end: it is taken if and only if the match starts in the prefix. */
  lemma LastMatch(j: Job, i: nat, op: int)
    requires |j.src| == i + 18 && op == j.oend - 32 && DISTANCE_MAX <= |j.dict| + op + 14 - j.lo
    requires j.src[i] == 0xEE && j.src[i + 15] == 0xFF && j.src[i + 16] == 0xFF && j.src[i + 17] == 0
    ensures Takes(j, i, op) <==> DISTANCE_MAX <= op + 14 - j.lo
  {
    assert Takes(j, i + 17, op + 32);
    assert ReadLength(j.src, i + 1, 14) == Length(14, i + 1) && Short(j, i + 1, op, 14);
    assert ReadLength(j.src, i + 17, 14) == Length(14, i + 17) && Read16(j.src, i + 15) == DISTANCE_MAX;
    assert TakesMatch(j, i + 17, op + 14, 14, DISTANCE_MAX, true) <==> DISTANCE_MAX <= op + 14 - j.lo;
  }

  /** The first sequence is taken wherever the history is. */
  lemma FirstMatch(j: Job, s: Sequence, tail: seq<byte>)
    requires s.offset == 1 && |s.lits| == 1 && s.matchLen == 65503 && |tail| == 18
    requires j.src == EncodeSequence(s) + tail && j.lo <= j.dst && j.oend == j.dst + KB64
    ensures Takes(j, 0, j.dst) <==> Takes(j, |EncodeSequence(s)|, j.dst + 65504)
  {
    hide ReadLength, EncodeLength, Takes;
    var m := EncodeLength(65499);
    assert EncodeLength(1) == [] by { ShortLength(); }
    assert EncodeSequence(s) == [0x1F, s.lits[0], 1, 0] + m;
    assert Holds(j.src, 4, m);
    ReadEncodedLength(j.src, 4, 65499);
    assert j.src[0] == 0x1F && j.src[2] == 1 && j.src[3] == 0;
    NoExtension(j.src, 1, 1);
    OneTaken(j, 0, j.dst, 1, 1, 65499, |EncodeSequence(s)|);
  }

  lemma ShortLength()
    ensures EncodeLength(1) == []
  {}

  lemma PlaceMatters(x: byte, lits: seq<byte>, h: seq<byte>)
    requires |lits| == 14 && |h| >= 17
    ensures TakenEver(FarMatch(x, lits), h, KB64) && !TakenAlways(FarMatch(x, lits), h, KB64)
    ensures |FarMatch(x, lits)| <= KB64
  {
    hide Takes, EncodeSequence;
    var s := Sequence([x], 1, 65503);
    var e, tail, block := EncodeSequence(s), [0xEE] + lits + [0xFF, 0xFF, 0x00], FarMatch(x, lits);
    var near, far := Job(block, |h|, |h| + KB64, NoDict, 0, []), Job(block, 0, KB64, UsingExtDict, 0, h);
    assert tail[0] == 0xEE && tail[15] == 0xFF && tail[16] == 0xFF && tail[17] == 0;
    FirstMatch(near, s, tail);
    FirstMatch(far, s, tail);
    LastMatch(near, |e|, |h| + 65504);
    LastMatch(far, |e|, 65504);
  }
}
