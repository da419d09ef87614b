/** The buffers in which the frame decoder keeps the history of linked blocks. */
module FrameMemory {
  import opened Bytes
  import opened MemCopy
  import opened History
  import opened HistoryWindow

  /** Where the history of the next block lies. */
  datatype Place = Nowhere | InTmp | InDst(at: nat) | InUser(bytes: seq<byte>)

  datatype Mem = Mem(dict: Place, dictSize: nat, tmp: seq<byte>, tmpOut: nat, tmpOutSize: nat, tmpOutStart: nat,
                     dst: seq<byte>, dp: nat)
  {
    ghost predicate InRange() {
      dp <= |dst| &&
      match dict
      case Nowhere => dictSize == 0
      case InTmp => dictSize <= |tmp|
      case InDst(at) => at + dictSize == dp
      case InUser(bytes) => dictSize == |bytes|
    }

    ghost function Dict(): (d: seq<byte>)
      requires InRange()
      ensures |d| == dictSize
    {
      match dict
      case Nowhere => []
      case InTmp => tmp[..dictSize]
      case InDst(at) => dst[at..at + dictSize]
      case InUser(bytes) => bytes
    }

    /** Between blocks: the dictionary is a window of the history. */
    ghost predicate Idle(h: seq<byte>) {
      InRange() && Window(Dict(), h)
    }

    ghost predicate HasBlock() {
      tmpOutStart <= tmpOutSize && tmpOut + tmpOutSize <= |tmp|
    }

    /** The decoded block in tmpOut. */
    ghost function Block(): (b: seq<byte>)
      requires HasBlock()
      ensures |b| == tmpOutSize
    {
      tmp[tmpOut..tmpOut + tmpOutSize]
    }

    /** With a decoded block in tmpOut of which `pending` is not yet delivered. */
    ghost predicate Flushing(h: seq<byte>, pending: seq<byte>) {
      && InRange() && HasBlock() && pending == Block()[tmpOutStart..]
      && tmpOutStart <= |h| && Last(h, tmpOutStart) == Block()[..tmpOutStart]
      && Spare(tmpOut, |h| - tmpOutStart)
      && (if dict == InTmp then dictSize == tmpOut + tmpOutStart && Window(tmp[..tmpOut + tmpOutSize], h + pending)
          else Window(Dict(), h) && (dict.InUser? ==> tmpOutStart == 0))
    }

    /** Independent blocks: the user's dictionary never moves. */
    ghost predicate Independent(user: seq<byte>) {
      InRange() && (dict == Nowhere || dict.InUser?) && Dict() == user && tmpOut == 0
    }
  }

  /** While a block is flushed from tmpOut, the dictionary reaches `copy` bytes back from that block. */
  lemma FlushingDict(m: Mem, h: seq<byte>, pending: seq<byte>, copy: nat)
    requires m.Flushing(h, pending) && m.dict != InTmp
    requires copy == Min(if m.tmpOutSize > KB64 then 0 else KB64 - m.tmpOutSize, m.tmpOut)
    ensures m.InRange() && m.tmpOut + m.tmpOutSize <= |m.tmp| && m.tmpOutStart <= m.tmpOutSize
    ensures m.tmpOutStart <= |h| && copy <= |h| - m.tmpOutStart
    ensures copy == 0 ==> Last(h[..|h| - m.tmpOutStart], copy) == []
    ensures copy > 0 ==> var e, f := m.Dict(), m.tmpOutStart;
      f + copy <= |e| && e[|e| - f - copy..|e| - f] == Last(h[..|h| - f], copy)
  {
    hide Window, Last;
    var f := m.tmpOutStart;
    SplitLast(h, f);
    if copy > 0 {
      WindowInside(m.Dict(), h[..|h| - f], Last(h, f), copy);
    }
  }

  lemma Fronted(m: Mem, m': Mem, h: seq<byte>, pending: seq<byte>, copy: nat)
    requires m.Flushing(h, pending) && m.dict != InTmp
    requires copy == Min(if m.tmpOutSize > KB64 then 0 else KB64 - m.tmpOutSize, m.tmpOut)
    requires m' == m.(dict := InTmp, dictSize := m.tmpOut + m.tmpOutStart, tmp := m'.tmp)
    requires |m'.tmp| == |m.tmp| && SameOutside(m.tmp, m'.tmp, m.tmpOut - copy, m.tmpOut)
    requires m.tmpOutStart <= |h| && copy <= |h| - m.tmpOutStart
    requires m'.tmp[m.tmpOut - copy..m.tmpOut] == Last(h[..|h| - m.tmpOutStart], copy)
    ensures m'.Flushing(h, pending)
  {
    hide Window, Last, SameOutside;
    var t, n := m.tmpOut, m.tmpOutSize;
    var h0 := h[..|h| - m.tmpOutStart];
    FrontedBlock(m'.tmp[..t - copy], h0, m.Block(), t, copy);
    SegmentKept(m.tmp, m'.tmp, t, t + n, t - copy, t);
    assert m'.Block() == m.Block();
    ThreeParts(m'.tmp, t - copy, t, t + n);
    BlockAndHistory(m, h, pending);
  }

  lemma BlockAndHistory(m: Mem, h: seq<byte>, pending: seq<byte>)
    requires m.Flushing(h, pending)
    ensures h + pending == h[..|h| - m.tmpOutStart] + m.Block()
  {
    hide Window, Last, Mem.Block;
    var f := m.tmpOutStart;
    SplitLast(h, f);
    assert m.Block() == m.Block()[..f] + pending;
    Regrouped(h[..|h| - f], m.Block()[..f], pending);
  }

  lemma ThreeParts(s: seq<byte>, i: nat, j: nat, k: nat)
    requires i <= j <= k <= |s|
    ensures s[..k] == s[..i] + s[i..j] + s[j..k]
  {}

  lemma SplitLast(h: seq<byte>, k: nat)
    requires k <= |h|
    ensures h == h[..|h| - k] + Last(h, k)
  {}

  lemma InsideFlush(m: Mem, h: seq<byte>, pending: seq<byte>)
    requires m.Flushing(h, pending)
    ensures m.InRange() && m.HasBlock() && |pending| == m.tmpOutSize - m.tmpOutStart
    ensures m.dict != InTmp ==> Window(m.Dict(), h)
  {}

  lemma NoHistory(m: Mem, h: seq<byte>, pending: seq<byte>, flushing: bool)
    requires m.dictSize == 0 && (if flushing then m.Flushing(h, pending) else m.Idle(h))
    ensures var m' := m.(dict := InDst(m.dp)); if flushing then m'.Flushing(h, pending) else m'.Idle(h)
  {
    hide Last;
    assert h == [];
  }

  /** The next `n` bytes of the block in tmpOut are delivered. */
  lemma Delivered(m: Mem, h: seq<byte>, p: seq<byte>, pending: seq<byte>, n: nat)
    requires m.Flushing(h, pending) && n <= |pending| && p == pending[..n]
    ensures m.tmpOutStart + n <= m.tmpOutSize
    ensures (h + p) + pending[n..] == h + pending
    ensures Last(h + p, m.tmpOutStart + n) == m.Block()[..m.tmpOutStart + n]
    ensures pending[n..] == m.Block()[m.tmpOutStart + n..]
  {
    hide Window, Spare, Mem.Block;
    var f, b := m.tmpOutStart, m.Block();
    assert b[..f + n] == b[..f] + p;
    LastOfSum(h, p, f, f + n);
    AllOfIt(b[..f] + p);
    assert (h + p) + pending[n..] == h + (p + pending[n..]);
  }

  /** The dictionary, extended by `p`, now lies in the destination buffer. */
  lemma NowInDst(m: Mem, m': Mem, h: seq<byte>, p: seq<byte>, pending: seq<byte>, flushing: bool)
    requires m'.dict.InDst? && m'.InRange() && Window(m'.Dict(), h + p)
    requires m' == m.(dict := m'.dict, dictSize := m'.dictSize, dp := m'.dp)
    requires flushing ==> m.Flushing(h, pending) && |p| <= |pending| && p == pending[..|p|]
    ensures if flushing then m'.(tmpOutStart := m.tmpOutStart + |p|).Flushing(h + p, pending[|p|..]) else m'.Idle(h + p)
  {
    hide Window, Last, Spare, Mem.Dict;
    if flushing {
      var n := m'.(tmpOutStart := m.tmpOutStart + |p|);
      Delivered(m, h, p, pending, |p|);
      assert n.Dict() == m'.Dict() by { SameDict(m', n); }
      assert n.Block() == m.Block();
    }
  }

  lemma SameDict(m: Mem, m': Mem)
    requires m.InRange() && m' == m.(tmpOutStart := m'.tmpOutStart)
    ensures m'.InRange() && m'.Dict() == m.Dict()
  {}

  lemma GrownInDst(m: Mem, h: seq<byte>, n: nat)
    requires m.dict.InDst? && m.dp + n <= |m.dst| && m.InRange() && Window(m.Dict(), h)
    ensures var m' := m.(dictSize := m.dictSize + n, dp := m.dp + n);
      m'.InRange() && Window(m'.Dict(), h + m.dst[m.dp..m.dp + n])
  {
    hide Window;
    var p := m.dst[m.dp..m.dp + n];
    WindowGrows(m.Dict(), h, p);
    assert m.dst[m.dict.at..m.dp + n] == m.dst[m.dict.at..m.dp] + p;
  }

  lemma MovedToDst(m: Mem, h: seq<byte>, n: nat)
    requires KB64 <= m.dp + n <= |m.dst| && EndsWith(h, m.dst[..m.dp])
    ensures var m' := m.(dict := InDst(0), dictSize := m.dp + n, dp := m.dp + n);
      m'.InRange() && Window(m'.Dict(), h + m.dst[m.dp..m.dp + n])
  {
    hide Window, Last;
    var p := m.dst[m.dp..m.dp + n];
    assert m.dst[0..m.dp + n] == m.dst[..m.dp] + p;
    TailGrows(h, m.dst[..m.dp], p);
    LongTail(m.dst[..m.dp] + p, h + p);
  }

  lemma FlushedInTmp(m: Mem, h: seq<byte>, p: seq<byte>, pending: seq<byte>, n: nat)
    requires m.Flushing(h, pending) && m.dict == InTmp && m.dp + n <= |m.dst|
    requires n <= |pending| && p == pending[..n]
    ensures var m' := m.(dictSize := m.dictSize + n, dp := m.dp + n, tmpOutStart := m.tmpOutStart + n);
      m'.Flushing(h + p, pending[n..])
  {
    hide Window, Last;
    Delivered(m, h, p, pending, n);
  }

  lemma JoinedInTmp(m: Mem, m': Mem, h: seq<byte>, p: seq<byte>, k: nat)
    requires m.Idle(h) && k <= m.dictSize && |p| <= KB64 && (k == m.dictSize || k + |p| == KB64)
    requires m'.dict == InTmp && m'.dictSize == k + |p| <= |m'.tmp| && m'.dp <= |m'.dst|
    requires m'.tmp[..k] == Last(m.Dict(), k) && m'.tmp[k..k + |p|] == p
    ensures m'.Idle(h + p)
  {
    hide Window, Last;
    WindowJoined(m.Dict(), h, p, k);
    assert m'.Dict() == m'.tmp[..k] + p;
  }

  lemma TailGrows(h: seq<byte>, d: seq<byte>, p: seq<byte>)
    requires EndsWith(h, d)
    ensures EndsWith(h + p, d + p)
  {
    LastOfSum(h, p, |d|, |d| + |p|);
  }

  lemma EndsInLonger(x: seq<byte>, h: seq<byte>, d: seq<byte>)
    requires EndsWith(h, d)
    ensures EndsWith(x + h, d)
  {}

  /** Writing behind the output leaves the history alone. */
  lemma WrittenBehind(m: Mem, d: seq<byte>, to: nat)
    requires m.InRange() && SameOutside(m.dst, d, m.dp, to)
    ensures m.(dst := d).InRange() && m.(dst := d).Dict() == m.Dict() && d[..m.dp] == m.dst[..m.dp]
  {
    if m.dict.InDst? {
      SegmentKept(m.dst, d, m.dict.at, m.dp, m.dp, to);
    }
  }

  /** A block decoded into tmpOut, behind a dictionary that ends there or that has been left room for. */
  lemma BlockInTmp(m: Mem, m': Mem, h: seq<byte>, to: nat)
    requires m.Idle(h) && m' == m.(tmp := m'.tmp, tmpOutSize := m'.tmpOutSize, tmpOutStart := 0)
    requires m.tmpOut + m'.tmpOutSize <= to <= |m.tmp| == |m'.tmp| && SameOutside(m.tmp, m'.tmp, m.tmpOut, to)
    requires m.tmpOut == if m.dict == InTmp then m.dictSize else Min(m.dictSize, KB64)
    ensures m'.HasBlock() && m'.Flushing(h, m'.Block())
  {
    hide Window, SameOutside;
    WindowSpare(m.Dict(), h);
    assert Last(h, 0) == [] == m'.Block()[..0];
    if m.dict == InTmp {
      SegmentKept(m.tmp, m'.tmp, 0, m.tmpOut, m.tmpOut, to);
      WindowGrows(m.Dict(), h, m'.Block());
      assert m'.tmp[..m.tmpOut + m'.tmpOutSize] == m.tmp[..m.tmpOut] + m'.Block();
    }
  }

  /** When all of the block is delivered, it is part of the history. */
  lemma AllDelivered(m: Mem, h: seq<byte>)
    requires m.Flushing(h, [])
    ensures m.tmpOutStart == m.tmpOutSize && m.Idle(h)
  {
    hide Window;
    assert h + [] == h;
    assert |m.Block()[m.tmpOutStart..]| == 0;
  }

  lemma SelfWindow(h: seq<byte>)
    ensures Window(h, h)
  {}

  lemma LastIs(s: seq<byte>, k: nat)
    requires k <= |s|
    ensures Last(s, k) == s[|s| - k..]
  {}

  lemma EndOfSlice(s: seq<byte>, i: nat, j: nat, k: nat)
    requires i + k <= j <= |s|
    ensures s[j - k..j] == Last(s[i..j], k)
  {}

  lemma DictAhead(m: Mem, m': Mem)
    requires m.InRange() && (m.dict == Nowhere || m.dict.InUser?)
    requires m'.dict == m.dict && m'.dictSize == m.dictSize && m'.dp <= |m'.dst|
    ensures m'.InRange() && m'.Dict() == m.Dict()
  {}

  /** Without a dictionary in it, the destination does not matter. */
  lemma Moved(m: Mem, m': Mem)
    requires m.InRange() && !m.dict.InDst? && m'.dp <= |m'.dst| && m' == m.(dst := m'.dst, dp := m'.dp)
    ensures m'.InRange() && m'.Dict() == m.Dict()
    ensures m.HasBlock() ==> m'.Block() == m.Block()
  {}

  lemma KeptInTmp(m: Mem, m': Mem, h: seq<byte>)
    requires m.Idle(h) && m'.dict == InTmp && m'.dictSize == Min(m.dictSize, KB64) <= |m'.tmp| && m'.dp <= |m'.dst|
    requires m'.tmp[..m'.dictSize] == Last(m.Dict(), m'.dictSize)
    ensures m'.Idle(h)
  {
    hide Window;
    if m.dictSize >= KB64 {
      WindowCut(m.Dict(), h, KB64);
    } else {
      AllOfIt(m.Dict());
    }
  }

  lemma FlushingElsewhere(m: Mem, m': Mem, h: seq<byte>, pending: seq<byte>)
    requires m.InRange() && m'.InRange() && m' == m.(dst := m'.dst, dp := m'.dp) && m'.Dict() == m.Dict()
    ensures m.Flushing(h, pending) ==> m'.Flushing(h, pending)
    ensures m.HasBlock() ==> m'.Block() == m.Block()
  {
    hide Window, Last;
  }

  lemma StillIndependent(m: Mem, m': Mem, user: seq<byte>)
    requires m.Independent(user) && m'.dp <= |m'.dst| && m' == m.(dst := m'.dst, dp := m'.dp)
    ensures m.InRange() && m'.Independent(user)
  {}
}
