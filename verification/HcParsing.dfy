/** What the high-compression parsers share: found matches, the parts of them that are written, the trace of a run. */
module HcParsing {
  import opened Bytes
  import opened BlockFormat
  import opened BlockEncoding
  import opened MemCopy
  import opened HcMatchFinder
  import opened HcWriter
  import FC = FastCompressor
  import FP = FastParse

  /** What a run did so far: the sequences it wrote, the matches its searches returned. */
  datatype Trace = Trace(seqs: seq<Sequence>, found: set<Span>)

  /** The finder's log went from `log` to `log'`, and what it added is what joined the found matches. */
  ghost predicate Joined(log: seq<Span>, log': seq<Span>, found: set<Span>, found': set<Span>) {
    log <= log' && found' == found + set f | f in log'[|log|..]
  }

  lemma JoinedNone(log: seq<Span>, found: set<Span>)
    ensures Joined(log, log, found, found)
  {}

  lemma JoinedOne(log: seq<Span>, f: Span, found: set<Span>)
    ensures Joined(log, log + [f], found, found + {f})
  {}

  lemma JoinedTwice(log: seq<Span>, log1: seq<Span>, log2: seq<Span>, found: set<Span>, found1: set<Span>,
                    found2: set<Span>)
    requires Joined(log, log1, found, found1) && Joined(log1, log2, found1, found2)
    ensures Joined(log, log2, found, found2)
  {
    assert log2[|log|..] == log1[|log|..] + log2[|log1|..];
  }

  /** Each of them is a true match within reach that leaves room for the last literals. */
  ghost predicate Genuine(o: Out, found: set<Span>) {
    forall f :: f in found ==> IsGenuine(o, f)
  }

  ghost predicate IsGenuine(o: Out, f: Span) {
    f.off <= DISTANCE_MAX && f.start + f.len + LASTLITERALS <= |o.data| && IsMatch(o.data, f.start, f.off, f.len)
  }

  /** How to search: window, number of attempts, and the finder's options. */
  datatype Search = Search(w: Window, attempts: nat, patternAnalysis: bool, chainSwap: bool, favorDecSpeed: bool)
  {
    ghost predicate Fits(o: Out) {
      w.Valid() && w.data == o.data && w.dl <= o.ds <= |o.data|
    }

    /** It compares at least one candidate, however close. */
    predicate Tries() {
      attempts >= 1 && !favorDecSpeed
    }
  }

  /** A part of a match that was found, at the same offset. */
  ghost predicate PartOfFound(found: set<Span>, start: nat, off: nat, len: nat) {
    exists f :: f in found && f.off == off && f.start <= start && start + len <= f.start + f.len
  }

  /** A part of a found match that can be written as a match. */
  ghost predicate Usable(o: Out, found: set<Span>, start: nat, off: nat, len: nat) {
    Emittable(o, start, start, off, len) && PartOfFound(found, start, off, len)
  }

  lemma Narrowed(o: Out, found: set<Span>, start: nat, off: nat, len: nat, start': nat, len': nat)
    requires Usable(o, found, start, off, len)
    requires start <= start' && start' + len' <= start + len && len' >= MINMATCH && start' + MFLIMIT <= |o.data|
    ensures Usable(o, found, start', off, len')
  {
    var k := start' - start;
    SubSlice(o.data, start, len, k, k + len');
    SubSlice(o.data, start - off, len, k, k + len');
  }

  lemma StillUsable(o: Out, found: set<Span>, found': set<Span>, start: nat, off: nat, len: nat)
    requires Usable(o, found, start, off, len) && found <= found'
    ensures Usable(o, found', start, off, len)
  {
    hide IsMatch;
  }

  /** Every match written, up to position `to`, is part of a match that was found there. */
  ghost predicate Chosen(found: set<Span>, to: nat, seqs: seq<Sequence>)
    decreases |seqs|
  {
    seqs == [] ||
      var s := seqs[|seqs| - 1];
      && s.matchLen + |s.lits| <= to
      && PartOfFound(found, to - s.matchLen, s.offset, s.matchLen)
      && Chosen(found, to - s.matchLen - |s.lits|, seqs[..|seqs| - 1])
  }

  lemma {:induction false} StillChosen(found: set<Span>, found': set<Span>, to: nat, seqs: seq<Sequence>)
    requires Chosen(found, to, seqs) && found <= found'
    ensures Chosen(found', to, seqs)
    decreases |seqs|
  {
    if seqs != [] {
      var s := seqs[|seqs| - 1];
      StillChosen(found, found', to - s.matchLen - |s.lits|, seqs[..|seqs| - 1]);
    }
  }

  lemma ChosenOneMore(found: set<Span>, anchor: nat, ip: nat, seqs: seq<Sequence>, s: Sequence)
    requires Chosen(found, anchor, seqs) && anchor <= ip && |s.lits| == ip - anchor
    requires PartOfFound(found, ip, s.offset, s.matchLen)
    ensures Chosen(found, ip + s.matchLen, seqs + [s])
  {
    hide PartOfFound;
    assert (seqs + [s])[..|seqs|] == seqs;
  }

  /** The output so far: the sequences of the trace, which tile the source up to `anchor`. */
  ghost predicate Written(o: Out, b: seq<byte>, op: nat, anchor: nat, t: Trace) {
    Emitted(o, b, op, anchor, t.seqs) && Chosen(t.found, anchor, t.seqs) && Genuine(o, t.found)
  }

  lemma NothingWritten(o: Out, b: seq<byte>)
    requires o.ds <= |o.data|
    ensures Written(o, b, 0, o.ds, Trace([], {}))
  {}

  lemma StillWritten(o: Out, b: seq<byte>, op: nat, anchor: nat, t: Trace, found': set<Span>)
    requires Written(o, b, op, anchor, t) && t.found <= found' && Genuine(o, found')
    ensures Written(o, b, op, anchor, t.(found := found'))
  {
    hide Emitted;
    StillChosen(t.found, found', anchor, t.seqs);
  }

  /** The output limit was in the way. */
  ghost predicate NoRoom(o: Out) {
    && o.ds <= |o.data| && o.directive != FC.NotLimited
    && (o.directive == FC.LimitedOutput ==> o.cap < FC.CompressBound(|o.data| - o.ds))
  }

  lemma Unwritten(b: seq<byte>, cap: nat)
    ensures SameOutside(b, b, 0, cap)
  {}

  lemma AnchorInside(o: Out, b: seq<byte>, op: nat, anchor: nat, t: Trace)
    requires Written(o, b, op, anchor, t)
    ensures o.ds <= anchor <= |o.data| && Genuine(o, t.found) && (t.seqs == [] ==> op == 0)
  {}

  // --- Equal bytes ---

  /** A source of equal bytes, without history. */
  ghost predicate EqualRun(o: Out) {
    o.ds == 0 && |o.data| >= MIN_LENGTH && FP.AllEqual(o.data)
  }

  /** The one match such a source needs: everything between the first byte and the last five. */
  ghost function TheMatch(o: Out): Sequence
    requires EqualRun(o)
  {
    Sequence([o.data[0]], 1, |o.data| - 6)
  }

  lemma RunMatches(o: Out)
    requires EqualRun(o)
    ensures IsMatch(o.data, 1, 1, |o.data| - 6) && o.data[0..1] == [o.data[0]] && o.data[0..4] == o.data[1..5]
    ensures o.data[0..8] == o.data[1..9] && TheMatch(o).Valid()
  {
    assert o.data[1..|o.data| - 5] == o.data[0..|o.data| - 6];
  }

  /** Nothing is written of the run yet, and it was looked at up to `ip`; or its match is written. */
  ghost predicate RunSoFar(o: Out, ip: nat, anchor: nat, seqs: seq<Sequence>)
    requires EqualRun(o)
  {
    || (ip <= 1 && anchor == 0 && seqs == [])
    || (ip == anchor == |o.data| - 5 && seqs == [TheMatch(o)])
  }

  /** The run becomes a block of its own size, if that fits. */
  ghost predicate Shrunk(o: Out, b: seq<byte>, result: nat)
    requires EqualRun(o)
  {
    && result == (if FP.EqualSize(|o.data|) <= o.cap then FP.EqualSize(|o.data|) else 0)
    && (result > 0 ==> TheMatch(o).Valid() && result <= |b|
                       && b[..result] == EncodeSequence(TheMatch(o)) + EncodeLast(o.data[|o.data| - 5..]))
  }

  lemma NothingAtStart(w: Window, iHigh: nat, minLen: nat, m: Match)
    ensures BestSoFar(w, 0, 0, iHigh, minLen, m) ==> m.len == minLen
  {}

  /** At its second byte a search finds the match. */
  lemma SecondByte(o: Out, w: Window, m: Match, minLen: nat)
    requires EqualRun(o) && w.Valid() && w.data == o.data && w.dl == 0 && minLen < |o.data| - 6
    requires BestSoFar(w, 1, 1, |o.data| - LASTLITERALS, minLen, m)
    requires Exhausted(w, 1, 1, |o.data| - LASTLITERALS, 0, m.len)
    ensures m == Match(1, |o.data| - 6, 0)
  {
    hide FP.AllEqual, IsMatch;
    RunMatches(o);
    assert Takes(w, 1, 1, |o.data| - LASTLITERALS, 0, |o.data| - 6, 0);
    if m.len > minLen {
      MatchInside(o.data, 1 - m.back, m.off, m.len);
    }
  }

  /** The first byte heads the chain of the second. */
  lemma FirstInChain(o: Out, c: Search, f: Finder, before: int, longest: nat)
    requires EqualRun(o) && c.Fits(o) && c.Tries() && f.Valid(c.w)
    requires var h := f.SlotOf(c.w, c.w.low + 1); f.hashTable[h] == f.Head(c.w, c.w.low, c.w.low + 1, h, before)
    requires f.ChainExhausted(c.w, 1, 1, |o.data| - LASTLITERALS, LowestIndex(c.w, 1),
               f.hashTable[f.SlotOf(c.w, c.w.low + 1)],
               if c.patternAnalysis || c.chainSwap then Min(1, c.attempts) else c.attempts, longest)
    ensures Exhausted(c.w, 1, 1, |o.data| - LASTLITERALS, 0, longest)
  {
    RunMatches(o);
    var h := f.SlotOf(c.w, c.w.low + 1);
    assert f.InSlot(c.w, c.w.low, h);
    assert f.Visited(LowestIndex(c.w, 1), f.hashTable[h], 0) == c.w.low;
  }

  /** One search: what it returns beyond the minimum joins the found matches, and can be written. */
  method Find(o: Out, c: Search, f: Finder, ip: nat, iLow: nat, minLen: nat, ghost found: set<Span>)
    returns (m: Match, start: nat, ghost found': set<Span>)
    requires c.Fits(o) && f.Valid(c.w) && o.ds <= iLow <= ip && ip + MFLIMIT <= |o.data| + 2
    requires iLow + MFLIMIT <= |o.data|
    requires ip - iLow < minLen && iLow + minLen < |o.data| && f.nextToUpdate <= c.w.low + ip && Genuine(o, found)
    modifies f, f.hashTable, f.chainTable
    ensures f.Valid(c.w) && f.nextToUpdate == c.w.low + ip && Genuine(o, found')
    ensures m.len >= minLen && found' == if m.len > minLen then found + {Span(start, m.off, m.len)} else found
    ensures Joined(old(f.returned), f.returned, found, found')
    ensures m.len > minLen ==>
      && iLow <= start <= ip && ip + MINMATCH <= start + m.len
      && (start + MFLIMIT <= |o.data| ==> Usable(o, found', start, m.off, m.len))
    ensures ip == 0 ==> m.len == minLen
    ensures EqualRun(o) && ip == iLow == 1 && old(f.nextToUpdate) == c.w.low && c.Tries() && minLen < |o.data| - 6 ==>
      m == Match(1, |o.data| - 6, 0) && start == 1
  {
    hide IsMatch, EqualRun, Finder.Head, Finder.Chained, Finder.ChainExhausted;
    ghost var next, heads := f.nextToUpdate, f.hashTable[..];
    m := f.GetWiderMatch(c.w, ip, iLow, |o.data| - LASTLITERALS, minLen, c.attempts, c.patternAnalysis, c.chainSwap,
      c.favorDecSpeed);
    if EqualRun(o) && ip == iLow == 1 && next == c.w.low && c.Tries() && minLen < |o.data| - 6 {
      FirstInChain(o, c, f, heads[f.SlotOf(c.w, c.w.low + 1)], m.len);
      SecondByte(o, c.w, m, minLen);
    }
    NothingAtStart(c.w, |o.data| - LASTLITERALS, minLen, m);
    start, found' := ip, found;
    JoinedNone(old(f.returned), found);
    if m.len > minLen {
      start := ip - m.back;
      found' := found + {Span(start, m.off, m.len)};
      JoinedOne(old(f.returned), Span(start, m.off, m.len), found);
    }
  }

  /** LZ4HC_encodeSequence on a usable match. */
  method Emit(o: Out, dst: array<byte>, op: nat, anchor: nat, ip: nat, off: nat, len: nat, ghost t: Trace)
    returns (overflow: bool, op': nat, ghost t': Trace)
    requires o.Valid(dst.Length) && Written(o, dst[..], op, anchor, t) && anchor <= ip
    requires Usable(o, t.found, ip, off, len)
    modifies dst
    ensures overflow ==> NoRoom(o) && op' == op && t' == t && Written(o, dst[..], op, anchor, t)
    ensures overflow ==> len >= MINMATCH && o.Oend() < op + SequenceSize(ip - anchor, len) + 1 + LASTLITERALS
    ensures !overflow ==> t'.found == t.found && Written(o, dst[..], op', ip + len, t')
    ensures t'.seqs == if overflow then t.seqs else t.seqs + [Sequence(o.data[anchor..ip], off, len)]
    ensures SameOutside(old(dst[..]), dst[..], 0, o.cap)
  {
    hide Emitted, IsMatch, PartOfFound, Chosen;
    ghost var seqs;
    overflow, op', seqs := EncodeSequenceChecked(o, dst, op, anchor, ip, off, len, t.seqs);
    t' := t.(seqs := seqs);
    if !overflow {
      ChosenOneMore(t.found, anchor, ip, t.seqs, Sequence(o.data[anchor..ip], off, len));
    }
  }

  /** Where the parsing of a run can be: nothing or its match is written, or the match did not fit. */
  ghost predicate RunState(o: Out, overflow: bool, ip: nat, anchor: nat, seqs: seq<Sequence>)
    requires EqualRun(o)
  {
    if overflow then o.Oend() < FP.EqualSize(|o.data|) else RunSoFar(o, ip, anchor, seqs)
  }

  /** The block is whole: it is made of the sequences, which cover the source, and decodes to it. */
  ghost predicate Whole(o: Out, b: seq<byte>, anchor: nat, end: nat, seqs: seq<Sequence>) {
    && o.ds <= anchor <= end <= |o.data| && (o.directive != FC.FillOutput ==> end == |o.data|)
    && |b| <= o.cap && |b| <= FC.CompressBound(|o.data| - o.ds)
    && Covers(o.data, o.ds, seqs, anchor) && (forall s :: s in seqs ==> s.Valid())
    && b == Encode(seqs) + EncodeLast(o.data[anchor..end])
    && Decode(b, 0, o.data[..o.ds]) == Decoded(o.data[..end], true)
    && (end < |o.data| ==> FC.UsedUp(o.cap, |b|, end - o.ds))
  }

  /** The block is whole, and each match in it is part of a found one. */
  ghost predicate Compressed(o: Out, b: seq<byte>, anchor: nat, end: nat, t: Trace) {
    Whole(o, b, anchor, end, t.seqs) && Chosen(t.found, anchor, t.seqs) && Genuine(o, t.found)
  }

  /** The end of all parsers: after an overflow a shortened match if possible, then the last literals. */
  method Finish(o: Out, dst: array<byte>, overflow: bool, op0: nat, anchor0: nat, ip: nat, off: nat, len: nat,
                ghost t0: Trace)
    returns (result: nat, anchor: nat, end: nat, ghost t: Trace)
    requires o.Valid(dst.Length) && o.cap >= 1 && Written(o, dst[..], op0, anchor0, t0)
    requires overflow ==> NoRoom(o) && anchor0 <= ip && Usable(o, t0.found, ip, off, len)
    modifies dst
    ensures result == 0 ==> o.directive == FC.LimitedOutput && o.cap < FC.CompressBound(|o.data| - o.ds)
    ensures result > 0 ==> result <= o.cap && Compressed(o, dst[..result], anchor, end, t)
    ensures t.found == t0.found && SameOutside(old(dst[..]), dst[..], 0, o.cap)
    ensures overflow && o.directive == FC.LimitedOutput ==> result == 0
    ensures !overflow ==> t == t0 && anchor == anchor0 && |Encode(t.seqs)| == op0
    ensures !overflow && o.directive == FC.LimitedOutput ==>
      (result > 0 <==> op0 + FC.RunSize(|o.data| - anchor0) <= o.cap)
  {
    hide IsMatch, PartOfFound, Encode, Covers, Decode, Holds, Chosen;
    var op;
    op, anchor, t := op0, anchor0, t0;
    assert SameOutside(dst[..], dst[..], 0, o.cap);
    if overflow {
      if o.directive == FC.LimitedOutput {
        return 0, anchor, anchor, t;
      }
      op, anchor, t := FinalMatch(o, dst, op0, anchor0, ip, off, len, t0);
    }
    result, end := LastLiterals(o, dst, op, anchor, t.seqs);
  }

  /** A run that was parsed to its end has become its block. */
  lemma RunDone(o: Out, b: seq<byte>, result: nat, overflow: bool, op: nat, ip: nat, anchor: nat, end: nat, t: Trace)
    requires EqualRun(o) && o.directive != FC.FillOutput && RunState(o, overflow, ip, anchor, t.seqs) && o.Valid(|b|)
    requires !overflow ==> ip + MFLIMIT > |o.data| && |Encode(t.seqs)| == op
    requires overflow ==> NoRoom(o) && result == 0
    requires result == 0 ==> o.directive == FC.LimitedOutput
    requires result > 0 ==> result <= o.cap && Compressed(o, b[..result], anchor, end, t)
    requires !overflow && o.directive == FC.LimitedOutput ==>
      (result > 0 <==> op + FC.RunSize(|o.data| - anchor) <= o.cap)
    ensures Shrunk(o, b, result)
  {
    hide EncodeSequence, EncodeLast, Covers, Decode, Chosen, Genuine, FP.AllEqual;
    if !overflow {
      assert t.seqs == [TheMatch(o)] && t.seqs[..0] == [];
      assert TheMatch(o).Valid() && Encode(t.seqs) == [] + EncodeSequence(TheMatch(o));
      assert op == 4 + (|o.data| + 230) / 255;
      assert o.data[|o.data| - 5..] == o.data[|o.data| - 5..|o.data|];
    }
  }

  method FinalMatch(o: Out, dst: array<byte>, op0: nat, anchor0: nat, ip: nat, off: nat, len: nat, ghost t0: Trace)
    returns (op: nat, anchor: nat, ghost t: Trace)
    requires o.Valid(dst.Length) && Written(o, dst[..], op0, anchor0, t0) && o.directive == FC.FillOutput
    requires anchor0 <= ip && Usable(o, t0.found, ip, off, len)
    modifies dst
    ensures Written(o, dst[..], op, anchor, t) && SameOutside(old(dst[..]), dst[..], 0, o.cap) && t.found == t0.found
  {
    hide Emitted, IsMatch, PartOfFound, Chosen;
    ghost var seqs, len';
    op, anchor, seqs, len' := LastSequence(o, dst, op0, anchor0, ip, off, len, t0.seqs);
    t := t0.(seqs := seqs);
    if seqs != t0.seqs {
      Narrowed(o, t0.found, ip, off, len, ip, len');
      ChosenOneMore(t0.found, anchor0, ip, t0.seqs, Sequence(o.data[anchor0..ip], off, len'));
    }
  }
}
