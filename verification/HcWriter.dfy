/** LZ4HC_encodeSequence and the end of a block: how the high-compression parsers write what they chose. */
module HcWriter {
  import opened Bytes
  import opened BlockFormat
  import opened BlockEncoding
  import opened BlockWriter
  import opened MemCopy
  import FC = FastCompressor

  /** One block: `data[..ds]` is history, `cap` the capacity of the output. */
  datatype Out = Out(data: seq<byte>, ds: nat, directive: FC.OutputDirective, cap: nat)
  {
    ghost predicate Valid(size: nat) {
      ds <= |data| && cap <= size && (directive == FC.NotLimited ==> FC.CompressBound(|data| - ds) <= cap)
    }

    /** fillOutput keeps room for the last literals. */
    function Oend(): int {
      if directive == FC.FillOutput then cap - LASTLITERALS else cap
    }
  }

  /** After a match of `len` bytes written up to `op`, literals can follow that keep the block conforming. */
  ghost predicate RoomAfter(cap: nat, op: nat, len: nat) {
    op + 1 + LASTLITERALS <= cap && (len < 19 ==> cap - op - 1 + len >= MFLIMIT)
  }

  /** The sequences written so far cover the source up to `anchor`. */
  ghost predicate Emitted(o: Out, b: seq<byte>, op: nat, anchor: nat, seqs: seq<Sequence>) {
    && o.ds <= anchor <= |o.data| && Covers(o.data, o.ds, seqs, anchor) && (forall s :: s in seqs ==> s.Valid())
    && |Encode(seqs)| == op && Holds(b, 0, Encode(seqs)) && op <= (anchor - o.ds) + (anchor - o.ds) / 255
    && LeavesRoom(seqs, anchor, |o.data|)
    && op <= o.cap
    && (o.directive == FC.FillOutput && seqs != [] ==> RoomAfter(o.cap, op, seqs[|seqs| - 1].matchLen))
  }

  lemma EmittedFrame(o: Out, b: seq<byte>, b': seq<byte>, op: nat, anchor: nat, seqs: seq<Sequence>, w: int)
    requires Emitted(o, b, op, anchor, seqs) && SameOutside(b, b', op, w)
    ensures Emitted(o, b', op, anchor, seqs)
  {
    hide Encode, Covers;
  }

  /** What the parser asks for: a true match, where the format allows one. */
  ghost predicate Emittable(o: Out, anchor: nat, ip: nat, off: nat, len: nat) {
    && anchor <= ip && ip + MFLIMIT <= |o.data| && ip + len + LASTLITERALS <= |o.data|
    && len >= MINMATCH && off <= DISTANCE_MAX && IsMatch(o.data, ip, off, len)
  }

  function SequenceSize(ll: nat, len: nat): nat
    requires len >= MINMATCH
  {
    3 + (ll + 240) / 255 + ll + (len - MINMATCH + 240) / 255
  }

  /** There is room for the sequence, checked or not. */
  ghost predicate Fits(o: Out, op: nat, ll: nat, len: nat) {
    var mc := len - MINMATCH;
    var litEnd := op + 1 + (ll + 240) / 255 + ll;
    && op + 1 + (ll + 240) / 255 + Max(ll + 7, 8) <= o.cap
    && litEnd + 2 + (mc + 240) / 255 <= o.cap
    && (o.directive == FC.FillOutput ==> RoomAfter(o.cap, litEnd + 2 + (mc + 240) / 255, len))
  }

  /** Literals and offset of a sequence. */
  method PutHead(o: Out, dst: array<byte>, op0: nat, anchor: nat, ip: nat, off: nat, ghost seqs: seq<Sequence>)
    returns (op: nat)
    requires o.Valid(dst.Length) && Emitted(o, dst[..], op0, anchor, seqs) && anchor <= ip && ip + MFLIMIT <= |o.data|
    requires off <= DISTANCE_MAX && op0 + 1 + (ip - anchor + 240) / 255 + Max(ip - anchor + 7, 8) <= o.cap
    modifies dst
    ensures op == op0 + |LiteralHead(o.data[anchor..ip])| + 2 && Emitted(o, dst[..], op0, anchor, seqs)
    ensures Holds(dst[..], op0, LiteralHead(o.data[anchor..ip])) && Holds(dst[..], op - 2, Write16(off))
    ensures SameOutside(old(dst[..]), dst[..], op0, o.cap)
  {
    hide Encode, Covers, Holds, LiteralHead, LeavesRoom, Write16;
    ghost var b := dst[..];
    op := PutLiterals(dst, op0, o.data, anchor, ip - anchor);
    ghost var b1 := dst[..];
    PutOffset(dst, op, off);
    Transfer(b1, dst[..], op0, op, op0, LiteralHead(o.data[anchor..ip]));
    op := op + 2;
    EmittedFrame(o, b, dst[..], op0, anchor, seqs, o.cap);
  }

  /** Adds the match length to the token and writes its extension. */
  method PutMatchLength(dst: array<byte>, token: nat, op0: nat, matchCode: nat) returns (op: nat)
    requires token < op0 && op0 + (matchCode + 240) / 255 <= dst.Length && dst[token] % 16 == 0
    modifies dst
    ensures op == op0 + (matchCode + 240) / 255
    ensures dst[token] as int == old(dst[token]) as int + Nibble(matchCode)
    ensures Holds(dst[..], op0, EncodeLength(matchCode))
    ensures SameOn(old(dst[..]), dst[..], token + 1, op0) && SameOutside(old(dst[..]), dst[..], token, op)
  {
    op := op0;
    if matchCode >= ML_MASK {
      dst[token] := dst[token] + ML_MASK as byte;
      op := PutExtensionByTwos(dst, op, matchCode - ML_MASK);
    } else {
      dst[token] := dst[token] + matchCode as byte;
    }
  }

  lemma SequenceEmitted(o: Out, b: seq<byte>, b': seq<byte>, token: nat, anchor: nat, ip: nat, seqs: seq<Sequence>,
                        s: Sequence)
    requires Emitted(o, b, token, anchor, seqs) && SameOutside(b, b', token, |b|)
    requires Emittable(o, anchor, ip, s.offset, s.matchLen) && s.lits == o.data[anchor..ip] && s.offset >= 1
    requires Holds(b', token, EncodeSequence(s)) && Fits(o, token, ip - anchor, s.matchLen)
    ensures Emitted(o, b', token + |EncodeSequence(s)|, ip + s.matchLen, seqs + [s])
  {
    hide IsMatch, EncodeSequence, Encode, Covers;
    CoversOneMore(o.data, o.ds, seqs, anchor, ip, s);
    HoldsJoin(b', 0, Encode(seqs), EncodeSequence(s));
    FC.SequenceCost(anchor - o.ds, ip - anchor, s.matchLen - MINMATCH);
  }

  /** Writes a sequence that fits. */
  method PutSequence(o: Out, dst: array<byte>, op0: nat, anchor: nat, ip: nat, off: nat, len: nat,
                     ghost seqs: seq<Sequence>)
    returns (op: nat, ghost seqs': seq<Sequence>)
    requires o.Valid(dst.Length) && Emitted(o, dst[..], op0, anchor, seqs) && Emittable(o, anchor, ip, off, len)
    requires Fits(o, op0, ip - anchor, len)
    modifies dst
    ensures seqs' == seqs + [Sequence(o.data[anchor..ip], off, len)]
    ensures Emitted(o, dst[..], op, ip + len, seqs') && SameOutside(old(dst[..]), dst[..], op0, o.cap)
  {
    hide Encode, Covers, Holds, LiteralHead, IsMatch, EncodeSequence, EncodeLength, LeavesRoom;
    ghost var s := Sequence(o.data[anchor..ip], off, len);
    MatchInside(o.data, ip, off, len);
    seqs' := seqs + [s];
    op := PutHead(o, dst, op0, anchor, ip, off, seqs);
    ghost var b, mid := dst[..], op;
    HeadToken(b, op0, s.lits);
    op := PutMatchLength(dst, op0, op, len - MINMATCH);
    SequenceWritten(b, dst[..], op0, mid, s);
    SequenceEmitted(o, b, dst[..], op0, anchor, ip, seqs, s);
  }

  /** LZ4HC_encodeSequence: refuses when the output limit might be exceeded. */
  method EncodeSequenceChecked(o: Out, dst: array<byte>, op0: nat, anchor: nat, ip: nat, off: nat, len: nat,
                               ghost seqs: seq<Sequence>)
    returns (overflow: bool, op: nat, ghost seqs': seq<Sequence>)
    requires o.Valid(dst.Length) && Emitted(o, dst[..], op0, anchor, seqs) && Emittable(o, anchor, ip, off, len)
    modifies dst
    ensures overflow ==>
      o.directive != FC.NotLimited && op == op0 && seqs' == seqs && Emitted(o, dst[..], op0, anchor, seqs)
    ensures overflow && o.directive == FC.LimitedOutput ==> o.cap < FC.CompressBound(|o.data| - o.ds)
    ensures overflow ==> o.Oend() < op0 + SequenceSize(ip - anchor, len) + 1 + LASTLITERALS
    ensures !overflow ==>
      seqs' == seqs + [Sequence(o.data[anchor..ip], off, len)] && Emitted(o, dst[..], op, ip + len, seqs')
    ensures SameOutside(old(dst[..]), dst[..], op0, o.cap)
  {
    hide Emitted, IsMatch;
    var limit := o.directive != FC.NotLimited;
    var ll := ip - anchor;
    RoomForSequence(o, dst[..], op0, anchor, ip, len, seqs);
    if limit && op0 + 1 + ll / 255 + ll + (2 + 1 + LASTLITERALS) > o.Oend() {
      return true, op0, seqs;
    }
    var mc := len - MINMATCH;
    var litEnd := op0 + 1 + (ll + 240) / 255 + ll;
    if limit && litEnd + 2 + mc / 255 + (1 + LASTLITERALS) > o.Oend() {
      var _ := PutHead(o, dst, op0, anchor, ip, off, seqs);
      return true, op0, seqs;
    }
    overflow := false;
    op, seqs' := PutSequence(o, dst, op0, anchor, ip, off, len, seqs);
  }

  /** The limits of LZ4HC_encodeSequence are enough, and never refuse what the bound allows. */
  lemma RoomForSequence(o: Out, b: seq<byte>, op: nat, anchor: nat, ip: nat, len: nat, seqs: seq<Sequence>)
    requires o.Valid(|b|) && Emitted(o, b, op, anchor, seqs)
    requires anchor <= ip && ip + MFLIMIT <= |o.data| && len >= MINMATCH && ip + len + LASTLITERALS <= |o.data|
    ensures var ll, mc := ip - anchor, len - MINMATCH;
      var litEnd := op + 1 + (ll + 240) / 255 + ll;
      var lits := op + 1 + ll / 255 + ll + (2 + 1 + LASTLITERALS);
      var all := litEnd + 2 + mc / 255 + (1 + LASTLITERALS);
      && (o.directive != FC.NotLimited && lits <= o.Oend() ==> op + 1 + (ll + 240) / 255 + Max(ll + 7, 8) <= o.cap)
      && ((o.directive == FC.NotLimited || (lits <= o.Oend() && all <= o.Oend())) ==> Fits(o, op, ll, len))
      && (o.directive == FC.LimitedOutput && FC.CompressBound(|o.data| - o.ds) <= o.cap ==>
            lits <= o.cap && all <= o.cap)
  {
    hide Encode, Covers, Holds;
    var ll, mc, a := ip - anchor, len - MINMATCH, anchor - o.ds;
    FC.LiteralsFit(a, ll, |o.data| - o.ds, op);
    FC.SequenceCost(a, ll, mc);
    assert mc / 255 <= (mc + 240) / 255 <= 1 + mc / 255;
    assert (a + ll + mc + 4) / 255 <= (|o.data| - o.ds) / 255;
  }

  /** The cut of fillOutput leaves a conforming block. */
  lemma CutRun(cap: nat, op: nat, run: nat, len: nat)
    requires op < cap && op + run + 1 + (run + 240) / 255 > cap
    ensures var room := cap - op - 1; var cut := room - (room + 256 - RUN_MASK) / 256;
      && 0 <= cut <= run && op + 1 + (cut + 240) / 255 + cut <= cap
      && (RoomAfter(cap, op, len) && len >= MINMATCH ==> cut >= LASTLITERALS && len + cut >= MFLIMIT)
  {
    var room := cap - op - 1;
    FC.CutRunFits(room, run);
    assert room < 15 ==> (room + 256 - RUN_MASK) / 256 == 0;
  }

  /** How many last literals there are: all, or in fillOutput mode what fits; `fits` is false when a limited output is
      too small. */
  method LastRun(o: Out, size: nat, op: nat, anchor: nat, ghost b: seq<byte>, ghost seqs: seq<Sequence>)
    returns (fits: bool, run: nat)
    requires o.Valid(size) && Emitted(o, b, op, anchor, seqs) && o.cap >= 1
    ensures !fits ==>
      && o.directive == FC.LimitedOutput && o.cap < FC.CompressBound(|o.data| - o.ds)
      && o.cap < op + FC.RunSize(|o.data| - anchor)
    ensures fits ==>
      && anchor + run <= |o.data| && (o.directive != FC.FillOutput ==> anchor + run == |o.data|)
      && op + FC.RunSize(run) <= o.cap && op + FC.RunSize(run) <= FC.CompressBound(|o.data| - o.ds)
      && LeavesRoom(seqs, anchor, anchor + run)
      && (anchor + run < |o.data| ==> FC.UsedUp(o.cap, op + FC.RunSize(run), anchor + run - o.ds))
  {
    hide Encode, Covers, Holds, FC.UsedUp;
    run := |o.data| - anchor;
    FC.LastRunFits(anchor - o.ds, run, op);
    if o.directive != FC.NotLimited && op + 1 + (run + 255 - RUN_MASK) / 255 + run > o.cap {
      if o.directive == FC.LimitedOutput {
        return false, run;
      }
      RoomForToken(o, b, op, anchor, seqs);
      CutRun(o.cap, op, run, if seqs == [] then 4 else seqs[|seqs| - 1].matchLen);
      FC.CutUsesUp(o.cap, op, anchor - o.ds);
      run := o.cap - op - 1;
      run := run - (run + 256 - RUN_MASK) / 256;
    }
    assert LeavesRoom(seqs, anchor, anchor + run) by {
      assert seqs != [] ==> seqs[|seqs| - 1].Valid();
    }
    fits := true;
  }

  /** _last_literals: the rest of the source, or in fillOutput mode as much of it as fits. */
  method LastLiterals(o: Out, dst: array<byte>, op: nat, anchor: nat, ghost seqs: seq<Sequence>)
    returns (result: nat, end: nat)
    requires o.Valid(dst.Length) && Emitted(o, dst[..], op, anchor, seqs) && o.cap >= 1
    modifies dst
    ensures result == 0 ==> o.directive == FC.LimitedOutput && o.cap < FC.CompressBound(|o.data| - o.ds)
    ensures o.directive == FC.LimitedOutput ==> (result > 0 <==> op + FC.RunSize(|o.data| - anchor) <= o.cap)
    ensures result > 0 ==>
      && anchor <= end <= |o.data| && (o.directive != FC.FillOutput ==> end == |o.data|)
      && result <= o.cap && result <= FC.CompressBound(|o.data| - o.ds)
      && dst[..result] == Encode(seqs) + EncodeLast(o.data[anchor..end])
      && Decode(dst[..result], 0, o.data[..o.ds]) == Decoded(o.data[..end], true)
      && (end < |o.data| ==> FC.UsedUp(o.cap, result, end - o.ds))
    ensures SameOutside(old(dst[..]), dst[..], op, o.cap)
  {
    hide Encode, Covers, Holds, Decode, FC.UsedUp, EncodeLast, LeavesRoom;
    ghost var b := dst[..];
    var fits, run := LastRun(o, dst.Length, op, anchor, b, seqs);
    if !fits {
      return 0, anchor;
    }
    end := anchor + run;
    result := PutLastLiterals(dst, op, o.data, anchor, run);
    Transfer(b, dst[..], 0, op, 0, Encode(seqs));
    FC.WholeBlock(dst[..], op, result, Encode(seqs), EncodeLast(o.data[anchor..end]));
    WrittenBlockDecodes(o.data, o.ds, seqs, anchor, end);
  }

  lemma RoomForToken(o: Out, b: seq<byte>, op: nat, anchor: nat, seqs: seq<Sequence>)
    requires Emitted(o, b, op, anchor, seqs) && o.directive == FC.FillOutput && o.cap >= 1
    ensures op < o.cap
  {
    hide Covers, Holds;
  }

  /** _dest_overflow in fillOutput mode: the last match, shortened, if the block can still end well after it. */
  method LastSequence(o: Out, dst: array<byte>, op0: nat, anchor: nat, ip: nat, off: nat, len0: nat,
                      ghost seqs: seq<Sequence>)
    returns (op: nat, anchor': nat, ghost seqs': seq<Sequence>, ghost len': nat)
    requires o.Valid(dst.Length) && Emitted(o, dst[..], op0, anchor, seqs) && Emittable(o, anchor, ip, off, len0)
    requires o.directive == FC.FillOutput
    modifies dst
    ensures Emitted(o, dst[..], op, anchor', seqs') && SameOutside(old(dst[..]), dst[..], op0, o.cap)
    ensures (seqs' == seqs && anchor' == anchor) ||
            (MINMATCH <= len' <= len0 && anchor' == ip + len'
             && seqs' == seqs + [Sequence(o.data[anchor..ip], off, len')])
  {
    hide Emitted, IsMatch;
    op, anchor', seqs', len' := op0, anchor, seqs, len0;
    assert SameOutside(dst[..], dst[..], op0, o.cap);
    var ll := ip - anchor;
    var litEnd := op0 + 1 + (ll + 240) / 255 + ll;
    var maxLitPos := o.Oend() - 3;
    if litEnd <= maxLitPos {
      var bytesLeft := maxLitPos - litEnd;
      var maxMl := MINMATCH + (ML_MASK - 1) + bytesLeft * 255;
      var len := if len0 > maxMl then maxMl else len0;
      if o.Oend() + LASTLITERALS - (litEnd + 2) - 1 + len >= MFLIMIT {
        ShortenedFits(o, op0, ll, len, bytesLeft);
        FC.PrefixOfMatch(o.data, ip, off, len0, len);
        op, seqs' := PutSequence(o, dst, op0, anchor, ip, off, len, seqs);
        anchor', len' := ip + len, len;
      }
    }
  }

  lemma ShortenedFits(o: Out, op: nat, ll: nat, len: nat, bytesLeft: nat)
    requires o.directive == FC.FillOutput && MINMATCH <= len <= MINMATCH + 14 + bytesLeft * 255
    requires op + 1 + (ll + 240) / 255 + ll + bytesLeft == o.cap - LASTLITERALS - 3
    requires o.cap - (op + 1 + (ll + 240) / 255 + ll + 2) - 1 + len >= MFLIMIT
    ensures Fits(o, op, ll, len)
  {
    assert (len - MINMATCH + 240) / 255 <= bytesLeft;
    assert len < 19 ==> (len - MINMATCH + 240) / 255 == 0;
  }
}
