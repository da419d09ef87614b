/**
 LZ4HC_compress_optimal: a table of prices over a stretch of the source. Entry p tells how the cheapest known way to
 reach position p ends. The table is then reversed in place, and the sequences are written from left to right.
 */
module HcOptimalParser {
  import opened Bytes
  import opened BlockEncoding
  import opened MemCopy
  import opened HcMatchFinder
  import opened HcWriter
  import opened HcParsing
  import FC = FastCompressor
  import FP = FastParse

  const OPT_NUM := 4096
  const TRAILING_LITERALS := 3

  datatype Opt = Opt(price: int, off: nat, mlen: nat, litlen: nat)

  // --- Prices ---

  function LiteralsPrice(litlen: nat): nat {
    if litlen >= RUN_MASK then litlen + 1 + (litlen - RUN_MASK) / 255 else litlen
  }

  function SequencePrice(litlen: nat, mlen: nat): nat
    requires mlen >= MINMATCH
  {
    1 + 2 + LiteralsPrice(litlen) + if mlen >= ML_MASK + MINMATCH then 1 + (mlen - (ML_MASK + MINMATCH)) / 255 else 0
  }

  /** Prices are exact: they are the number of bytes written. */
  lemma PriceIsSize(s: Sequence)
    requires s.Valid()
    ensures |EncodeSequence(s)| == SequencePrice(|s.lits|, s.matchLen)
  {}

  // --- The table ---

  /** A literal, or a usable match that starts at `start`. */
  ghost predicate Step(o: Out, found: set<Span>, start: int, e: Opt) {
    e.mlen == 1 || (start >= 0 && Usable(o, found, start, e.off, e.mlen))
  }

  /** Entries 1 to `n` end at their own position and start at `ip` or later; entry 0 is a literal. */
  ghost predicate Table(o: Out, found: set<Span>, ip: nat, s: seq<Opt>, n: int) {
    n < |s| && |s| == OPT_NUM + TRAILING_LITERALS && s[0].mlen == 1
    && forall p :: 1 <= p <= n ==> s[p].mlen <= p && Step(o, found, ip + p - s[p].mlen, s[p])
  }

  lemma StillTable(o: Out, found: set<Span>, found': set<Span>, ip: nat, s: seq<Opt>, n: int)
    requires Table(o, found, ip, s, n) && found <= found'
    ensures Table(o, found', ip, s, n)
  {
    hide Usable;
    forall p | 1 <= p <= n ensures s[p].mlen <= p && Step(o, found', ip + p - s[p].mlen, s[p]) {
      if s[p].mlen != 1 {
        StillUsable(o, found, found', ip + p - s[p].mlen, s[p].off, s[p].mlen);
      }
    }
  }

  /** LZ4HC_FindLongerMatch: length 0 if there is none. */
  method FindLongerMatch(o: Out, c: Search, f: Finder, ip: nat, minLen: nat, ghost found: set<Span>)
    returns (m: Match, ghost found': set<Span>)
    requires c.Fits(o) && f.Valid(c.w) && o.ds <= ip && ip + MFLIMIT <= |o.data|
    requires 0 < minLen && ip + minLen < |o.data| && f.nextToUpdate <= c.w.low + ip && Genuine(o, found)
    modifies f, f.hashTable, f.chainTable
    ensures f.Valid(c.w) && f.nextToUpdate == c.w.low + ip && found <= found' && Genuine(o, found')
    ensures m.len == 0 || Usable(o, found', ip, m.off, m.len)
    ensures ip == 0 ==> m.len == 0
    ensures EqualRun(o) && ip == 1 && old(f.nextToUpdate) == c.w.low && c.Tries() && minLen < |o.data| - 6 ==>
      m == Match(1, |o.data| - 6, 0)
    ensures Joined(old(f.returned), f.returned, found, found')
  {
    hide Usable, Joined, EqualRun;
    var start;
    m, start, found' := Find(o, c, f, ip, ip, minLen, found);
    if m.len <= minLen {
      m := Match(0, 0, 0);
    } else if c.favorDecSpeed && 18 < m.len <= 36 {
      Narrowed(o, found', ip, m.off, m.len, ip, 18);
      m := m.(len := 18);
    }
  }

  /** The positions that follow the last match, as literals. */
  method TrailingLiterals(opt: array<Opt>, last: nat, o: Out, ghost found: set<Span>, ip: nat)
    requires last < OPT_NUM && Table(o, found, ip, opt[..], last) && last >= 1
    modifies opt
    ensures Table(o, found, ip, opt[..], last + TRAILING_LITERALS)
  {
    hide Usable;
    for add := 1 to TRAILING_LITERALS + 1
      invariant Table(o, found, ip, opt[..], last + add - 1)
    {
      opt[last + add] := Opt(opt[last].price + LiteralsPrice(add), 0, 1, add);
    }
  }

  /** Prices for the first positions, and for every length of the first match. */
  method FirstPrices(opt: array<Opt>, llen: nat, m: Match, o: Out, ghost found: set<Span>, ip: nat)
    requires opt.Length == OPT_NUM + TRAILING_LITERALS && m.len < OPT_NUM && Usable(o, found, ip, m.off, m.len)
    modifies opt
    ensures Table(o, found, ip, opt[..], m.len + TRAILING_LITERALS)
  {
    hide Usable;
    assert m.len >= MINMATCH && ip + MFLIMIT <= |o.data| by { LongEnough(o, found, ip, m.off, m.len); }
    opt[0] := Opt(LiteralsPrice(llen), 0, 1, llen);
    for r := 1 to MINMATCH
      invariant Table(o, found, ip, opt[..], r - 1)
    {
      opt[r] := Opt(LiteralsPrice(llen + r), 0, 1, llen + r);
    }
    for ml := MINMATCH to m.len + 1
      invariant Table(o, found, ip, opt[..], ml - 1)
    {
      Narrowed(o, found, ip, m.off, m.len, ip, ml);
      opt[ml] := Opt(SequencePrice(llen, ml), m.off, ml, llen);
    }
    TrailingLiterals(opt, m.len, o, found, ip);
  }

  lemma LongEnough(o: Out, found: set<Span>, start: nat, off: nat, len: nat)
    requires Usable(o, found, start, off, len)
    ensures len >= MINMATCH && start + MFLIMIT <= |o.data| && start + len + LASTLITERALS <= |o.data|
  {
    hide IsMatch, PartOfFound;
  }

  /** From `cur` on, literals where they are cheaper. */
  method LiteralPrices(opt: array<Opt>, cur: nat, last: nat, o: Out, ghost found: set<Span>, ip: nat)
    requires Table(o, found, ip, opt[..], last + TRAILING_LITERALS) && 1 <= cur < last < OPT_NUM
    modifies opt
    ensures Table(o, found, ip, opt[..], last + TRAILING_LITERALS)
  {
    hide Usable, LiteralsPrice;
    var base := opt[cur].litlen;
    for ll := 1 to MINMATCH
      invariant Table(o, found, ip, opt[..], last + TRAILING_LITERALS)
    {
      var price := opt[cur].price - LiteralsPrice(base) + LiteralsPrice(base + ll);
      if price < opt[cur + ll].price {
        opt[cur + ll] := Opt(price, 0, 1, base + ll);
      }
    }
  }

  /** The price of a match of `ml` bytes at `cur`, and the literals before it. */
  function MatchPrice(s: seq<Opt>, cur: nat, ml: nat): (int, nat)
    requires cur < |s| && ml >= MINMATCH
  {
    if s[cur].mlen == 1 then
      var ll := s[cur].litlen;
      ((if cur > ll then s[cur - ll].price else 0) + SequencePrice(ll, ml), ll)
    else
      (s[cur].price + SequencePrice(0, ml), 0)
  }

  /** From `cur` on, every length of a match found there where it is cheaper, or where nothing is known yet. */
  method MatchPrices(opt: array<Opt>, cur: nat, m: Match, last0: nat, favorDecSpeed: bool, o: Out,
                     ghost found: set<Span>, ip: nat)
    returns (last: nat)
    requires Table(o, found, ip, opt[..], last0 + TRAILING_LITERALS) && 1 <= cur < last0 < OPT_NUM
    requires cur + m.len < OPT_NUM && Usable(o, found, ip + cur, m.off, m.len)
    modifies opt
    ensures (last == last0 || last == cur + m.len) && last0 <= last && Table(o, found, ip, opt[..], last)
  {
    hide Usable, MatchPrice;
    assert m.len >= MINMATCH && ip + cur + MFLIMIT <= |o.data| by { LongEnough(o, found, ip + cur, m.off, m.len); }
    last := last0;
    for ml := MINMATCH to m.len + 1
      invariant Table(o, found, ip, opt[..], Max(last0 + TRAILING_LITERALS, cur + ml - 1))
      invariant last == last0 || (ml == m.len + 1 && last == cur + m.len && last0 < last)
    {
      var pos := cur + ml;
      var (price, ll) := MatchPrice(opt[..], cur, ml);
      if pos > last + TRAILING_LITERALS || price <= opt[pos].price - (if favorDecSpeed then 1 else 0) {
        if ml == m.len && last < pos {
          last := pos;
        }
        Narrowed(o, found, ip + cur, m.off, m.len, ip + cur, ml);
        opt[pos] := Opt(price, m.off, ml, ll);
      }
    }
  }

  /** Not worth searching at `cur`: the next position costs no more. */
  predicate SkipSearch(s: seq<Opt>, cur: nat, fullUpdate: bool)
    requires cur + MINMATCH < |s|
  {
    s[cur + 1].price <= s[cur].price && (fullUpdate ==> s[cur + MINMATCH].price < s[cur].price + 3)
  }

  /** How a stretch is left: the match or literal of `mlen` bytes at `cur` reaches `last` or beyond. */
  ghost predicate Reached(o: Out, found: set<Span>, ip: nat, s: seq<Opt>, cur: nat, last: nat, mlen: nat, off: nat) {
    && Table(o, found, ip, s, cur) && cur < last <= cur + mlen && last <= OPT_NUM
    && Step(o, found, ip + cur, Opt(0, off, mlen, 0)) && ip + cur + mlen <= |o.data|
  }

  /** "check further positions": fills the table until no position is left, or a match is long enough. */
  method Scan(opt: array<Opt>, o: Out, c: Search, f: Finder, ip: nat, first: nat, sufficient: nat, fullUpdate: bool,
              ghost found0: set<Span>)
    returns (cur: nat, last: nat, mlen: nat, off: nat, ghost found: set<Span>)
    requires c.Fits(o) && f.Valid(c.w) && o.ds <= ip && f.nextToUpdate <= c.w.low + ip && Genuine(o, found0)
    requires Table(o, found0, ip, opt[..], first + TRAILING_LITERALS) && 1 <= first < OPT_NUM
    requires ip + first + LASTLITERALS <= |o.data|
    modifies opt, f, f.hashTable, f.chainTable
    ensures f.Valid(c.w) && found0 <= found && Genuine(o, found) && Reached(o, found, ip, opt[..], cur, last, mlen, off)
    ensures f.nextToUpdate < c.w.low + ip + last && Joined(old(f.returned), f.returned, found0, found)
  {
    hide Usable, Step, SkipSearch, Genuine, Joined;
    cur, last, found := 1, first, found0;
    JoinedNone(f.returned, found);
    while cur < last && ip + cur + MFLIMIT <= |o.data|
      invariant 1 <= cur <= last < OPT_NUM && found0 <= found && Genuine(o, found) && f.Valid(c.w)
      invariant f.nextToUpdate < c.w.low + ip + cur && Joined(old(f.returned), f.returned, found0, found)
      invariant Table(o, found, ip, opt[..], last + TRAILING_LITERALS) && ip + last + LASTLITERALS <= |o.data|
      decreases OPT_NUM - cur
    {
      if !SkipSearch(opt[..], cur, fullUpdate) {
        var m;
        ghost var found1, log := found, f.returned;
        m, found := FindLongerMatch(o, c, f, ip + cur, if fullUpdate then MINMATCH - 1 else last - cur, found1);
        JoinedTwice(old(f.returned), log, f.returned, found0, found1, found);
        StillTable(o, found1, found, ip, opt[..], last + TRAILING_LITERALS);
        if m.len > 0 {
          LongEnough(o, found, ip + cur, m.off, m.len);
          if m.len > sufficient || m.len + cur >= OPT_NUM {
            assert Step(o, found, ip + cur, Opt(0, m.off, m.len, 0)) by { IsStep(o, found, ip + cur, m); }
            return cur, cur + 1, m.len, m.off, found;
          }
          LiteralPrices(opt, cur, last, o, found, ip);
          last := MatchPrices(opt, cur, m, last, c.favorDecSpeed, o, found, ip);
          TrailingLiterals(opt, last, o, found, ip);
        }
      }
      cur := cur + 1;
    }
    mlen, off := opt[last].mlen, opt[last].off;
    SameStep(o, found, ip + last - mlen, opt[last]);
    cur := last - mlen;
  }

  lemma IsStep(o: Out, found: set<Span>, at: nat, m: Match)
    requires Usable(o, found, at, m.off, m.len)
    ensures Step(o, found, at, Opt(0, m.off, m.len, 0))
  {
    hide Usable;
  }

  lemma SameStep(o: Out, found: set<Span>, at: int, e: Opt)
    requires Step(o, found, at, e)
    ensures Step(o, found, at, Opt(0, e.off, e.mlen, 0)) && e.mlen >= 1
  {
    hide IsMatch, PartOfFound;
  }

  // --- Reversal in place ---

  /** From position p to `end`, each entry tells what starts there. */
  ghost predicate Path(o: Out, found: set<Span>, ip: nat, s: seq<Opt>, p: nat, end: nat)
    decreases end - p
  {
    || p == end
    || (p < end < |s| && s[p].mlen >= 1
        && Step(o, found, ip + p, s[p]) && Path(o, found, ip, s, p + s[p].mlen, end))
  }

  lemma {:induction false} SamePath(o: Out, found: set<Span>, ip: nat, s: seq<Opt>, s': seq<Opt>, p: nat, end: nat)
    requires Path(o, found, ip, s, p, end) && |s| == |s'| && (forall i :: p <= i < |s| ==> s[i] == s'[i])
    ensures Path(o, found, ip, s', p, end)
    decreases end - p
  {
    hide Step;
    if p != end {
      SamePath(o, found, ip, s, s', p + s[p].mlen, end);
    }
  }

  /** "reverse traversal": entries that told where a step ends come to tell where it starts. */
  method Reverse(opt: array<Opt>, cur: nat, mlen: nat, off: nat, o: Out, ghost found: set<Span>, ip: nat)
    requires Table(o, found, ip, opt[..], cur) && mlen >= 1 && Step(o, found, ip + cur, Opt(0, off, mlen, 0))
    modifies opt
    ensures Path(o, found, ip, opt[..], 0, cur) && Step(o, found, ip + cur, opt[cur])
    ensures opt[cur].mlen == mlen
  {
    hide Step;
    var at: nat, selMl: nat, selOff: nat := cur, mlen, off;
    while true
      invariant Table(o, found, ip, opt[..], at) && at <= cur < opt.Length && selMl >= 1
      invariant Step(o, found, ip + at, Opt(0, selOff, selMl, 0))
      invariant at == cur ==> selMl == mlen
      invariant at < cur ==>
        Path(o, found, ip, opt[..], at + selMl, cur) && Step(o, found, ip + cur, opt[cur]) && opt[cur].mlen == mlen
      decreases at
    {
      var nextMl, nextOff := opt[at].mlen, opt[at].off;
      ghost var s := opt[..];
      opt[at] := opt[at].(mlen := selMl, off := selOff);
      assert Step(o, found, ip + at, opt[at]) by { SameEntry(o, found, ip + at, opt[at], selMl, selOff); }
      if at < cur {
        SamePath(o, found, ip, s, opt[..], at + selMl, cur);
      }
      assert Path(o, found, ip, opt[..], at, cur);
      selMl, selOff := nextMl, nextOff;
      if nextMl > at {
        break;
      }
      SameStep(o, found, ip + at - nextMl, s[at]);
      at := at - nextMl;
    }
  }

  lemma SameEntry(o: Out, found: set<Span>, at: int, e: Opt, mlen: nat, off: nat)
    requires Step(o, found, at, Opt(0, off, mlen, 0)) && e.mlen == mlen && e.off == off
    ensures Step(o, found, at, e)
  {
    hide Usable;
  }

  // --- Writing ---

  /** "encode all recorded sequences in order": `mlen` and `off` are the match that did not fit, if one did not. */
  method EncodePath(opt: array<Opt>, o: Out, dst: array<byte>, ip0: nat, cur: nat, last: nat, op0: nat, anchor0: nat,
                    ghost t0: Trace)
    returns (overflow: bool, op: nat, anchor: nat, ip: nat, mlen: nat, off: nat, ghost t: Trace)
    requires cur < opt.Length && Path(o, t0.found, ip0, opt[..], 0, cur) && Step(o, t0.found, ip0 + cur, opt[cur])
    requires cur < last <= cur + opt[cur].mlen
    requires o.Valid(dst.Length) && Written(o, dst[..], op0, anchor0, t0) && anchor0 <= ip0
    modifies dst
    ensures Written(o, dst[..], op, anchor, t) && SameOutside(old(dst[..]), dst[..], 0, o.cap) && anchor <= ip
    ensures overflow ==> Usable(o, t.found, ip, off, mlen) && NoRoom(o)
    ensures !overflow ==> ip == ip0 + cur + opt[cur].mlen
    ensures t.found == t0.found
  {
    hide Usable, Emitted, Chosen, SameOutside;
    overflow, op, anchor, ip, mlen, off, t := false, op0, anchor0, ip0, 0, 0, t0;
    Unwritten(dst[..], o.cap);
    var rPos := 0;
    while rPos < last
      invariant ip == ip0 + rPos && anchor <= ip && t.found == t0.found
      invariant Written(o, dst[..], op, anchor, t) && SameOutside(old(dst[..]), dst[..], 0, o.cap)
      invariant (rPos <= cur && Path(o, t.found, ip0, opt[..], rPos, cur)) || rPos == cur + opt[cur].mlen
      decreases last - rPos
    {
      mlen, off := opt[rPos].mlen, opt[rPos].off;
      if mlen == 1 {
        ip, rPos := ip + 1, rPos + 1;
      } else {
        ghost var b := dst[..];
        overflow, op, t := Emit(o, dst, op, anchor, ip, off, mlen, t);
        OutsideTwice(old(dst[..]), b, dst[..], 0, o.cap);
        if overflow {
          return;
        }
        rPos, ip := rPos + mlen, ip + mlen;
        anchor := ip;
      }
    }
  }

  /** One stretch: from the first match found to the end of what the table covers. */
  method Stretch(opt: array<Opt>, o: Out, c: Search, f: Finder, dst: array<byte>, ip0: nat, op0: nat, anchor0: nat,
                 m: Match,
                 sufficient: nat, fullUpdate: bool, ghost t0: Trace)
    returns (overflow: bool, op: nat, anchor: nat, ip: nat, mlen: nat, off: nat, ghost t: Trace)
    requires opt.Length == OPT_NUM + TRAILING_LITERALS && c.Fits(o) && f.Valid(c.w) && f.nextToUpdate <= c.w.low + ip0
    requires o.Valid(dst.Length) && Written(o, dst[..], op0, anchor0, t0) && anchor0 <= ip0
    requires Usable(o, t0.found, ip0, m.off, m.len) && m.len <= sufficient < OPT_NUM
    modifies opt, f, f.hashTable, f.chainTable, dst
    ensures f.Valid(c.w) && Written(o, dst[..], op, anchor, t) && SameOutside(old(dst[..]), dst[..], 0, o.cap)
    ensures anchor <= ip
    ensures overflow ==> Usable(o, t.found, ip, off, mlen) && NoRoom(o)
    ensures !overflow ==> ip0 < ip && f.nextToUpdate <= c.w.low + ip
    ensures Joined(old(f.returned), f.returned, t0.found, t.found)
  {
    hide Joined, Usable, Written, SameOutside, Step, Path, Genuine;
    AnchorInside(o, dst[..], op0, anchor0, t0);
    LongEnough(o, t0.found, ip0, m.off, m.len);
    FirstPrices(opt, ip0 - anchor0, m, o, t0.found, ip0);
    var cur, last;
    ghost var found;
    cur, last, mlen, off, found := Scan(opt, o, c, f, ip0, m.len, sufficient, fullUpdate, t0.found);
    Reverse(opt, cur, mlen, off, o, found, ip0);
    StillWritten(o, dst[..], op0, anchor0, t0, found);
    overflow, op, anchor, ip, mlen, off, t := EncodePath(opt, o, dst, ip0, cur, last, op0, anchor0,
      t0.(found := found));
  }

  /** A run of equal bytes that is longer than what ends a search at once. */
  ghost predicate LongRun(o: Out, c: Search, sufficient: nat) {
    EqualRun(o) && c.Tries() && |o.data| - 6 > sufficient
  }

  /** One turn of the main loop: a search, and the long match or the stretch it leads to. */
  method Turn(opt: array<Opt>, o: Out, c: Search, f: Finder, dst: array<byte>, ip0: nat, op0: nat, anchor0: nat,
              sufficient: nat, fullUpdate: bool, ghost t0: Trace)
    returns (overflow: bool, op: nat, anchor: nat, ip: nat, mlen: nat, off: nat, ghost t: Trace)
    requires opt.Length == OPT_NUM + TRAILING_LITERALS && c.Fits(o) && f.Valid(c.w) && f.nextToUpdate <= c.w.low + ip0
    requires o.Valid(dst.Length) && Written(o, dst[..], op0, anchor0, t0) && anchor0 <= ip0
    requires ip0 + MFLIMIT <= |o.data| && sufficient < OPT_NUM
    requires LongRun(o, c, sufficient) ==>
      RunSoFar(o, ip0, anchor0, t0.seqs) && (ip0 <= 1 ==> f.nextToUpdate == c.w.low)
    modifies opt, f, f.hashTable, f.chainTable, dst
    ensures f.Valid(c.w) && Written(o, dst[..], op, anchor, t) && SameOutside(old(dst[..]), dst[..], 0, o.cap)
    ensures anchor <= ip
    ensures overflow ==> Usable(o, t.found, ip, off, mlen) && NoRoom(o)
    ensures !overflow ==> ip0 < ip && f.nextToUpdate <= c.w.low + ip
    ensures LongRun(o, c, sufficient) ==>
      RunState(o, overflow, ip, anchor, t.seqs) && (!overflow && ip <= 1 ==> f.nextToUpdate == c.w.low)
    ensures Joined(old(f.returned), f.returned, t0.found, t.found)
  {
    hide Usable, Written, SameOutside, Genuine, Joined, FP.AllEqual;
    if EqualRun(o) {
      RunMatches(o);
      assert [] + [TheMatch(o)] == [TheMatch(o)];
    }
    AnchorInside(o, dst[..], op0, anchor0, t0);
    Unwritten(dst[..], o.cap);
    overflow, op, anchor, ip, mlen, off := false, op0, anchor0, ip0, MINMATCH, 0;
    var m;
    ghost var found, log := t0.found, f.returned;
    m, found := FindLongerMatch(o, c, f, ip, MINMATCH - 1, t0.found);
    StillWritten(o, dst[..], op, anchor, t0, found);
    t := t0.(found := found);
    if m.len == 0 {
      ip := ip + 1;
    } else if m.len > sufficient {
      LongEnough(o, found, ip, m.off, m.len);
      mlen, off := m.len, m.off;
      overflow, op, t := Emit(o, dst, op, anchor, ip, off, mlen, t);
      if !overflow {
        ip := ip + mlen;
        anchor := ip;
      }
    } else {
      ghost var log1 := f.returned;
      overflow, op, anchor, ip, mlen, off, t := Stretch(opt, o, c, f, dst, ip, op, anchor, m, sufficient, fullUpdate,
        t);
      JoinedTwice(log, log1, f.returned, t0.found, found, t.found);
    }
  }

  /** LZ4HC_compress_optimal, for any hash, number of searches and sufficient length. */
  method CompressOptimal(o: Out, w: Window, f: Finder, dst: array<byte>, nbSearches: nat, sufficientLen: nat,
                         fullUpdate: bool, favorDecSpeed: bool)
    returns (result: nat, anchor: nat, end: nat, ghost t: Trace)
    requires o.Valid(dst.Length) && o.cap >= 1 && f.Valid(w) && f.nextToUpdate <= w.low + o.ds
    requires w.Valid() && w.data == o.data && w.dl <= o.ds
    modifies f, f.hashTable, f.chainTable, dst
    ensures f.Valid(w)
    ensures result == 0 ==> o.directive == FC.LimitedOutput && o.cap < FC.CompressBound(|o.data| - o.ds)
    ensures result > 0 ==> result <= o.cap && Compressed(o, dst[..result], anchor, end, t)
    ensures var c := Search(w, nbSearches, true, true, favorDecSpeed);
      LongRun(o, c, Min(sufficientLen, OPT_NUM - 1)) && o.directive != FC.FillOutput ==> Shrunk(o, dst[..], result)
    ensures Joined(old(f.returned), f.returned, {}, t.found)
    ensures SameOutside(old(dst[..]), dst[..], 0, o.cap)
  {
    hide Usable, Written, SameOutside, Compressed, Genuine, Joined, FP.AllEqual, Shrunk;
    var c := Search(w, nbSearches, true, true, favorDecSpeed);
    var sufficient := Min(sufficientLen, OPT_NUM - 1);
    var opt := new Opt[OPT_NUM + TRAILING_LITERALS](_ => Opt(0, 0, 0, 0));
    var overflow, op: nat, ip: nat, mlen: nat, off: nat := false, 0, o.ds, MINMATCH, 0;
    anchor, t := o.ds, Trace([], {});
    JoinedNone(f.returned, {});
    NothingWritten(o, dst[..]);
    Unwritten(dst[..], o.cap);
    while !overflow && ip + MFLIMIT <= |o.data|
      invariant f.Valid(w) && Written(o, dst[..], op, anchor, t) && SameOutside(old(dst[..]), dst[..], 0, o.cap)
      invariant anchor <= ip
      invariant overflow ==> Usable(o, t.found, ip, off, mlen) && NoRoom(o)
      invariant !overflow ==> f.nextToUpdate <= w.low + ip
      invariant LongRun(o, c, sufficient) ==>
        RunState(o, overflow, ip, anchor, t.seqs) && (!overflow && ip <= 1 ==> f.nextToUpdate == w.low)
      invariant Joined(old(f.returned), f.returned, {}, t.found)
      decreases !overflow, |o.data| - ip
    {
      ghost var found, b, log := t.found, dst[..], f.returned;
      overflow, op, anchor, ip, mlen, off, t := Turn(opt, o, c, f, dst, ip, op, anchor, sufficient, fullUpdate, t);
      JoinedTwice(old(f.returned), log, f.returned, {}, found, t.found);
      OutsideTwice(old(dst[..]), b, dst[..], 0, o.cap);
    }
    ghost var b := dst[..];
    result, anchor, end, t := Finish(o, dst, overflow, op, anchor, ip, off, mlen, t);
    if LongRun(o, c, sufficient) && o.directive != FC.FillOutput {
      RunDone(o, dst[..], result, overflow, op, ip, anchor, end, t);
    }
    OutsideTwice(old(dst[..]), b, dst[..], 0, o.cap);
  }
}
