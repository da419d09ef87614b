/**
 LZ4MID_compress, the parser of levels 1 and 2: one candidate by a hash of eight bytes, one by a hash of four, no
 chains. Positions are sometimes entered under the hash of a neighbour; matches are compared before they are used.
 */
module HcMidParser {
  import opened Bytes
  import opened BlockEncoding
  import opened MatchLength
  import opened MemCopy
  import opened HcMatchFinder
  import opened HcWriter
  import opened HcParsing
  import FC = FastCompressor
  import FP = FastParse

  const HASHSIZE := 8

  class MidTables {
    const slots: nat
    const hash4: seq<byte> -> nat
    const hash8: seq<byte> -> nat
    const table4: array<int>
    const table8: array<int>

    /** Every entry lies before an index: `b4` in the one table, `b8` in the other. */
    ghost predicate Below(b4: int, b8: int)
      reads this, table4, table8
    {
      && table4.Length == slots && table8.Length == slots && table4 != table8
      && (forall s :: hash4(s) < slots && hash8(s) < slots)
      && (forall h :: 0 <= h < slots ==> 0 <= table4[h] < b4 && 0 <= table8[h] < b8)
    }

    ghost predicate Valid(bound: int)
      reads this, table4, table8
    {
      Below(bound, bound)
    }

    constructor (slots: nat, hash4: seq<byte> -> nat, hash8: seq<byte> -> nat)
      requires forall s :: hash4(s) < slots && hash8(s) < slots
      ensures Valid(1) && fresh(table4) && fresh(table8)
    {
      this.slots, this.hash4, this.hash8 := slots, hash4, hash8;
      table4 := new int[slots](_ => 0);
      table8 := new int[slots](_ => 0);
    }

    lemma Sized(b4: int, b8: int)
      requires Below(b4, b8)
      ensures table4.Length == slots && table8.Length == slots && forall s :: hash4(s) < slots && hash8(s) < slots
    {}

    lemma Later(b4: int, b8: int, b4': int, b8': int)
      requires Below(b4, b8) && b4 <= b4' && b8 <= b8'
      ensures Below(b4', b8')
    {}

    /** The entry for the four bytes at `p`, which `index` replaces. */
    method Swap4(data: seq<byte>, p: nat, index: nat, ghost b4: int, ghost b8: int) returns (pos: nat)
      requires Below(b4, b8) && p + 4 <= |data|
      modifies table4
      ensures pos < b4 && Below(Max(b4, index + 1), b8)
    {
      var h := hash4(data[p..p + 4]);
      pos := table4[h];
      table4[h] := index;
    }

    /** The same for eight bytes. */
    method Swap8(data: seq<byte>, p: nat, index: nat, ghost b4: int, ghost b8: int) returns (pos: nat)
      requires Below(b4, b8) && p + 8 <= |data|
      modifies table8
      ensures pos < b8 && Below(b4, Max(b8, index + 1))
      ensures pos == old(table8[hash8(data[p..p + 8])])
      ensures table8[..] == old(table8[..])[hash8(data[p..p + 8]) := index]
    {
      var h := hash8(data[p..p + 8]);
      pos := table8[h];
      table8[h] := index;
    }

    method At8(data: seq<byte>, p: nat, ghost b4: int, ghost b8: int) returns (pos: nat)
      requires Below(b4, b8) && p + 8 <= |data|
      ensures pos < b8
    {
      pos := table8[hash8(data[p..p + 8])];
    }

    method AddPos4(data: seq<byte>, p: nat, index: nat, ghost bound: int)
      requires Valid(bound) && p + 4 <= |data| && index < bound
      modifies table4
      ensures Valid(bound)
    {
      table4[hash4(data[p..p + 4])] := index;
    }

    method AddPos8(data: seq<byte>, p: nat, index: nat, ghost bound: int)
      requires Valid(bound) && p + 8 <= |data| && index < bound
      modifies table8
      ensures Valid(bound)
    {
      table8[hash8(data[p..p + 8])] := index;
    }
  }

  /** The length of the match at index `pos`, in the prefix or the external dictionary; 0 if it is out of reach. */
  method TryIndex(w: Window, ip: nat, pos: nat, iHigh: nat) returns (len: nat)
    requires w.Valid() && w.dl <= ip <= iHigh <= |w.data| && pos < w.low + ip
    ensures len >= MINMATCH ==>
      && ip + len <= iHigh && w.low <= pos && w.low + ip - pos <= DISTANCE_MAX
      && IsMatch(w.data, ip, w.low + ip - pos, len)
    ensures w.PrefixIdx() <= pos && w.low + ip - pos <= DISTANCE_MAX ==>
      len == CommonPrefix(w.data, ip, w.data, pos - w.low, iHigh)
  {
    hide CommonPrefix;
    len := 0;
    if w.low + ip - pos <= DISTANCE_MAX && pos >= w.low {
      var m := pos - w.low;
      var limit := if pos >= w.PrefixIdx() then iHigh else ip + Min(w.PrefixIdx() - pos, iHigh - ip);
      len := Count(w.data, ip, w.data, m, limit);
      CommonPrefixEqual(w.data, ip, w.data, m, limit);
    }
  }

  /** A match that can be written, close to the searched position `ip`. */
  ghost predicate Good(w: Window, ip: nat, start: nat, dist: nat, len: nat) {
    && ip <= start <= ip + 1 && start + MFLIMIT <= |w.data| && ip + MINMATCH <= start + len <= |w.data| - LASTLITERALS
    && len >= MINMATCH && dist <= DISTANCE_MAX && IsMatch(w.data, start, dist, len)
  }

  /** What a search leaves: its own index in the tables, and the next one if it found something. */
  ghost predicate Searched(w: Window, tables: MidTables, ip: nat, start: nat, dist: nat, len: nat)
    reads tables, tables.table4, tables.table8
  {
    if len < MINMATCH then tables.Valid(w.low + ip + 1)
    else tables.Valid(w.low + ip + 2) && Good(w, ip, start, dist, len)
  }

  /** What the table by eight bytes holds for the bytes at `p`. */
  ghost function Entry8(w: Window, tables: MidTables, p: nat): int
    requires p + 8 <= |w.data| && tables.hash8(w.data[p..p + 8]) < tables.table8.Length
    reads tables.table8
  {
    tables.table8[tables.hash8(w.data[p..p + 8])]
  }

  /** Searches at `ip`: by eight bytes, then by four. */
  method FindAt(w: Window, tables: MidTables, ip: nat) returns (start: nat, dist: nat, len: nat)
    requires w.Valid() && w.dl <= ip && ip + MFLIMIT <= |w.data| && tables.Valid(w.low + ip)
    modifies tables.table4, tables.table8
    ensures Searched(w, tables, ip, start, dist, len)
    ensures len < MINMATCH ==> Entry8(w, tables, ip) == w.low + ip
    ensures ip == 0 ==> len < MINMATCH
    ensures var pos := old(Entry8(w, tables, ip));
      w.PrefixIdx() <= pos < w.low + ip && w.low + ip - pos <= DISTANCE_MAX ==>
        var n := CommonPrefix(w.data, ip, w.data, pos - w.low, |w.data| - LASTLITERALS);
        n >= MINMATCH ==> start == ip && dist == w.low + ip - pos && len == n
  {
    hide IsMatch, MidTables.Below, CommonPrefix;
    tables.Sized(w.low + ip, w.low + ip);
    var ipIndex := w.low + ip;
    var pos8 := tables.Swap8(w.data, ip, ipIndex, ipIndex, ipIndex);
    len := TryIndex(w, ip, pos8, |w.data| - LASTLITERALS);
    if len >= MINMATCH {
      tables.Later(ipIndex, ipIndex + 1, ipIndex + 2, ipIndex + 2);
      return ip, ipIndex - pos8, len;
    }
    start, dist, len := FindShort(w, tables, ip);
  }

  /** The candidate by four bytes; if it is in the prefix, one byte on there may be something longer. */
  method FindShort(w: Window, tables: MidTables, ip: nat) returns (start: nat, dist: nat, len: nat)
    requires w.Valid() && w.dl <= ip && ip + MFLIMIT <= |w.data| && tables.Below(w.low + ip, w.low + ip + 1)
    modifies tables.table4, tables.table8
    ensures Searched(w, tables, ip, start, dist, len)
    ensures len < MINMATCH ==> tables.table8[..] == old(tables.table8[..])
    ensures ip == 0 ==> len < MINMATCH
  {
    hide IsMatch, MidTables.Below;
    var ipIndex, iHigh := w.low + ip, |w.data| - LASTLITERALS;
    var pos4 := tables.Swap4(w.data, ip, ipIndex, ipIndex, ipIndex + 1);
    len := TryIndex(w, ip, pos4, iHigh);
    start, dist := ip, ipIndex - pos4;
    if len >= MINMATCH {
      var next := tables.At8(w.data, ip + 1, ipIndex + 1, ipIndex + 1);
      tables.Later(ipIndex + 1, ipIndex + 1, ipIndex + 2, ipIndex + 2);
      if pos4 >= w.PrefixIdx() {
        if ipIndex + 1 - next <= DISTANCE_MAX && next >= w.PrefixIdx() && ip + MFLIMIT < |w.data| {
          var len2 := TryIndex(w, ip + 1, next, iHigh);
          if len2 > len {
            tables.AddPos8(w.data, ip + 1, ipIndex + 1, ipIndex + 2);
            start, dist, len := ip + 1, ipIndex + 1 - next, len2;
          }
        }
      }
    }
  }

  /** Extends a match backwards, not past the anchor nor out of the prefix. */
  method CatchBack(w: Window, anchor: nat, start0: nat, dist: nat, len0: nat) returns (start: nat, len: nat)
    requires w.dl <= anchor <= start0 && IsMatch(w.data, start0, dist, len0)
    ensures anchor <= start <= start0 && start + len == start0 + len0 && IsMatch(w.data, start, dist, len)
  {
    hide IsMatch;
    start, len := start0, len0;
    MatchInside(w.data, start, dist, len);
    while start > anchor && start - w.dl > dist && w.data[start - 1] == w.data[start - dist - 1]
      invariant anchor <= start <= start0 && start + len == start0 + len0 && IsMatch(w.data, start, dist, len)
    {
      OneLonger(w.data, start, dist, len);
      start, len := start - 1, len + 1;
    }
  }

  lemma OneLonger(d: seq<byte>, p: nat, off: nat, len: nat)
    requires IsMatch(d, p, off, len) && off < p && d[p - 1] == d[p - off - 1]
    ensures IsMatch(d, p - 1, off, len + 1)
  {
    assert d[p - 1..p + len] == [d[p - 1]] + d[p..p + len];
    assert d[p - off - 1..p - off + len] == [d[p - off - 1]] + d[p - off..p - off + len];
  }

  /** Around the match: its beginning, under the index of the searched position. */
  method FillBeginning(w: Window, tables: MidTables, start: nat, ipIndex: nat)
    requires start + MFLIMIT <= |w.data| && tables.Valid(ipIndex + 2)
    modifies tables.table4, tables.table8
    ensures tables.Valid(ipIndex + 3)
  {
    tables.Later(ipIndex + 2, ipIndex + 2, ipIndex + 3, ipIndex + 3);
    tables.AddPos8(w.data, start + 1, ipIndex + 1, ipIndex + 3);
    tables.AddPos8(w.data, start + 2, ipIndex + 2, ipIndex + 3);
    tables.AddPos4(w.data, start + 1, ipIndex + 1, ipIndex + 3);
  }

  /** Its end, as long as eight bytes can be read there. */
  method FillEnd(w: Window, tables: MidTables, end: nat)
    requires w.Valid() && w.dl + 4 <= end <= |w.data| && tables.Valid(w.low + end)
    modifies tables.table4, tables.table8
    ensures tables.Valid(w.low + end)
  {
    var endIdx := w.low + end;
    if end - 2 < |w.data| - HASHSIZE {
      if end - w.dl > 5 {
        tables.AddPos8(w.data, end - 5, endIdx - 5, endIdx);
      }
      tables.AddPos8(w.data, end - 3, endIdx - 3, endIdx);
      tables.AddPos8(w.data, end - 2, endIdx - 2, endIdx);
      tables.AddPos4(w.data, end - 2, endIdx - 2, endIdx);
      tables.AddPos4(w.data, end - 1, endIdx - 1, endIdx);
    }
  }

  /** The first position is in the table by eight bytes, under the hash of the second. */
  ghost predicate FirstEntered(w: Window, tables: MidTables)
    reads tables, tables.table8
  {
    |w.data| >= 9 && tables.hash8(w.data[1..9]) < tables.table8.Length && Entry8(w, tables, 1) == w.low
  }

  /** A search, its match extended backwards, and the table entries at the beginning of the match. */
  method FindBack(o: Out, w: Window, tables: MidTables, ip: nat, anchor: nat) returns (start: nat, off: nat, len: nat)
    requires w.Valid() && w.data == o.data && w.dl <= o.ds <= anchor <= ip && ip + MFLIMIT <= |o.data|
    requires tables.Valid(w.low + ip)
    modifies tables.table4, tables.table8
    ensures len < MINMATCH ==> tables.Valid(w.low + ip + 1)
    ensures len >= MINMATCH ==>
      tables.Valid(w.low + ip + 3) && ip + MINMATCH <= start + len && Emittable(o, anchor, start, off, len)
    ensures EqualRun(o) && ip == 0 ==> len < MINMATCH && FirstEntered(w, tables)
    ensures EqualRun(o) && ip == 1 && old(FirstEntered(w, tables)) ==> start == 1 && off == 1 && len == |o.data| - 6
  {
    hide IsMatch, MidTables.Below, CommonPrefix, FP.AllEqual;
    if EqualRun(o) {
      RunMatches(o);
      FP.EqualPrefix(o.data, 1, 0, |o.data| - LASTLITERALS);
    }
    start, off, len := FindAt(w, tables, ip);
    if len < MINMATCH {
      tables.Sized(w.low + ip + 1, w.low + ip + 1);
    } else {
      start, len := CatchBack(w, anchor, start, off, len);
      MatchInside(w.data, start, off, len);
      FillBeginning(w, tables, start, w.low + ip);
    }
  }

  /** One turn of the main loop. In the trace, the matches written stand for those found. */
  method Step(o: Out, w: Window, tables: MidTables, dst: array<byte>, ip0: nat, op0: nat, anchor0: nat, ghost t0: Trace)
    returns (overflow: bool, ip: nat, op: nat, anchor: nat, off: nat, len: nat, ghost t: Trace)
    requires o.Valid(dst.Length) && w.Valid() && w.data == o.data && w.dl <= o.ds && tables.Valid(w.low + ip0)
    requires Written(o, dst[..], op0, anchor0, t0) && anchor0 <= ip0 && ip0 + MFLIMIT <= |o.data|
    requires EqualRun(o) ==> RunSoFar(o, ip0, anchor0, t0.seqs) && (ip0 == 1 ==> FirstEntered(w, tables))
    modifies tables.table4, tables.table8, dst
    ensures Written(o, dst[..], op, anchor, t) && SameOutside(old(dst[..]), dst[..], 0, o.cap) && anchor <= ip
    ensures overflow ==> NoRoom(o) && Usable(o, t.found, ip, off, len)
    ensures tables.Valid(w.low + if overflow then |o.data| else Min(ip, |o.data|)) && (!overflow ==> ip0 < ip)
    ensures EqualRun(o) ==>
      RunState(o, overflow, ip, anchor, t.seqs) && (!overflow && ip == 1 ==> FirstEntered(w, tables))
  {
    hide Usable, Emitted, Chosen, Genuine, SameOutside, IsMatch, MidTables.Below, FP.AllEqual, FirstEntered;
    AnchorInside(o, dst[..], op0, anchor0, t0);
    Unwritten(dst[..], o.cap);
    overflow, ip, op, anchor, t := false, ip0, op0, anchor0, t0;
    var start;
    start, off, len := FindBack(o, w, tables, ip0, anchor0);
    if EqualRun(o) {
      RunMatches(o);
      assert [] + [TheMatch(o)] == [TheMatch(o)];
    }
    if len < MINMATCH {
      ip := ip0 + 1 + (ip0 - anchor0) / 512;
      tables.Later(w.low + ip0 + 1, w.low + ip0 + 1, w.low + Min(ip, |o.data|), w.low + Min(ip, |o.data|));
      return;
    }
    ip := start;
    t := t0.(found := t0.found + {Span(ip, off, len)});
    NowFound(o, dst[..], op0, anchor0, t0, ip, off, len);
    overflow, op, t := Emit(o, dst, op0, anchor0, ip, off, len, t);
    if overflow {
      tables.Later(w.low + ip0 + 3, w.low + ip0 + 3, w.low + |o.data|, w.low + |o.data|);
    } else {
      tables.Later(w.low + ip0 + 3, w.low + ip0 + 3, w.low + ip + len, w.low + ip + len);
      ip := ip + len;
      anchor := ip;
      FillEnd(w, tables, ip);
    }
  }

  lemma NowFound(o: Out, b: seq<byte>, op: nat, anchor: nat, t: Trace, ip: nat, off: nat, len: nat)
    requires Written(o, b, op, anchor, t) && anchor <= ip && Emittable(o, anchor, ip, off, len)
    ensures var t' := t.(found := t.found + {Span(ip, off, len)});
      Written(o, b, op, anchor, t') && Usable(o, t'.found, ip, off, len)
  {
    hide Emitted, Chosen, IsMatch;
    var f := Span(ip, off, len);
    assert Genuine(o, t.found + {f});
    StillWritten(o, b, op, anchor, t, t.found + {f});
    assert f in t.found + {f};
  }

  /** LZ4MID_compress without an attached dictionary, for any two hashes. */
  method CompressMid(o: Out, w: Window, tables: MidTables, dst: array<byte>)
    returns (result: nat, anchor: nat, end: nat, ghost seqs: seq<Sequence>)
    requires o.Valid(dst.Length) && o.cap >= 1 && tables.Valid(w.low + o.ds)
    requires w.Valid() && w.data == o.data && w.dl <= o.ds
    modifies tables.table4, tables.table8, dst
    ensures tables.Valid(w.low + |o.data|)
    ensures result == 0 ==> o.directive == FC.LimitedOutput && o.cap < FC.CompressBound(|o.data| - o.ds)
    ensures result > 0 ==> result <= o.cap && Whole(o, dst[..result], anchor, end, seqs)
    ensures EqualRun(o) && o.directive != FC.FillOutput ==> Shrunk(o, dst[..], result)
    ensures SameOutside(old(dst[..]), dst[..], 0, o.cap)
  {
    hide Usable, Written, SameOutside, Whole, Chosen, Genuine, FP.AllEqual, FirstEntered, Shrunk;
    var overflow, op: nat, ip: nat, off: nat, len: nat := false, 0, o.ds, 0, 0;
    ghost var t := Trace([], {});
    anchor := o.ds;
    NothingWritten(o, dst[..]);
    Unwritten(dst[..], o.cap);
    if |o.data| - o.ds >= MIN_LENGTH {
      while !overflow && ip + MFLIMIT <= |o.data|
        invariant Written(o, dst[..], op, anchor, t) && SameOutside(old(dst[..]), dst[..], 0, o.cap) && anchor <= ip
        invariant overflow ==> NoRoom(o) && Usable(o, t.found, ip, off, len)
        invariant EqualRun(o) ==>
          RunState(o, overflow, ip, anchor, t.seqs) && (!overflow && ip == 1 ==> FirstEntered(w, tables))
        invariant tables.Valid(w.low + if overflow then |o.data| else Min(ip, |o.data|))
        decreases !overflow, |o.data| - ip
      {
        ghost var b := dst[..];
        overflow, ip, op, anchor, off, len, t := Step(o, w, tables, dst, ip, op, anchor, t);
        OutsideTwice(old(dst[..]), b, dst[..], 0, o.cap);
      }
    }
    ghost var b := dst[..];
    ghost var bound := w.low + if overflow then |o.data| else Min(ip, |o.data|);
    tables.Later(bound, bound, w.low + |o.data|, w.low + |o.data|);
    result, anchor, end, t := Finish(o, dst, overflow, op, anchor, ip, off, len, t);
    seqs := t.seqs;
    if EqualRun(o) && o.directive != FC.FillOutput {
      RunDone(o, dst[..], result, overflow, op, ip, anchor, end, t);
    }
    OutsideTwice(old(dst[..]), b, dst[..], 0, o.cap);
  }
}
