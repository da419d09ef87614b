/**
 LZ4_compress_generic_validated: the hash-table compressor with its three output modes,
 without history, after a prefix, or with an external dictionary.
 */
module FastCompressor {
  import opened Bytes
  import opened BlockFormat
  import opened BlockEncoding
  import opened BlockWriter
  import opened MatchLength
  import opened MemCopy
  import opened FastParse

  datatype OutputDirective = NotLimited | LimitedOutput | FillOutput

  /** LZ4_COMPRESSBOUND. */
  function CompressBound(n: nat): nat {
    n + n / 255 + 16
  }

  /** The size of a block of `n` literals. */
  function RunSize(n: nat): nat {
    1 + n + (n + 240) / 255
  }

  /** A source was cut because the room was used up: not even as a single run one more byte would have fitted. */
  ghost predicate UsedUp(room: nat, result: nat, consumed: nat) {
    room <= result + 1 && room < RunSize(consumed + 1)
  }

  /** So no less was consumed than fits as literals. */
  lemma NoLess(room: nat, result: nat, consumed: nat, n: nat)
    requires UsedUp(room, result, consumed) && RunSize(n) <= room
    ensures n <= consumed
  {}

  /** LZ4_putIndexOnHash; a 16-bit table stores 16 bits. */
  method PutIndex(inp: Input, table: array<int>, p: nat, h: nat, ghost q: int)
    requires inp.Valid() && inp.ds <= p < q && p + MFLIMIT <= |inp.data| && h == inp.Slot(p)
    requires inp.TableInv(table[..], q)
    modifies table
    ensures inp.TableInv(table[..], q) && table[..] == old(table[..])[h := inp.Index(p)]
  {
    var idx := inp.Index(p);
    table[h] := if inp.tableType == ByU16 then idx % KB64 else idx;
  }

  /** Looks up the entry for the bytes at `p`, and enters `p` instead. */
  method TryEntry(inp: Input, table: array<int>, p: nat, h: nat) returns (found: bool, m: nat, low: nat)
    requires inp.Valid() && inp.ds < p && p + MFLIMIT <= |inp.data| && h == inp.Slot(p)
    requires inp.TableInv(table[..], p)
    modifies table
    ensures inp.TableInv(table[..], p + 1) && table[..] == old(table[..])[h := inp.Index(p)]
    ensures var e := old(table[h]);
      (found <==> Agrees(inp, e, p)) && (found ==> m == inp.Position(e) && low == LowLimit(inp, e))
    ensures found ==> inp.Candidate(p, m, low)
  {
    var matchIndex := table[h];
    ghost var t := table[..];
    TableInvGrows(inp, t, p, p + 1);
    PutIndex(inp, table, p, h, p + 1);
    found, m, low := false, 0, LowLimit(inp, matchIndex);
    if InReach(inp, matchIndex, inp.Index(p)) {
      AcceptedEntryIsInWindow(inp, t, h, p);
      m := inp.Position(matchIndex);
      found := inp.data[m..m + 4] == inp.data[p..p + 4];
    }
  }

  /** The search loop: skips ahead faster and faster until four bytes agree with a candidate. */
  method FindMatch(inp: Input, table: array<int>, ip0: nat, acceleration: nat)
    returns (found: bool, ip: nat, m: nat, low: nat)
    requires inp.Valid() && inp.TableInv(table[..], ip0) && acceleration >= 1
    requires inp.ds < ip0 <= |inp.data| - MFLIMIT + 1
    modifies table
    ensures found ==> ip0 <= ip && inp.Candidate(ip, m, low) && inp.TableInv(table[..], ip + 1)
    ensures !found ==> inp.TableInv(table[..], |inp.data|)
    ensures var r := Search(inp, old(table[..]), ip0, acceleration, 0);
      if found then r == Hit(ip, m, low, table[..]) else r == Miss(table[..])
  {
    hide Search, Agrees, LowLimit, Input.TableInv, Input.Candidate;
    var mflimitPlusOne := |inp.data| - MFLIMIT + 1;
    var forwardIp, step, searchMatchNb := ip0, 1, acceleration * 64;
    var forwardH := inp.Slot(forwardIp);
    ip, m, low := ip0, 0, 0;
    ghost var k := 0;
    TableSize(inp, table[..], ip0);
    while true
      invariant ip0 <= forwardIp <= mflimitPlusOne && forwardH == inp.Slot(forwardIp)
      invariant inp.TableInv(table[..], forwardIp)
      invariant step == Stride(acceleration, k) && searchMatchNb == 64 * acceleration + k
      invariant Search(inp, old(table[..]), ip0, acceleration, 0)
             == Search(inp, table[..], forwardIp, acceleration, k)
      decreases mflimitPlusOne - forwardIp
    {
      SearchStep(inp, table[..], forwardIp, acceleration, k);
      var h := forwardH;
      ip := forwardIp;
      forwardIp := forwardIp + step;
      step, searchMatchNb, k := searchMatchNb / 64, searchMatchNb + 1, k + 1;
      if forwardIp > mflimitPlusOne {
        TableInvGrows(inp, table[..], ip, |inp.data|);
        return false, ip, m, low;
      }
      forwardH := inp.Slot(forwardIp);
      found, m, low := TryEntry(inp, table, ip, h);
      if found {
        return;
      }
      TableInvGrows(inp, table[..], ip + 1, forwardIp);
    }
  }

  lemma CandidateMatches(inp: Input, ip: nat, m: nat, low: nat)
    requires inp.Candidate(ip, m, low)
    ensures low <= m < ip && ip + MFLIMIT <= |inp.data| && IsMatch(inp.data, ip, ip - m, MINMATCH)
    ensures inp.dict == UsingExtDict ==> low == if m < inp.ds then 0 else inp.ds
    ensures ip - m <= DISTANCE_MAX && (inp.dict == UsingExtDict && m < inp.ds ==> m + MINMATCH <= inp.ds)
  {}

  lemma OneBack(d: seq<byte>, ip: nat, m: nat, len: nat)
    requires 0 < m < ip && IsMatch(d, ip, ip - m, len) && d[ip - 1] == d[m - 1]
    ensures IsMatch(d, ip - 1, ip - m, len + 1)
  {
    assert d[ip - 1..ip + len] == [d[ip - 1]] + d[ip..ip + len];
    assert d[m - 1..m + len] == [d[m - 1]] + d[m..m + len];
  }

  /** Extends a candidate backwards, not past `anchor` nor out of its segment. */
  method CatchUp(inp: Input, ip0: nat, m0: nat, low: nat, anchor: nat) returns (ip: nat, m: nat)
    requires inp.Candidate(ip0, m0, low) && anchor < ip0
    ensures anchor <= ip <= ip0 && low <= m && ip - m == ip0 - m0
    ensures IsMatch(inp.data, ip, ip - m, ip0 - ip + MINMATCH)
    ensures inp.dict == UsingExtDict ==> (m < inp.ds <==> m0 < inp.ds)
    ensures ip0 - ip == Behind(inp.data, ip0, m0, Min(ip0 - anchor, m0 - low))
  {
    hide IsMatch, Behind, IsCommonSuffix, Input.Candidate;
    CandidateMatches(inp, ip0, m0, low);
    ip, m := ip0, m0;
    ghost var limit := Min(ip0 - anchor, m0 - low);
    while ip > anchor && m > low && inp.data[ip - 1] == inp.data[m - 1]
      invariant anchor <= ip <= ip0 && low <= m && ip - m == ip0 - m0
      invariant IsMatch(inp.data, ip, ip - m, ip0 - ip + MINMATCH)
      invariant ip0 - ip <= limit
      invariant Behind(inp.data, ip0, m0, limit) == ip0 - ip + Behind(inp.data, ip, m, limit - (ip0 - ip))
    {
      OneBack(inp.data, ip, m, ip0 - ip + MINMATCH);
      BehindStep(inp.data, ip, m, limit - (ip0 - ip));
      ip, m := ip - 1, m - 1;
    }
    BehindStep(inp.data, ip, m, limit - (ip0 - ip));
  }

  /** The match length code: LZ4_count up to matchlimit, in two pieces when the match starts in
      an external dictionary. */
  method MatchCode(inp: Input, ip: nat, m: nat) returns (matchCode: nat)
    requires inp.ds <= |inp.data| && m < ip && inp.ds <= ip && ip + MINMATCH + LASTLITERALS <= |inp.data|
    requires inp.dict == UsingExtDict && m < inp.ds ==> m + MINMATCH <= inp.ds
    ensures matchCode == CommonPrefix(inp.data, ip + MINMATCH, inp.data, m + MINMATCH, |inp.data| - LASTLITERALS)
  {
    hide CommonPrefix;
    var d, matchlimit := inp.data, |inp.data| - LASTLITERALS;
    if inp.dict == UsingExtDict && m < inp.ds {
      var limit := ip + (inp.ds - m);
      if limit > matchlimit {
        limit := matchlimit;
      }
      matchCode := Count(d, ip + MINMATCH, d, m + MINMATCH, limit);
      CountInTwo(d, ip + MINMATCH, m + MINMATCH, limit, matchlimit);
      if ip + MINMATCH + matchCode == limit {
        var more := Count(d, limit, d, inp.ds, matchlimit);
        matchCode := matchCode + more;
      }
    } else {
      matchCode := Count(d, ip + MINMATCH, d, m + MINMATCH, matchlimit);
    }
  }

  // --- Output ---

  /** `olimit` is the room for the output; in notLimited mode the caller promises that the bound fits. */
  datatype Output = Output(directive: OutputDirective, olimit: nat)
  datatype Status = Ok | ToLastLiterals | Overflow

  /** The output buffer is as large as the caller promised. */
  ghost predicate Sized(inp: Input, o: Output, size: nat) {
    && inp.Valid()
    && o.olimit <= size && (o.directive == NotLimited ==> CompressBound(|inp.data| - inp.ds) <= o.olimit)
    && (o.directive == FillOutput ==> inp.startIndex == 0 && inp.dict == NoDict && !inp.dictSmall)
  }

  /** The sequences written so far cover the source up to `anchor`, cost no more than the bound
      allows, and leave the room the end of the block needs. */
  ghost predicate Emitted(inp: Input, o: Output, b: seq<byte>, op: nat, anchor: nat, seqs: seq<Sequence>) {
    && inp.ds <= anchor <= |inp.data| && Covers(inp.data, inp.ds, seqs, anchor)
    && (forall s :: s in seqs ==> s.Valid())
    && |Encode(seqs)| == op && Holds(b, 0, Encode(seqs))
    && op <= (anchor - inp.ds) + (anchor - inp.ds) / 255
    && LeavesRoom(seqs, anchor, |inp.data|)
    && (o.directive != NotLimited ==> op <= o.olimit && (seqs != [] ==> op + 1 + LASTLITERALS <= o.olimit))
    && (o.directive == FillOutput && seqs != [] && seqs[|seqs| - 1].matchLen < 19 ==> op + 9 <= o.olimit)
  }

  /** Output written above `op` does not matter. */
  lemma EmittedFrame(inp: Input, o: Output, b: seq<byte>, b': seq<byte>, op: nat, anchor: nat, seqs: seq<Sequence>,
                     w: int)
    requires Emitted(inp, o, b, op, anchor, seqs) && SameOutside(b, b', op, w)
    ensures Emitted(inp, o, b', op, anchor, seqs)
  {
    hide Encode, Covers;
  }

  /** Literals and match together cost no more than their share of the bound. */
  lemma SequenceCost(a: nat, ll: nat, mc: nat)
    ensures a + a / 255 + 1 + (ll + 240) / 255 + ll + 2 + (mc + 240) / 255
      <= (a + ll + mc + 4) + (a + ll + mc + 4) / 255
  {
    assert (mc + 240) / 255 <= mc;
    assert (ll + 240) / 255 <= 1 + ll / 255;
    assert a / 255 + ll / 255 <= (a + ll + mc + 4) / 255;
  }

  /** Literals before the last MFLIMIT bytes always fit into the bound. */
  lemma LiteralsFit(a: nat, ll: nat, n: nat, op: nat)
    requires op <= a + a / 255 && a + ll + MFLIMIT <= n
    ensures (ll + 240) / 255 <= 1 + ll / 255 && (ll < 15 ==> (ll + 240) / 255 == 0)
    ensures op + 1 + ll + ll / 255 + 9 <= CompressBound(n)
  {
    assert a / 255 + ll / 255 <= n / 255;
  }

  /** What fillOutput keeps free beyond the smallest end of a block. */
  function Spare(o: Output): nat {
    if o.directive == FillOutput then 3 else 0
  }

  /** The block of `plan` does not fit. */
  ghost predicate Cramped(inp: Input, o: Output, plan: Plan)
    requires Sound(inp, inp.ds, plan)
  {
    o.directive != NotLimited && o.olimit < |Written(inp, plan)| + Spare(o)
  }

  /** A match at `ip` and the smallest end do not fit, with a sequence that begins at `token`. */
  ghost predicate NoRoom(inp: Input, o: Output, token: nat, anchor: nat, ip: nat, m: nat)
    requires anchor <= ip && m < ip && ip - m <= DISTANCE_MAX && ip + MFLIMIT <= |inp.data|
  {
    && o.directive != NotLimited
    && o.olimit < token + |EncodeSequence(Chosen(inp, anchor, ip, m))| + 1 + LASTLITERALS + Spare(o)
  }

  lemma NoRoomAfter(inp: Input, o: Output, token: nat, op: nat, anchor: nat, ip: nat, m: nat)
    requires anchor <= ip && m < ip && ip - m <= DISTANCE_MAX && ip + MFLIMIT <= |inp.data|
    requires o.directive != NotLimited && op == token + |LiteralHead(inp.data[anchor..ip])|
    requires o.olimit < op + 2 + (FullCode(inp, ip, m) + 240) / 255 + 1 + LASTLITERALS + Spare(o)
    ensures NoRoom(inp, o, token, anchor, ip, m)
  {
    hide FullCode, EncodeSequence, LiteralHead;
  }

  lemma NoRoomForPlan(inp: Input, o: Output, plan: Plan, seqs: seq<Sequence>, t: seq<int>, anchor: nat, ip: nat,
                      m: nat, acceleration: nat)
    requires inp.Valid() && |t| == inp.slots && acceleration >= 1
    requires inp.ds <= anchor <= ip && m < ip && ip - m <= DISTANCE_MAX && ip + MFLIMIT <= |inp.data|
    requires Sound(inp, inp.ds, plan) && GoesOn(plan, seqs, AtMatch(inp, t, anchor, ip, m, acceleration))
    requires forall s :: s in seqs ==> s.Valid()
    requires NoRoom(inp, o, |Encode(seqs)|, anchor, ip, m)
    ensures Cramped(inp, o, plan)
  {
    hide AtMatch, Chosen, EncodeSequence;
    LongerThanItsStart(inp, plan, seqs, Chosen(inp, anchor, ip, m), AtMatch(inp, t, anchor, ip, m, acceleration));
  }

  /** Encode Literals: room check, token, length, literals. */
  method EmitLiterals(inp: Input, o: Output, dst: array<byte>, op0: nat, anchor: nat, ip: nat,
                      ghost seqs: seq<Sequence>)
    returns (status: Status, op: nat)
    requires Sized(inp, o, dst.Length) && Emitted(inp, o, dst[..], op0, anchor, seqs)
    requires anchor <= ip && ip + MFLIMIT <= |inp.data|
    modifies dst
    ensures Emitted(inp, o, dst[..], op0, anchor, seqs)
    ensures status == Ok ==>
      && op == op0 + |LiteralHead(inp.data[anchor..ip])|
      && Holds(dst[..], op0, LiteralHead(inp.data[anchor..ip]))
      && (o.directive == LimitedOutput ==> op + 2 <= o.olimit)
    ensures status == ToLastLiterals ==> o.directive == FillOutput
    ensures status == Overflow ==> o.directive == LimitedOutput && o.olimit < CompressBound(|inp.data| - inp.ds)
    ensures status != Ok ==>
      o.olimit < op0 + 3 + (ip - anchor + 240) / 255 + (ip - anchor) + 1 + LASTLITERALS + Spare(o)
    ensures SameOutside(old(dst[..]), dst[..], op0, o.olimit)
  {
    hide Encode, Covers, Holds, LiteralHead, LeavesRoom;
    var litLength := ip - anchor;
    op := op0 + 1;
    LiteralsFit(anchor - inp.ds, litLength, |inp.data| - inp.ds, op0);
    if o.directive == LimitedOutput && op + litLength + (2 + 1 + LASTLITERALS) + litLength / 255 > o.olimit {
      return Overflow, op;
    }
    if o.directive == FillOutput
      && op + (litLength + 240) / 255 + litLength + 2 + 1 + MFLIMIT - MINMATCH > o.olimit {
      return ToLastLiterals, op0;
    }
    ghost var b := dst[..];
    op := PutLiterals(dst, op0, inp.data, anchor, litLength);
    EmittedFrame(inp, o, b, dst[..], op0, anchor, seqs, dst.Length);
    status := Ok;
  }

  /** Removes the positions [ip, filledIp] from the table. */
  method ClearPositions(inp: Input, table: array<int>, ip: nat, filledIp: nat)
    requires inp.Valid() && inp.Stale(0) && inp.ds <= ip <= filledIp && filledIp + MFLIMIT <= |inp.data|
    requires inp.TableInv(table[..], filledIp + 1)
    modifies table
    ensures inp.TableInv(table[..], ip)
  {
    var ptr := ip;
    while ptr <= filledIp
      invariant ip <= ptr <= filledIp + 1 && table.Length == inp.slots
      invariant forall h :: 0 <= h < table.Length ==>
        inp.Stale(table[h]) || inp.Fresh(table[h], h, ip)
        || (inp.Fresh(table[h], h, filledIp + 1) && inp.Position(table[h]) >= ptr)
    {
      table[inp.Slot(ptr)] := 0;
      ptr := ptr + 1;
    }
  }

  /** The match found runs at least over the bytes already known to agree. */
  lemma KnownBytesCount(d: seq<byte>, ip: nat, m: nat, known: nat, limit: nat)
    requires m < ip && MINMATCH <= known && ip + known <= limit <= |d| && IsMatch(d, ip, ip - m, known)
    ensures CommonPrefix(d, ip + MINMATCH, d, m + MINMATCH, limit) >= known - MINMATCH
  {
    var w := known - MINMATCH;
    var i, k := ip + MINMATCH, m + MINMATCH;
    assert d[i..i + w] == d[ip..ip + known][MINMATCH..];
    assert d[k..k + w] == d[m..m + known][MINMATCH..];
    SkipEqual(d, i, d, k, limit, w);
  }

  lemma CountedMatch(d: seq<byte>, ip: nat, m: nat, limit: nat)
    requires m < ip && ip + MINMATCH <= limit <= |d| && IsMatch(d, ip, ip - m, MINMATCH)
    ensures IsMatch(d, ip, ip - m, MINMATCH + CommonPrefix(d, ip + MINMATCH, d, m + MINMATCH, limit))
  {
    var i, k := ip + MINMATCH, m + MINMATCH;
    hide CommonPrefix;
    var n := CommonPrefix(d, i, d, k, limit);
    CommonPrefixEqual(d, i, d, k, limit);
    JoinedSlices(d, ip, i, n, m, k);
  }

  lemma JoinedSlices(d: seq<byte>, ip: nat, i: nat, n: nat, m: nat, k: nat)
    requires ip <= i && m <= k && i + n <= |d| && k + n <= |d| && d[ip..i] == d[m..k] && d[i..i + n] == d[k..k + n]
    ensures d[ip..i + n] == d[m..k + n]
  {
    assert d[ip..i + n] == d[ip..i] + d[i..i + n];
    assert d[m..k + n] == d[m..k] + d[k..k + n];
  }

  lemma CountsFrom(d: seq<byte>, ip: nat, m: nat, known: nat, limit: nat)
    requires m < ip && MINMATCH <= known && ip + known <= limit <= |d| && IsMatch(d, ip, ip - m, known)
    ensures var n := CommonPrefix(d, ip + MINMATCH, d, m + MINMATCH, limit);
      known <= n + MINMATCH <= limit - ip && IsMatch(d, ip, ip - m, MINMATCH + n)
  {
    hide IsMatch;
    PrefixOfMatch(d, ip, ip - m, known, MINMATCH);
    KnownBytesCount(d, ip, m, known, limit);
    CountedMatch(d, ip, m, limit);
  }

  /** The full length of a match, known to run at least up to `filledIp` and four bytes on. */
  method CountMatch(inp: Input, ip: nat, m: nat, filledIp: nat) returns (matchCode: nat)
    requires inp.Valid() && inp.ds <= ip && m < ip && ip + MFLIMIT <= |inp.data|
    requires inp.dict == UsingExtDict && m < inp.ds ==> m + MINMATCH <= inp.ds
    requires filledIp + MFLIMIT <= |inp.data| && IsMatch(inp.data, ip, ip - m, Max(filledIp - ip, 0) + MINMATCH)
    ensures ip + MINMATCH + matchCode + LASTLITERALS <= |inp.data|
    ensures IsMatch(inp.data, ip, ip - m, MINMATCH + matchCode)
    ensures filledIp < ip + MINMATCH + matchCode
    ensures matchCode == FullCode(inp, ip, m)
  {
    hide IsMatch, CommonPrefix;
    matchCode := MatchCode(inp, ip, m);
    ghost var known: nat := Max(filledIp - ip, 0) + MINMATCH;
    CountsFrom(inp.data, ip, m, known, |inp.data| - LASTLITERALS);
  }

  /** Where the match ends: its counted length, or what fillOutput leaves room for; keeps the
      table free of positions at or after that end. */
  method MatchEnd(inp: Input, o: Output, table: array<int>, op: nat, ip: nat, m: nat, filledIp: nat)
    returns (status: Status, matchCode: nat)
    requires inp.Valid() && inp.ds <= ip && m < ip && ip + MFLIMIT <= |inp.data|
    requires o.directive == FillOutput ==> inp.Stale(0) && op + 9 <= o.olimit
    requires inp.dict == UsingExtDict && m < inp.ds ==> m + MINMATCH <= inp.ds
    requires filledIp + MFLIMIT <= |inp.data| && IsMatch(inp.data, ip, ip - m, Max(filledIp - ip, 0) + MINMATCH)
    requires inp.TableInv(table[..], Max(filledIp, ip) + 1)
    modifies table
    ensures status != ToLastLiterals
    ensures inp.TableInv(table[..], if status == Ok then ip + MINMATCH + matchCode else |inp.data|)
    ensures status == Ok ==>
      && ip + MINMATCH + matchCode + LASTLITERALS <= |inp.data|
      && IsMatch(inp.data, ip, ip - m, MINMATCH + matchCode)
      && (o.directive != NotLimited ==> op + 1 + LASTLITERALS + (matchCode + 240) / 255 <= o.olimit)
      && (filledIp < ip + MINMATCH + matchCode
          || (o.directive == FillOutput && op + 1 + LASTLITERALS + (matchCode + 240) / 255 == o.olimit))
    ensures status == Overflow ==>
      && o.directive == LimitedOutput && ip + MINMATCH + matchCode + LASTLITERALS <= |inp.data|
      && op + 1 + LASTLITERALS + (matchCode + 240) / 255 > o.olimit
    ensures
      || (matchCode == FullCode(inp, ip, m) && table[..] == old(table[..]))
      || (o.directive == FillOutput && op + 1 + LASTLITERALS + (FullCode(inp, ip, m) + 240) / 255 > o.olimit)
  {
    hide IsMatch, FullCode;
    matchCode := CountMatch(inp, ip, m, filledIp);
    var ipEnd := ip + MINMATCH + matchCode;
    status := Ok;
    if o.directive != NotLimited && op + 1 + LASTLITERALS + (matchCode + 240) / 255 > o.olimit {
      if o.directive == LimitedOutput {
        TableInvGrows(inp, table[..], Max(filledIp, ip) + 1, |inp.data|);
        return Overflow, matchCode;
      }
      var newMatchCode := 15 - 1 + (o.olimit - op - 1 - LASTLITERALS) * 255;
      ShortenedMatchFits(o.olimit - op - 1 - LASTLITERALS, matchCode);
      ipEnd := ipEnd - (matchCode - newMatchCode);
      PrefixOfMatch(inp.data, ip, ip - m, MINMATCH + matchCode, MINMATCH + newMatchCode);
      matchCode := newMatchCode;
      if ipEnd <= filledIp {
        ClearPositions(inp, table, ipEnd, filledIp);
        return;
      }
    }
    TableInvGrows(inp, table[..], Max(filledIp, ip) + 1, ipEnd);
  }

  lemma PrefixOfMatch(data: seq<byte>, p: nat, offset: nat, len: nat, len': nat)
    requires IsMatch(data, p, offset, len) && len' <= len
    ensures IsMatch(data, p, offset, len') && p + len <= |data|
  {
    assert data[p..p + len'] == data[p..p + len][..len'];
    assert data[p - offset..p - offset + len'] == data[p - offset..p - offset + len][..len'];
  }

  lemma ShortenedMatchFits(room: nat, mc: nat)
    requires (mc + 240) / 255 > room
    ensures 14 + 255 * room < mc && (14 + 255 * room + 240) / 255 == room
  {}

  /** A complete sequence is one more covered stretch of the source. */
  lemma SequenceEmitted(inp: Input, o: Output, b: seq<byte>, b': seq<byte>, token: nat, anchor: nat, ip: nat,
                        seqs: seq<Sequence>, s: Sequence)
    requires Emitted(inp, o, b, token, anchor, seqs) && SameOutside(b, b', token, |b|)
    requires s.Valid() && anchor <= ip && ip + MFLIMIT <= |inp.data| && s.lits == inp.data[anchor..ip]
    requires Holds(b', token, EncodeSequence(s)) && IsMatch(inp.data, ip, s.offset, s.matchLen)
    requires ip + s.matchLen + LASTLITERALS <= |inp.data|
    requires var op := token + |EncodeSequence(s)|;
      && (o.directive != NotLimited ==> op + 1 + LASTLITERALS <= o.olimit)
      && (o.directive == FillOutput && s.matchLen < 19 ==> op + 9 <= o.olimit)
    ensures Emitted(inp, o, b', token + |EncodeSequence(s)|, ip + s.matchLen, seqs + [s])
  {
    hide IsMatch, EncodeSequence, Encode, Covers;
    CoversOneMore(inp.data, inp.ds, seqs, anchor, ip, s);
    HoldsJoin(b', 0, Encode(seqs), EncodeSequence(s));
    SequenceCost(anchor - inp.ds, ip - anchor, s.matchLen - MINMATCH);
  }

  /** Completes the sequence whose literals and offset are written. */
  method CompleteSequence(inp: Input, o: Output, dst: array<byte>, token: nat, op0: nat, anchor: nat, ip: nat,
                          offset: nat, matchCode: nat, ghost seqs: seq<Sequence>)
    returns (op: nat, ghost s: Sequence)
    requires Sized(inp, o, dst.Length) && Emitted(inp, o, dst[..], token, anchor, seqs)
    requires anchor <= ip && ip + MFLIMIT <= |inp.data| && 1 <= offset <= DISTANCE_MAX
    requires op0 == token + |LiteralHead(inp.data[anchor..ip])| + 2
    requires Holds(dst[..], token, LiteralHead(inp.data[anchor..ip])) && Holds(dst[..], op0 - 2, Write16(offset))
    requires IsMatch(inp.data, ip, offset, MINMATCH + matchCode)
    requires ip + MINMATCH + matchCode + LASTLITERALS <= |inp.data|
    requires o.directive != NotLimited ==> op0 + 1 + LASTLITERALS + (matchCode + 240) / 255 <= o.olimit
    requires o.directive == FillOutput ==> op0 + 9 <= o.olimit
    modifies dst
    ensures op == op0 + (matchCode + 240) / 255 && s == Sequence(inp.data[anchor..ip], offset, MINMATCH + matchCode)
    ensures Emitted(inp, o, dst[..], op, ip + MINMATCH + matchCode, seqs + [s])
    ensures SameOutside(old(dst[..]), dst[..], token, o.olimit)
  {
    hide Encode, Covers, Holds, LiteralHead, IsMatch, EncodeSequence, LeavesRoom, EncodeLength;
    SequenceCost(anchor - inp.ds, ip - anchor, matchCode);
    s := Sequence(inp.data[anchor..ip], offset, MINMATCH + matchCode);
    ghost var b := dst[..];
    HeadToken(b, token, s.lits);
    op := PutMatchLength(dst, token, op0, matchCode);
    SequenceWritten(b, dst[..], token, op0, s);
    SequenceEmitted(inp, o, b, dst[..], token, anchor, ip, seqs, s);
  }

  /** Encode Offset, behind literals already written at `token`. */
  method EmitOffset(inp: Input, o: Output, dst: array<byte>, token: nat, op: nat, anchor: nat, ip: nat, offset: nat,
                    ghost seqs: seq<Sequence>)
    requires Sized(inp, o, dst.Length) && Emitted(inp, o, dst[..], token, anchor, seqs) && 1 <= offset <= DISTANCE_MAX
    requires anchor <= ip <= |inp.data| && Holds(dst[..], token, LiteralHead(inp.data[anchor..ip]))
    requires op == token + |LiteralHead(inp.data[anchor..ip])| && op + 2 <= dst.Length
    requires o.directive != NotLimited ==> op + 2 <= o.olimit
    modifies dst
    ensures Emitted(inp, o, dst[..], token, anchor, seqs)
    ensures Holds(dst[..], token, LiteralHead(inp.data[anchor..ip])) && Holds(dst[..], op, Write16(offset))
    ensures SameOutside(old(dst[..]), dst[..], token, o.olimit)
  {
    hide Encode, Covers, Holds, LiteralHead, LeavesRoom;
    ghost var b := dst[..];
    PutOffset(dst, op, offset);
    Transfer(b, dst[..], token, op, token, LiteralHead(inp.data[anchor..ip]));
    EmittedFrame(inp, o, b, dst[..], token, anchor, seqs, op + 2);
  }

  /** _next_match: offset and match length, for literals already written at `token`. */
  method EmitMatch(inp: Input, o: Output, table: array<int>, dst: array<byte>, token: nat, op0: nat,
                   anchor: nat, ip: nat, m: nat, filledIp: nat, ghost seqs: seq<Sequence>)
    returns (status: Status, op: nat, ipEnd: nat, ghost seqs': seq<Sequence>)
    requires Sized(inp, o, dst.Length) && Emitted(inp, o, dst[..], token, anchor, seqs)
    requires m < ip && ip - m <= DISTANCE_MAX && inp.ds <= ip && anchor <= ip && ip + MFLIMIT <= |inp.data|
    requires Holds(dst[..], token, LiteralHead(inp.data[anchor..ip]))
    requires op0 == token + |LiteralHead(inp.data[anchor..ip])|
    requires o.directive == LimitedOutput ==> op0 + 2 <= o.olimit
    requires inp.dict == UsingExtDict && m < inp.ds ==> m + MINMATCH <= inp.ds
    requires filledIp + MFLIMIT <= |inp.data| && inp.TableInv(table[..], Max(filledIp, ip) + 1)
    requires NoRoomForMatch(o, op0) || IsMatch(inp.data, ip, ip - m, Max(filledIp - ip, 0) + MINMATCH)
    modifies table, dst
    ensures status == Ok ==>
      && ip + MINMATCH <= ipEnd && ipEnd + LASTLITERALS <= |inp.data|
      && (filledIp < ipEnd || NoRoomForMatch(o, op + 1))
      && Emitted(inp, o, dst[..], op, ipEnd, seqs') && seqs' != [] && inp.TableInv(table[..], ipEnd)
    ensures status != Ok ==> inp.TableInv(table[..], |inp.data|)
    ensures status == ToLastLiterals ==>
      o.directive == FillOutput && op == token && Emitted(inp, o, dst[..], op, anchor, seqs) && seqs' == seqs
    ensures status == Overflow ==> o.directive == LimitedOutput && o.olimit < CompressBound(|inp.data| - inp.ds)
    ensures status != Ok ==> NoRoom(inp, o, token, anchor, ip, m)
    ensures status == Ok ==>
      || (o.directive == FillOutput && NoRoom(inp, o, token, anchor, ip, m))
      || (var s := Chosen(inp, anchor, ip, m);
          seqs' == seqs + [s] && ipEnd == ip + s.matchLen && table[..] == old(table[..]))
    ensures SameOutside(old(dst[..]), dst[..], token, o.olimit)
  {
    hide Encode, Covers, Holds, LiteralHead, IsMatch, LeavesRoom, FullCode, NoRoom, Input.TableInv;
    ipEnd, seqs', op := ip, seqs, op0;
    LiteralsFit(anchor - inp.ds, ip - anchor, |inp.data| - inp.ds, token);
    if o.directive == FillOutput && op + 2 + 1 + MFLIMIT - MINMATCH > o.olimit {
      TableInvGrows(inp, table[..], Max(filledIp, ip) + 1, |inp.data|);
      NoRoomAfter(inp, o, token, op, anchor, ip, m);
      return ToLastLiterals, token, ip, seqs;
    }
    EmitOffset(inp, o, dst, token, op, anchor, ip, ip - m, seqs);
    op := op + 2;
    var matchCode;
    status, matchCode := MatchEnd(inp, o, table, op, ip, m, filledIp);
    if o.directive != NotLimited && op + 1 + LASTLITERALS + (FullCode(inp, ip, m) + 240) / 255 > o.olimit {
      NoRoomAfter(inp, o, token, op0, anchor, ip, m);
    }
    if status == Overflow {
      SequenceCost(anchor - inp.ds, ip - anchor, matchCode);
      return;
    }
    ipEnd := ip + MINMATCH + matchCode;
    ghost var s;
    op, s := CompleteSequence(inp, o, dst, token, op, anchor, ip, ip - m, matchCode, seqs);
    seqs' := seqs + [s];
  }

  /** fillOutput has no room for an offset, a token and the literals a match needs after it. */
  ghost predicate NoRoomForMatch(o: Output, op: nat) {
    o.directive == FillOutput && op + 2 + 1 + MFLIMIT - MINMATCH > o.olimit
  }

  /** Adds the match length to the token and writes its extension. */
  method PutMatchLength(dst: array<byte>, token: nat, op0: nat, matchCode: nat) returns (op: nat)
    requires token < op0 && op0 + (matchCode + 240) / 255 + 3 <= dst.Length && dst[token] % 16 == 0
    modifies dst
    ensures op == op0 + (matchCode + 240) / 255
    ensures dst[token] as int == old(dst[token]) as int + Nibble(matchCode)
    ensures Holds(dst[..], op0, EncodeLength(matchCode))
    ensures SameOn(old(dst[..]), dst[..], token + 1, op0) && SameOutside(old(dst[..]), dst[..], token, op + 3)
  {
    op := op0;
    if matchCode >= ML_MASK {
      dst[token] := dst[token] + ML_MASK as byte;
      op := PutExtensionByFours(dst, op, matchCode - ML_MASK);
    } else {
      dst[token] := dst[token] + matchCode as byte;
    }
  }

  /** Test next position: a match right after the previous one, without literals. */
  method TestNext(inp: Input, table: array<int>, ip: nat) returns (found: bool, m: nat)
    requires inp.Valid() && inp.ds + 2 <= ip && ip + MFLIMIT <= |inp.data|
    requires inp.TableInv(table[..], ip)
    modifies table
    ensures inp.TableInv(table[..], ip + 1)
    ensures found ==>
      && m < ip && ip - m <= DISTANCE_MAX && IsMatch(inp.data, ip, ip - m, MINMATCH)
      && (inp.dict == UsingExtDict && m < inp.ds ==> m + MINMATCH <= inp.ds)
    ensures var t1 := old(table[..])[inp.Slot(ip - 2) := inp.Index(ip - 2)];
      var e := t1[inp.Slot(ip)];
      && table[..] == t1[inp.Slot(ip) := inp.Index(ip)]
      && (found <==> Agrees(inp, e, ip)) && (found ==> m == inp.Position(e))
  {
    PutIndex(inp, table, ip - 2, inp.Slot(ip - 2), ip);
    var low;
    found, m, low := TryEntry(inp, table, ip, inp.Slot(ip));
  }

  /** fillOutput leaves the plan when its block does not fit. */
  ghost predicate Strays(inp: Input, o: Output, plan: Plan)
    requires Sound(inp, inp.ds, plan)
  {
    o.directive == FillOutput && Cramped(inp, o, plan)
  }

  /** What is left of the plan after the matches up to `anchor`. */
  ghost predicate Continues(inp: Input, t: seq<int>, status: Status, anchor: nat, seqs: seq<Sequence>, plan: Plan,
                            acceleration: nat)
    requires inp.Valid() && acceleration >= 1
  {
    match status
    case Ok =>
      && |t| == inp.slots && inp.ds <= anchor && anchor + MFLIMIT <= |inp.data|
      && GoesOn(plan, seqs, AtSearch(inp, t, anchor, anchor + 1, acceleration))
    case ToLastLiterals => plan == Plan(seqs, anchor)
    case Overflow => true
  }

  /** EmitMatch follows the plan, or has no room for it. */
  lemma AfterMatch(inp: Input, o: Output, t: seq<int>, anchor: nat, ip: nat, m: nat, acceleration: nat, plan: Plan,
                   seqs: seq<Sequence>, status: Status, ipEnd: nat, seqs': seq<Sequence>, t': seq<int>)
    requires inp.Valid() && |t| == inp.slots && acceleration >= 1
    requires inp.ds <= anchor <= ip && m < ip && ip - m <= DISTANCE_MAX && ip + MFLIMIT <= |inp.data|
    requires Sound(inp, inp.ds, plan) && !Strays(inp, o, plan) && forall s :: s in seqs ==> s.Valid()
    requires GoesOn(plan, seqs, AtMatch(inp, t, anchor, ip, m, acceleration))
    requires status != Ok ==> NoRoom(inp, o, |Encode(seqs)|, anchor, ip, m)
    requires status == Ok ==>
      || (o.directive == FillOutput && NoRoom(inp, o, |Encode(seqs)|, anchor, ip, m))
      || (var s := Chosen(inp, anchor, ip, m); seqs' == seqs + [s] && ipEnd == ip + s.matchLen && t' == t)
    ensures status != Ok ==> o.directive == LimitedOutput && Cramped(inp, o, plan)
    ensures status == Ok ==>
      && inp.ds + 2 <= ipEnd && |t'| == inp.slots
      && if ipEnd + MFLIMIT > |inp.data| then plan == Plan(seqs', ipEnd)
         else GoesOn(plan, seqs', AtTest(inp, t', ipEnd, acceleration))
  {
    hide Encode, NoRoom, Cramped, GoesOn, AtMatch, AtTest, AtSearch;
    if NoRoom(inp, o, |Encode(seqs)|, anchor, ip, m) {
      NoRoomForPlan(inp, o, plan, seqs, t, anchor, ip, m, acceleration);
    }
    TakesMatch(inp, t, anchor, ip, m, acceleration, plan, seqs);
    CrampedLimits(inp, o, plan);
  }

  lemma CrampedLimits(inp: Input, o: Output, plan: Plan)
    requires Sound(inp, inp.ds, plan)
    ensures Cramped(inp, o, plan) && !Strays(inp, o, plan) ==> o.directive == LimitedOutput
    ensures Strays(inp, o, plan) ==> o.directive == FillOutput
  {}

  /** A match, and the test for the next one at its end. */
  method EmitAndTest(inp: Input, o: Output, table: array<int>, dst: array<byte>, token: nat, op0: nat, anchor0: nat,
                     ip: nat, m0: nat, filledIp: nat, ghost seqs0: seq<Sequence>, ghost plan: Plan,
                     ghost acceleration: nat)
    returns (status: Status, found: bool, op: nat, anchor: nat, m: nat, ghost seqs: seq<Sequence>)
    requires Sized(inp, o, dst.Length) && Emitted(inp, o, dst[..], token, anchor0, seqs0)
    requires m0 < ip && ip - m0 <= DISTANCE_MAX && inp.ds <= ip && anchor0 <= ip && ip + MFLIMIT <= |inp.data|
    requires Holds(dst[..], token, LiteralHead(inp.data[anchor0..ip]))
    requires op0 == token + |LiteralHead(inp.data[anchor0..ip])|
    requires o.directive == LimitedOutput ==> op0 + 2 <= o.olimit
    requires inp.dict == UsingExtDict && m0 < inp.ds ==> m0 + MINMATCH <= inp.ds
    requires filledIp + MFLIMIT <= |inp.data| && inp.TableInv(table[..], Max(filledIp, ip) + 1)
    requires NoRoomForMatch(o, op0) || IsMatch(inp.data, ip, ip - m0, Max(filledIp - ip, 0) + MINMATCH)
    requires acceleration >= 1 && Sound(inp, inp.ds, plan)
    requires Strays(inp, o, plan) || GoesOn(plan, seqs0, AtMatch(inp, table[..], anchor0, ip, m0, acceleration))
    modifies table, dst
    ensures found ==> status == Ok
    ensures status == Ok ==>
      && ip + MINMATCH <= anchor && anchor + MFLIMIT <= |inp.data| && inp.TableInv(table[..], anchor + 1)
      && (filledIp < anchor || NoRoomForMatch(o, op + 1)) && seqs != []
    ensures found ==>
      && m < anchor && anchor - m <= DISTANCE_MAX && IsMatch(inp.data, anchor, anchor - m, MINMATCH)
      && (inp.dict == UsingExtDict && m < inp.ds ==> m + MINMATCH <= inp.ds)
    ensures status != Ok ==> inp.TableInv(table[..], |inp.data|)
    ensures status != Overflow ==> Emitted(inp, o, dst[..], op, anchor, seqs)
    ensures status == Overflow ==>
      o.directive == LimitedOutput && o.olimit < CompressBound(|inp.data| - inp.ds) && Cramped(inp, o, plan)
    ensures Strays(inp, o, plan) ||
      if found then GoesOn(plan, seqs, AtMatch(inp, table[..], anchor, anchor, m, acceleration))
      else Continues(inp, table[..], status, anchor, seqs, plan, acceleration)
    ensures SameOutside(old(dst[..]), dst[..], token, o.olimit)
  {
    hide Encode, Covers, Holds, LiteralHead, IsMatch, LeavesRoom, NoRoom, Cramped, GoesOn, AtMatch, AtTest, AtSearch,
      Chosen, Agrees, NoRoomForMatch;
    ghost var t := table[..];
    found, m, anchor := false, 0, anchor0;
    var ipEnd;
    status, op, ipEnd, seqs := EmitMatch(inp, o, table, dst, token, op0, anchor0, ip, m0, filledIp, seqs0);
    if !Strays(inp, o, plan) {
      AfterMatch(inp, o, t, anchor0, ip, m0, acceleration, plan, seqs0, status, ipEnd, seqs, table[..]);
    }
    CrampedLimits(inp, o, plan);
    if status != Ok {
      return;
    }
    anchor := ipEnd;
    if anchor >= |inp.data| - MFLIMIT + 1 {
      TableInvGrows(inp, table[..], anchor, |inp.data|);
      status := ToLastLiterals;
      return;
    }
    TestStep(inp, table[..], anchor, acceleration);
    found, m := TestNext(inp, table, anchor);
  }

  /** Matches one after the other, as long as the next position starts one. */
  method EmitMatches(inp: Input, o: Output, table: array<int>, dst: array<byte>, token0: nat, op0: nat,
                     anchor0: nat, ip0: nat, m0: nat, filledIp: nat, ghost seqs0: seq<Sequence>,
                     ghost plan: Plan, ghost acceleration: nat)
    returns (status: Status, op: nat, anchor: nat, ghost seqs: seq<Sequence>)
    requires Sized(inp, o, dst.Length) && Emitted(inp, o, dst[..], token0, anchor0, seqs0)
    requires m0 < ip0 <= filledIp && ip0 - m0 <= DISTANCE_MAX && inp.ds <= ip0 && anchor0 <= ip0
    requires ip0 + MFLIMIT <= |inp.data|
    requires Holds(dst[..], token0, LiteralHead(inp.data[anchor0..ip0]))
    requires op0 == token0 + |LiteralHead(inp.data[anchor0..ip0])|
    requires o.directive == LimitedOutput ==> op0 + 2 <= o.olimit
    requires inp.dict == UsingExtDict && m0 < inp.ds ==> m0 + MINMATCH <= inp.ds
    requires filledIp + MFLIMIT <= |inp.data| && IsMatch(inp.data, ip0, ip0 - m0, filledIp - ip0 + MINMATCH)
    requires inp.TableInv(table[..], filledIp + 1) && acceleration >= 1 && Sound(inp, inp.ds, plan)
    requires Strays(inp, o, plan) || GoesOn(plan, seqs0, AtMatch(inp, table[..], anchor0, ip0, m0, acceleration))
    modifies table, dst
    ensures status == Ok ==> ip0 < anchor && anchor + MFLIMIT <= |inp.data| && inp.TableInv(table[..], anchor + 1)
    ensures status != Ok ==> inp.TableInv(table[..], |inp.data|)
    ensures status != Overflow ==> Emitted(inp, o, dst[..], op, anchor, seqs)
    ensures status == Overflow ==>
      o.directive == LimitedOutput && o.olimit < CompressBound(|inp.data| - inp.ds) && Cramped(inp, o, plan)
    ensures Strays(inp, o, plan) || Continues(inp, table[..], status, anchor, seqs, plan, acceleration)
    ensures SameOutside(old(dst[..]), dst[..], 0, o.olimit)
  {
    hide Encode, Covers, Holds, LiteralHead, IsMatch, LeavesRoom, Cramped, GoesOn, AtMatch, Continues, Strays, Sound;
    var token: nat, ip: nat, m: nat := token0, ip0, m0;
    op, anchor, seqs := op0, anchor0, seqs0;
    while true
      invariant ip0 <= ip && Emitted(inp, o, dst[..], token, anchor, seqs)
      invariant m < ip && ip - m <= DISTANCE_MAX && inp.ds <= ip && anchor <= ip && ip + MFLIMIT <= |inp.data|
      invariant Holds(dst[..], token, LiteralHead(inp.data[anchor..ip]))
      invariant op == token + |LiteralHead(inp.data[anchor..ip])|
      invariant o.directive == LimitedOutput ==> op + 2 <= o.olimit
      invariant inp.dict == UsingExtDict && m < inp.ds ==> m + MINMATCH <= inp.ds
      invariant NoRoomForMatch(o, op) || IsMatch(inp.data, ip, ip - m, Max(filledIp - ip, 0) + MINMATCH)
      invariant inp.TableInv(table[..], Max(filledIp, ip) + 1)
      invariant Strays(inp, o, plan) || GoesOn(plan, seqs, AtMatch(inp, table[..], anchor, ip, m, acceleration))
      invariant SameOutside(old(dst[..]), dst[..], 0, o.olimit)
      decreases |inp.data| - ip
    {
      var found;
      status, found, op, anchor, m, seqs :=
        EmitAndTest(inp, o, table, dst, token, op, anchor, ip, m, filledIp, seqs, plan, acceleration);
      if !found {
        return;
      }
      ip, token, op := anchor, op, op + 1;
      ghost var b := dst[..];
      EmittedLeavesAByte(inp, o, b, token, anchor, seqs);
      TableInvGrows(inp, table[..], ip + 1, Max(filledIp, ip) + 1);
      dst[token] := 0;
      EmittedFrame(inp, o, b, dst[..], token, anchor, seqs, token + 1);
      EmptyHead(dst[..], token, inp.data, ip);
    }
  }

  lemma EmittedLeavesAByte(inp: Input, o: Output, b: seq<byte>, op: nat, anchor: nat, seqs: seq<Sequence>)
    requires Sized(inp, o, |b|) && Emitted(inp, o, b, op, anchor, seqs) && anchor + LASTLITERALS <= |inp.data|
    requires seqs != []
    ensures op + 3 <= |b| && (o.directive != NotLimited ==> op + 3 <= o.olimit)
  {
    hide Encode, Covers, Holds;
  }

  lemma EmptyHead(b: seq<byte>, token: nat, data: seq<byte>, ip: nat)
    requires token < |b| && b[token] == 0 && ip <= |data|
    ensures Holds(b, token, LiteralHead(data[ip..ip])) && |LiteralHead(data[ip..ip])| == 1
  {
    assert LiteralHead(data[ip..ip]) == [0];
  }

  /** How many last literals there are: all, or in fillOutput mode what fits; `fits` is false when a limited output is
      too small. */
  method LastRun(inp: Input, o: Output, size: nat, op: nat, anchor: nat, ghost b: seq<byte>, ghost seqs: seq<Sequence>)
    returns (fits: bool, run: nat)
    requires Sized(inp, o, size) && Emitted(inp, o, b, op, anchor, seqs)
    requires o.directive == FillOutput ==> o.olimit >= 1
    ensures var all := op + RunSize(|inp.data| - anchor) <= o.olimit;
      && (!fits ==> o.directive == LimitedOutput && !all)
      && (all || o.directive != FillOutput ==> anchor + run == |inp.data|)
    ensures anchor + run <= |inp.data|
    ensures fits ==>
      && op + RunSize(run) <= o.olimit && op + RunSize(run) <= CompressBound(|inp.data| - inp.ds)
      && LeavesRoom(seqs, anchor, anchor + run)
      && (anchor + run < |inp.data| ==> UsedUp(o.olimit, op + RunSize(run), anchor + run - inp.ds))
  {
    hide Encode, Covers, Holds, UsedUp;
    run := |inp.data| - anchor;
    RoomForToken(inp, o, b, op, anchor, seqs);
    LastRunFits(anchor - inp.ds, run, op);
    if o.directive != NotLimited && op + run + 1 + (run + 255 - RUN_MASK) / 255 > o.olimit {
      if o.directive == LimitedOutput {
        return false, run;
      }
      CutRunFits(o.olimit - op - 1, run);
      CutUsesUp(o.olimit, op, anchor - inp.ds);
      run := o.olimit - op - 1;
      run := run - (run + 256 - RUN_MASK) / 256;
    }
    assert LeavesRoom(seqs, anchor, anchor + run) by {
      assert seqs != [] ==> seqs[|seqs| - 1].Valid();
    }
    fits := true;
  }

  /** _last_literals: the rest of the source, or in fillOutput mode as much of it as fits. */
  method EmitLastLiterals(inp: Input, o: Output, dst: array<byte>, op0: nat, anchor: nat, ghost seqs: seq<Sequence>)
    returns (result: nat, end: nat)
    requires Sized(inp, o, dst.Length) && Emitted(inp, o, dst[..], op0, anchor, seqs)
    requires o.directive == FillOutput ==> o.olimit >= 1
    modifies dst
    ensures anchor <= end <= |inp.data| && (o.directive != FillOutput && result > 0 ==> end == |inp.data|)
    ensures var fits := op0 + RunSize(|inp.data| - anchor) <= o.olimit;
      (o.directive == LimitedOutput ==> (result > 0 <==> fits)) && (result == 0 ==> o.directive == LimitedOutput)
      && (fits ==> end == |inp.data|)
    ensures result > 0 ==>
      && result <= o.olimit && result <= CompressBound(|inp.data| - inp.ds)
      && result == op0 + RunSize(end - anchor)
      && dst[..result] == Encode(seqs) + EncodeLast(inp.data[anchor..end]) && LeavesRoom(seqs, anchor, end)
      && (end < |inp.data| ==> UsedUp(o.olimit, result, end - inp.ds))
    ensures SameOutside(old(dst[..]), dst[..], 0, o.olimit)
  {
    hide Encode, Covers, Holds, Decode, UsedUp, EncodeLast, LeavesRoom;
    ghost var b := dst[..];
    var fits, lastRun := LastRun(inp, o, dst.Length, op0, anchor, b, seqs);
    end := anchor + lastRun;
    if !fits {
      return 0, end;
    }
    result := PutLastLiterals(dst, op0, inp.data, anchor, lastRun);
    Transfer(b, dst[..], 0, op0, 0, Encode(seqs));
    WholeBlock(dst[..], op0, result, Encode(seqs), EncodeLast(inp.data[anchor..end]));
  }

  /** A block for no data is the single byte 0. */
  lemma NothingConsumed(data: seq<byte>, from: nat, seqs: seq<Sequence>, to: nat)
    requires Covers(data, from, seqs, to) && forall s :: s in seqs ==> s.Valid()
    ensures from == to ==> Encode(seqs) + EncodeLast(data[to..to]) == [0]
  {
    if seqs != [] {
      var n := |seqs| - 1;
      CoversAll(data, from, seqs[..n], to - |seqs[n].lits| - seqs[n].matchLen);
    } else {
      assert EncodeLast([]) == [0];
    }
  }

  lemma RoomForToken(inp: Input, o: Output, b: seq<byte>, op: nat, anchor: nat, seqs: seq<Sequence>)
    requires Emitted(inp, o, b, op, anchor, seqs) && (o.directive == FillOutput ==> o.olimit >= 1)
    ensures o.directive == FillOutput ==> op + 1 <= o.olimit
  {
    hide Covers, Holds;
  }

  lemma WholeBlock(b: seq<byte>, op: nat, result: nat, e: seq<byte>, l: seq<byte>)
    requires |e| == op && Holds(b, 0, e) && Holds(b, op, l) && result == op + |l|
    ensures b[..result] == e + l
  {
    HoldsJoin(b, 0, e, l);
  }

  lemma LastRunFits(a: nat, run: nat, op: nat)
    requires op <= a + a / 255
    ensures op + 1 + (run + 240) / 255 + run <= CompressBound(a + run)
  {}

  /** The cut of fillOutput: the run, its token and its length bytes fit, and enough literals remain. */
  lemma CutRunFits(room: nat, run: nat)
    requires run + (run + 240) / 255 > room
    ensures var cut := room - (room + 256 - RUN_MASK) / 256;
      0 <= cut <= run && cut + (cut + 240) / 255 <= room
      && (room >= 5 ==> cut >= 5) && (room >= 8 ==> cut >= 8)
  {}

  lemma CutUsesUp(limit: nat, op: nat, a: nat)
    requires op < limit && op <= a + a / 255
    ensures var room := limit - op - 1;
      var cut := room - (room + 256 - RUN_MASK) / 256;
      cut >= 0 && UsedUp(limit, op + 1 + (cut + 240) / 255 + cut, a + cut)
  {
    var room := limit - op - 1;
    var cut := room - (room + 256 - RUN_MASK) / 256;
    assert cut + 1 + (cut + 241) / 255 > room;
    assert a / 255 + (cut + 241) / 255 <= (a + cut + 241) / 255;
  }

  /** A search, and the match it finds extended backwards; `filledIp` is where the search stopped. */
  method SearchMatch(inp: Input, table: array<int>, anchor: nat, ip0: nat, acceleration: nat)
    returns (found: bool, ip: nat, m: nat, filledIp: nat)
    requires inp.Valid() && inp.TableInv(table[..], ip0) && acceleration >= 1
    requires inp.ds <= anchor < ip0 <= |inp.data| - MFLIMIT + 1
    modifies table
    ensures !found ==>
      && inp.TableInv(table[..], |inp.data|)
      && AtSearch(inp, old(table[..]), anchor, ip0, acceleration) == Plan([], anchor)
    ensures found ==>
      && m < ip <= filledIp && ip - m <= DISTANCE_MAX && anchor <= ip && filledIp + MFLIMIT <= |inp.data|
      && IsMatch(inp.data, ip, ip - m, filledIp - ip + MINMATCH) && inp.TableInv(table[..], filledIp + 1)
      && (inp.dict == UsingExtDict && m < inp.ds ==> m + MINMATCH <= inp.ds)
      && AtSearch(inp, old(table[..]), anchor, ip0, acceleration)
         == AtMatch(inp, table[..], anchor, ip, m, acceleration)
  {
    hide IsMatch, AtMatch, AtSearch, Search, Behind, IsCommonSuffix, Sound, Input.Candidate, Input.TableInv, Input.Slot;
    ghost var t := table[..];
    TableSize(inp, t, ip0);
    var m0, low;
    found, filledIp, m0, low := FindMatch(inp, table, ip0, acceleration);
    ip, m := filledIp, m0;
    if found {
      CandidateMatches(inp, filledIp, m0, low);
      ip, m := CatchUp(inp, filledIp, m0, low, anchor);
      MatchOfSearch(inp, t, anchor, ip0, acceleration, Hit(filledIp, m0, low, table[..]), ip, m);
    } else {
      NothingFound(inp, t, anchor, ip0, acceleration);
    }
  }

  /** One search, and the matches it leads to. */
  method SearchAndEmit(inp: Input, o: Output, table: array<int>, dst: array<byte>, op0: nat, anchor0: nat, ip: nat,
                       acceleration: nat, ghost seqs0: seq<Sequence>, ghost plan: Plan)
    returns (status: Status, op: nat, anchor: nat, ghost seqs: seq<Sequence>)
    requires Sized(inp, o, dst.Length) && Emitted(inp, o, dst[..], op0, anchor0, seqs0) && acceleration >= 1
    requires inp.ds < ip && anchor0 < ip <= |inp.data| - MFLIMIT + 1 && inp.TableInv(table[..], ip)
    requires Sound(inp, inp.ds, plan)
    requires Strays(inp, o, plan) || GoesOn(plan, seqs0, AtSearch(inp, table[..], anchor0, ip, acceleration))
    modifies table, dst
    ensures status == Ok ==> anchor0 < anchor && anchor + MFLIMIT <= |inp.data| && inp.TableInv(table[..], anchor + 1)
    ensures status != Ok ==> inp.TableInv(table[..], |inp.data|)
    ensures status != Overflow ==> Emitted(inp, o, dst[..], op, anchor, seqs)
    ensures status == Overflow ==>
      o.directive == LimitedOutput && o.olimit < CompressBound(|inp.data| - inp.ds) && Cramped(inp, o, plan)
    ensures Strays(inp, o, plan) || Continues(inp, table[..], status, anchor, seqs, plan, acceleration)
    ensures SameOutside(old(dst[..]), dst[..], 0, o.olimit)
  {
    hide Encode, Covers, Holds, LiteralHead, IsMatch, LeavesRoom, Cramped, GoesOn, AtMatch, AtSearch, NoRoom, Sound,
      Strays;
    op, anchor, seqs := op0, anchor0, seqs0;
    var found, ipStart, m, filledIp := SearchMatch(inp, table, anchor, ip, acceleration);
    NothingMore(plan, seqs, anchor);
    if !found {
      return ToLastLiterals, op, anchor, seqs;
    }
    var opLits;
    status, opLits := EmitLiterals(inp, o, dst, op, anchor, ipStart, seqs);
    if status != Ok {
      TableInvGrows(inp, table[..], filledIp + 1, |inp.data|);
      NoRoomForLiterals(inp, o, op, anchor, ipStart, m);
      CrampedLimits(inp, o, plan);
      if !Strays(inp, o, plan) {
        NoRoomForPlan(inp, o, plan, seqs, table[..], anchor, ipStart, m, acceleration);
      }
      return;
    }
    status, op, anchor, seqs :=
      EmitMatches(inp, o, table, dst, op, opLits, anchor, ipStart, m, filledIp, seqs, plan, acceleration);
  }

  lemma NothingMore(plan: Plan, seqs: seq<Sequence>, anchor: nat)
    ensures GoesOn(plan, seqs, Plan([], anchor)) <==> plan == Plan(seqs, anchor)
  {
    assert seqs + [] == seqs;
  }

  lemma NoRoomForLiterals(inp: Input, o: Output, token: nat, anchor: nat, ip: nat, m: nat)
    requires anchor <= ip && m < ip && ip - m <= DISTANCE_MAX && ip + MFLIMIT <= |inp.data|
    requires o.directive != NotLimited
    requires o.olimit < token + 3 + (ip - anchor + 240) / 255 + (ip - anchor) + 1 + LASTLITERALS + Spare(o)
    ensures NoRoom(inp, o, token, anchor, ip, m)
  {
    hide FullCode;
  }

  /** The main loop: from one search to the next. */
  method EmitSequences(inp: Input, o: Output, table: array<int>, dst: array<byte>, acceleration: nat, ghost plan: Plan)
    returns (status: Status, op: nat, anchor: nat, ghost seqs: seq<Sequence>)
    requires Sized(inp, o, dst.Length) && inp.TableReady(table[..]) && acceleration >= 1
    requires |inp.data| - inp.ds >= MIN_LENGTH && plan == Parse(inp, table[..], acceleration)
    modifies table, dst
    ensures inp.TableInv(table[..], |inp.data|)
    ensures status != Overflow ==> Emitted(inp, o, dst[..], op, anchor, seqs)
    ensures status == Overflow ==>
      o.directive == LimitedOutput && o.olimit < CompressBound(|inp.data| - inp.ds) && Cramped(inp, o, plan)
    ensures status != Overflow ==> Strays(inp, o, plan) || plan == Plan(seqs, anchor)
    ensures SameOutside(old(dst[..]), dst[..], 0, o.olimit)
  {
    hide Encode, Covers, Holds, Cramped, AtSearch, Sound, LeavesRoom;
    op, anchor, seqs := 0, inp.ds, [];
    NothingEmitted(inp, o, dst[..]);
    PutIndex(inp, table, inp.ds, inp.Slot(inp.ds), inp.ds + 1);
    var ip := inp.ds + 1;
    while true
      invariant inp.ds < ip && anchor < ip <= |inp.data| - MFLIMIT + 1
      invariant inp.TableInv(table[..], ip) && Emitted(inp, o, dst[..], op, anchor, seqs)
      invariant Strays(inp, o, plan) || GoesOn(plan, seqs, AtSearch(inp, table[..], anchor, ip, acceleration))
      invariant SameOutside(old(dst[..]), dst[..], 0, o.olimit)
      decreases |inp.data| - anchor
    {
      status, op, anchor, seqs := SearchAndEmit(inp, o, table, dst, op, anchor, ip, acceleration, seqs, plan);
      if status != Ok {
        return;
      }
      ip := anchor + 1;
    }
  }

  /** The end of the block, and what the whole block then is. */
  method Finish(inp: Input, o: Output, dst: array<byte>, op: nat, anchor: nat, ghost seqs: seq<Sequence>,
                ghost plan: Plan)
    returns (result: nat, consumed: nat)
    requires Sized(inp, o, dst.Length) && Emitted(inp, o, dst[..], op, anchor, seqs)
    requires o.directive == FillOutput ==> o.olimit >= 1
    requires Sound(inp, inp.ds, plan) && (Strays(inp, o, plan) || plan == Plan(seqs, anchor))
    modifies dst
    ensures result > 0 ==>
      && consumed <= |inp.data| - inp.ds && (o.directive != FillOutput ==> consumed == |inp.data| - inp.ds)
      && result <= o.olimit
      && result <= CompressBound(|inp.data| - inp.ds)
      && Decode(dst[..result], 0, inp.data[..inp.ds]) == Decoded(inp.data[..inp.ds + consumed], true)
      && (consumed == 0 ==> dst[..result] == [0])
      && (consumed < |inp.data| - inp.ds ==> UsedUp(o.olimit, result, consumed))
    ensures result == 0 ==> o.directive == LimitedOutput && o.olimit < CompressBound(|inp.data| - inp.ds)
    ensures Outcome(inp, o, Written(inp, plan), dst[..], result, consumed)
    ensures SameOutside(old(dst[..]), dst[..], 0, o.olimit)
  {
    hide Encode, Covers, Holds, Decode, UsedUp, Cramped, Sound, LeavesRoom, EncodeLast, Outcome, Written, Strays;
    var end;
    LastRunFits(anchor - inp.ds, |inp.data| - anchor, op);
    result, end := EmitLastLiterals(inp, o, dst, op, anchor, seqs);
    consumed := end - inp.ds;
    if result > 0 {
      WrittenBlockDecodes(inp.data, inp.ds, seqs, anchor, end);
      NothingConsumed(inp.data, inp.ds, seqs, anchor);
    }
    if Strays(inp, o, plan) {
      NotAsPlanned(inp, o, plan, dst[..], result, consumed);
    } else {
      AsPlanned(inp, o, plan, dst[..], result, end);
    }
  }

  /** LZ4_compress_generic_validated: result 0 is failure. */
  method CompressValidated(inp: Input, o: Output, table: array<int>, dst: array<byte>, acceleration: nat)
    returns (result: nat, consumed: nat)
    requires Sized(inp, o, dst.Length) && inp.TableReady(table[..]) && acceleration >= 1
    modifies table, dst
    ensures inp.TableInv(table[..], |inp.data|)
    ensures result > 0 ==>
      && consumed <= |inp.data| - inp.ds && (o.directive != FillOutput ==> consumed == |inp.data| - inp.ds)
      && result <= o.olimit
      && result <= CompressBound(|inp.data| - inp.ds)
      && Decode(dst[..result], 0, inp.data[..inp.ds]) == Decoded(inp.data[..inp.ds + consumed], true)
      && (consumed == 0 ==> dst[..result] == [0])
      && (consumed < |inp.data| - inp.ds ==> UsedUp(o.olimit, result, consumed))
    ensures result == 0 ==>
      || (o.directive == LimitedOutput && o.olimit < CompressBound(|inp.data| - inp.ds))
      || (o.directive == FillOutput && o.olimit < 1)
    ensures Outcome(inp, o, Written(inp, Parse(inp, old(table[..]), acceleration)), dst[..], result, consumed)
    ensures SameOutside(old(dst[..]), dst[..], 0, o.olimit)
  {
    hide Emitted, Decode, UsedUp, Cramped, Sound, Parse, Outcome, Written, Strays;
    ghost var plan := Parse(inp, table[..], acceleration);
    if o.directive == FillOutput && o.olimit < 1 {
      NotAsPlanned(inp, o, plan, dst[..], 0, 0);
      return 0, 0;
    }
    var op: nat, anchor: nat := 0, inp.ds;
    ghost var seqs: seq<Sequence> := [];
    NothingEmitted(inp, o, dst[..]);
    if |inp.data| - inp.ds < MIN_LENGTH {
      ShortPlan(inp, table[..], acceleration);
    } else {
      var status;
      status, op, anchor, seqs := EmitSequences(inp, o, table, dst, acceleration, plan);
      if status == Overflow {
        NotAsPlanned(inp, o, plan, dst[..], 0, 0);
        return 0, 0;
      }
    }
    result, consumed := Finish(inp, o, dst, op, anchor, seqs, plan);
  }

  lemma NotAsPlanned(inp: Input, o: Output, plan: Plan, b: seq<byte>, result: nat, consumed: nat)
    requires Sound(inp, inp.ds, plan)
    requires Strays(inp, o, plan) || (o.directive == FillOutput && o.olimit < 1)
          || (o.directive == LimitedOutput && Cramped(inp, o, plan) && result == 0)
    ensures Outcome(inp, o, Written(inp, plan), b, result, consumed)
  {
    hide Written;
  }

  lemma AsPlanned(inp: Input, o: Output, plan: Plan, b: seq<byte>, result: nat, end: nat)
    requires Sound(inp, inp.ds, plan) && plan.anchor <= end <= |inp.data| && result <= |b|
    requires var fits := |Encode(plan.seqs)| + RunSize(|inp.data| - plan.anchor) <= o.olimit;
      && (o.directive == LimitedOutput ==> (result > 0 <==> fits)) && (result == 0 ==> o.directive == LimitedOutput)
      && (fits || (o.directive != FillOutput && result > 0) ==> end == |inp.data|)
    requires result > 0 ==> b[..result] == Encode(plan.seqs) + EncodeLast(inp.data[plan.anchor..end])
    ensures Outcome(inp, o, Written(inp, plan), b, result, end - inp.ds)
  {
    hide Encode, EncodeLast;
    assert inp.data[plan.anchor..] == inp.data[plan.anchor..|inp.data|];
  }

  lemma ShortPlan(inp: Input, t: seq<int>, acceleration: nat)
    requires inp.Valid() && |t| == inp.slots && acceleration >= 1 && |inp.data| - inp.ds < MIN_LENGTH
    ensures Parse(inp, t, acceleration) == Plan([], inp.ds)
  {}

  /** The block is written as planned if it fits, with what fillOutput keeps free; a limited output fails if not. */
  ghost predicate Outcome(inp: Input, o: Output, block: seq<byte>, b: seq<byte>, result: nat, consumed: nat) {
    && (o.directive == LimitedOutput ==> (result > 0 <==> |block| <= o.olimit))
    && (o.directive != FillOutput && result > 0 ==> result == |block| <= |b| && b[..result] == block)
    && (o.directive == FillOutput && |block| + 3 <= o.olimit ==>
          result == |block| <= |b| && b[..result] == block && consumed == |inp.data| - inp.ds)
  }

  lemma NothingEmitted(inp: Input, o: Output, b: seq<byte>)
    requires Sized(inp, o, |b|)
    ensures Emitted(inp, o, b, 0, inp.ds, [])
  {}
}
