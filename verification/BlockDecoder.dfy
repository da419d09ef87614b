/**
 LZ4_decompress_generic for full blocks: the fast loop, the shortcuts, the safe loop
 and the copies that overrun, over one output buffer that also holds the prefix.

 The jumps of the source are program points (`Pc`); `Rest` gives the meaning of what
 is still to be decoded at each of them, so that every step is one link of a chain
 from the meaning of the whole block to the final result.
 */
module BlockDecoder {
  import opened Bytes
  import opened BlockFormat
  import opened MemCopy

  datatype Mode = NoDict | WithPrefix64k | UsingExtDict

  /** The fixed parameters of one call. The prefix is [lo, dst) of the buffer. */
  datatype Job = Job(src: seq<byte>, dst: nat, oend: nat, mode: Mode, lo: nat, dict: seq<byte>)
  {
    ghost predicate Valid(size: nat) {
      && lo <= dst <= oend <= size
      && (mode != UsingExtDict ==> dict == [])
      && (mode == WithPrefix64k ==> dst - lo >= KB64 - 1)
    }

    /** The lowPrefix pointer of the source: 64 KB back in WithPrefix64k mode, whatever is there. */
    function LowPrefix(): int {
      if mode == WithPrefix64k then dst - KB64 else lo
    }

    /** History and output up to `op`, as one sequence. */
    ghost function View(b: seq<byte>, op: nat): seq<byte>
      requires lo <= op <= |b|
    {
      dict + b[lo..op]
    }

    /** The longest View the capacity allows. */
    ghost function Limit(): int {
      |dict| + oend - lo
    }
  }

  // --- Which blocks are taken ---

  /** Few literals, read at `p`, well before both ends: the fast loop and the shortcut copy 16 bytes unasked. */
  predicate Short(j: Job, p: nat, op: int, ll: nat) {
    ll < RUN_MASK && p <= |j.src| - 17 && op <= j.oend - 32
  }

  /** The decoder takes the rest of the block, from the token at `i` with output at `op`. Only lengths and offsets
      matter: literals and matches must keep off the ends of input and output, by distances that are relaxed
      for a short sequence. */
  predicate Takes(j: Job, i: nat, op: int)
    decreases |j.src| - i, 0
  {
    i < |j.src| &&
      match ReadLength(j.src, i + 1, j.src[i] as int / 16)
      case NoLength => false
      case Length(ll, p) =>
        if p + ll >= |j.src| then p + ll == |j.src| && op + ll <= j.oend
        else
          && (Short(j, p, op, ll) || (op + ll <= j.oend - MFLIMIT && p + ll <= |j.src| - (2 + 1 + LASTLITERALS)))
          && TakesMatch(j, p + ll + 2, op + ll, j.src[i] as int % 16, Read16(j.src, p + ll), Short(j, p, op, ll))
  }

  /** The same from the match length on; `short` says how the literals before it were taken. */
  predicate TakesMatch(j: Job, p: nat, op: int, nibble: nat, offset: nat, short: bool)
    decreases |j.src| - p, 1
  {
    match ReadLength(j.src, p, nibble)
    case NoLength => false
    case Length(mc, q) =>
      && (nibble == ML_MASK ==> q <= |j.src| - LASTLITERALS + 1)
      && offset <= |j.dict| + op - j.lo
      && (op + mc + MINMATCH <= j.oend - LASTLITERALS || (short && nibble != ML_MASK && 8 <= offset <= op - j.lo))
      && Takes(j, q, op + mc + MINMATCH)
  }

  /** With no room at all only the single byte 0 is taken. */
  predicate Accepts(j: Job) {
    if j.oend == j.dst then j.src == [0] else Takes(j, 0, j.dst)
  }

  datatype Pc =
    | AtToken(ip: nat, op: nat)
    | AtLiterals(ip: nat, op: nat, nibble: nat, length: nat)
    | AtMatchLength(ip: nat, op: nat, nibble: nat, offset: nat)
    | AtCopy(ip: nat, op: nat, offset: nat, length: nat)
    | Finished(op: nat)
    | Failed(ip: nat)

  ghost predicate InRange(j: Job, size: nat, pc: Pc) {
    j.Valid(size) &&
    match pc
    case AtToken(ip, op) => ip < |j.src| && j.dst <= op <= j.oend
    case AtLiterals(ip, op, nibble, length) => ip <= |j.src| && j.dst <= op <= j.oend && nibble < 16
    case AtMatchLength(ip, op, nibble, offset) =>
      ip < |j.src| && j.dst <= op <= j.oend - MFLIMIT && nibble < 16 && offset < KB64
    case AtCopy(ip, op, offset, length) =>
      ip < |j.src| && j.dst <= op <= j.oend - MFLIMIT && length >= MINMATCH && offset < KB64
    case Finished(op) => j.dst <= op <= j.oend
    case Failed(ip) => true
  }

  /** What is still to be decoded, when execution stands at `pc`. */
  ghost function Rest(j: Job, b: seq<byte>, pc: Pc): Decoded
    requires InRange(j, |b|, pc) && !pc.Failed?
  {
    match pc
    case AtToken(ip, op) => Decode(j.src, ip, j.View(b, op))
    case AtLiterals(ip, op, nibble, length) => DecodeLiterals(j.src, ip, length, nibble, j.View(b, op))
    case AtMatchLength(ip, op, nibble, offset) => DecodeMatch(j.src, ip, offset, nibble, j.View(b, op))
    case AtCopy(ip, op, offset, length) => DecodeCopy(j.src, ip, offset, length, j.View(b, op))
    case Finished(op) => Decoded(j.View(b, op), true)
  }

  /** `g` is the meaning of the whole block. */
  ghost predicate Follows(j: Job, b: seq<byte>, pc: Pc, g: Decoded) {
    InRange(j, |b|, pc)
    && (!pc.Failed? ==> var r := Rest(j, b, pc); (g.Corrupt? <==> r.Corrupt?) && (g.Decoded? ==> g.out == r.out))
  }

  /** Whether what is still to be decoded is taken. */
  ghost predicate TakesAt(j: Job, pc: Pc) {
    match pc
    case AtToken(ip, op) => Takes(j, ip, op)
    case AtLiterals(ip, op, nibble, length) =>
      if ip + length >= |j.src| then ip + length == |j.src| && op + length <= j.oend
      else
        && op + length <= j.oend - MFLIMIT && ip + length <= |j.src| - (2 + 1 + LASTLITERALS)
        && TakesMatch(j, ip + length + 2, op + length, nibble, Read16(j.src, ip + length), false)
    case AtMatchLength(ip, op, nibble, offset) => TakesMatch(j, ip, op, nibble, offset, false)
    case AtCopy(ip, op, offset, length) =>
      offset <= |j.dict| + op - j.lo && op + length <= j.oend - LASTLITERALS && Takes(j, ip, op + length)
    case Finished(op) => true
    case Failed(ip) => false
  }

  /** `t` says whether the whole block is taken. */
  ghost predicate Tracks(j: Job, b: seq<byte>, pc: Pc, g: Decoded, t: bool) {
    Follows(j, b, pc, g) && (TakesAt(j, pc) <==> t)
  }

  /** read_variable_length. */
  method ReadVariableLength(src: seq<byte>, ip: nat, ilimit: int, initialCheck: bool)
    returns (ok: bool, length: nat, next: nat)
    requires ilimit < |src| && (initialCheck || ip < |src|)
    ensures ok ==> ReadExtension(src, ip) == Length(length, next) && next <= ilimit
    ensures !ok ==> ReadExtension(src, ip).NoLength? || ReadExtension(src, ip).next > ilimit
  {
    length, next := 0, ip;
    if initialCheck && ip >= ilimit {
      return false, 0, ip;
    }
    var s := src[next];
    next := next + 1;
    length := length + s as int;
    if next > ilimit {
      return false, 0, next;
    }
    while s == 255
      invariant ip < next <= ilimit
      invariant s != 255 ==> ReadExtension(src, ip) == Length(length, next)
      invariant s == 255 ==>
        match ReadExtension(src, next)
        case NoLength => ReadExtension(src, ip).NoLength?
        case Length(v, n) => ReadExtension(src, ip) == Length(length + v, n)
      decreases |src| - next
    {
      s := src[next];
      next := next + 1;
      length := length + s as int;
      if next > ilimit {
        return false, 0, next;
      }
    }
    ok := true;
  }

  // --- The meaning of the buffer after a copy ---

  /** The token is read: what follows are the literals. */
  lemma TokenRead(j: Job, b: seq<byte>, ip: nat, op: nat, ll: nat, p: nat, g: Decoded)
    requires Follows(j, b, AtToken(ip, op), g)
    requires ReadLength(j.src, ip + 1, j.src[ip] as int / 16) == Length(ll, p)
    ensures Follows(j, b, AtLiterals(p, op, j.src[ip] as int % 16, ll), g)
  {}

  /** The literals are copied, perhaps with some overrun, and an offset follows. */
  lemma LiteralsDone(j: Job, b: seq<byte>, b': seq<byte>, ip: nat, op: nat, nibble: nat, length: nat, w: nat,
                     g: Decoded)
    requires Follows(j, b, AtLiterals(ip, op, nibble, length), g)
    requires op + length <= j.oend - MFLIMIT && ip + length + 2 < |j.src|
    requires SameOutside(b, b', op, w)
    requires forall k :: op <= k < op + length ==> b'[k] == j.src[k - op + ip]
    ensures Follows(j, b', AtMatchLength(ip + length + 2, op + length, nibble, Read16(j.src, ip + length)), g)
  {
    LiteralsCopied(j, b, b', ip, op, length, w);
  }

  lemma LiteralsCopied(j: Job, b: seq<byte>, b': seq<byte>, ip: nat, op: nat, length: nat, w: nat)
    requires j.lo <= op && op + length <= |b| && ip + length <= |j.src|
    requires SameOutside(b, b', op, w)
    requires forall k :: op <= k < op + length ==> b'[k] == j.src[k - op + ip]
    ensures j.View(b', op + length) == j.View(b, op) + j.src[ip..ip + length]
  {
    assert b'[j.lo..op + length] == b'[j.lo..op] + b'[op..op + length];
    assert b'[j.lo..op] == b[j.lo..op];
    assert b'[op..op + length] == j.src[ip..ip + length];
  }

  lemma MatchLengthRead(j: Job, b: seq<byte>, ip: nat, op: nat, nibble: nat, offset: nat, mc: nat, q: nat, g: Decoded)
    requires Follows(j, b, AtMatchLength(ip, op, nibble, offset), g)
    requires ReadLength(j.src, ip, nibble) == Length(mc, q) && q < |j.src|
    ensures Follows(j, b, AtCopy(q, op, offset, mc + MINMATCH), g)
  {}

  /** The match is copied, perhaps with some overrun, from within the block and its prefix. */
  lemma MatchDone(j: Job, b: seq<byte>, b': seq<byte>, ip: nat, op: nat, offset: nat, length: nat, w: nat, g: Decoded)
    requires Follows(j, b, AtCopy(ip, op, offset, length), g)
    requires op + length <= j.oend && offset <= op - j.lo
    requires SameOutside(b, b', op, w)
    requires Matched(b', op, op + length, offset)
    ensures Follows(j, b', AtToken(ip, op + length), g)
  {
    hide Decode, CopyMatch;
    MatchCopied(j, b, b', op, offset, length, w);
  }

  lemma MatchCopied(j: Job, b: seq<byte>, b': seq<byte>, op: nat, offset: nat, length: nat, w: nat)
    requires j.lo <= op && op + length <= |b| && offset <= op - j.lo
    requires SameOutside(b, b', op, w)
    requires Matched(b', op, op + length, offset)
    ensures j.View(b', op + length) == CopyMatch(j.View(b, op), offset, length)
  {
    var v, v' := j.View(b, op), j.View(b', op + length);
    ViewGrows(j, b, b', op, length, w);
    forall k | |v| <= k < |v'| ensures v'[k] == if offset == 0 then 0 else v'[k - offset] {
      assert v'[k] == b'[k - |j.dict| + j.lo];
    }
    if offset == 0 {
      CopyMatchZero(v, length, v');
    } else {
      CopyMatchUnique(v, offset, length, v');
    }
  }

  lemma ViewGrows(j: Job, b: seq<byte>, b': seq<byte>, op: nat, length: nat, w: nat)
    requires j.lo <= op && op + length <= |b| && SameOutside(b, b', op, w)
    ensures j.View(b, op) <= j.View(b', op + length)
  {
    assert b'[j.lo..op] == b[j.lo..op];
    assert b'[j.lo..op + length] == b'[j.lo..op] + b'[op..op + length];
  }

  /** The match starts in the external dictionary and may run on into the prefix. */
  method CopyFromDict(j: Job, buf: array<byte>, op: nat, offset: nat, length: nat)
    requires j.Valid(buf.Length) && j.dst <= op && op + length <= j.oend
    requires op - offset < j.lo && offset <= |j.dict| + op - j.lo
    modifies buf
    ensures j.View(buf[..], op + length) == CopyMatch(old(j.View(buf[..], op)), offset, length)
    ensures SameOutside(old(buf[..]), buf[..], op, op + length)
  {
    var inDict := j.lo - (op - offset);
    var start := |j.dict| - inDict;
    if length <= inDict {
      CopyFrom(buf, op, j.dict, start, length);
    } else {
      CopyFrom(buf, op, j.dict, start, inDict);
      var o := op + inDict;
      var restSize := length - inDict;
      if restSize > o - j.lo {
        var from, endOfMatch := j.lo, o + restSize;
        while o < endOfMatch
          invariant op + inDict <= o <= endOfMatch && from == o - (op + inDict) + j.lo
          invariant forall k :: op <= k < op + inDict ==> buf[k] == j.dict[k - op + start]
          invariant forall k :: op + inDict <= k < o ==> buf[k] == buf[k - (op + inDict) + j.lo]
          invariant SameOutside(old(buf[..]), buf[..], op, op + length)
        {
          buf[o] := buf[from];
          o, from := o + 1, from + 1;
        }
      } else {
        Copy(buf, o, j.lo, restSize);
      }
    }
    DictMatchCopied(j, old(buf[..]), buf[..], op, offset, length);
  }

  lemma DictMatchCopied(j: Job, b: seq<byte>, b': seq<byte>, op: nat, offset: nat, length: nat)
    requires j.lo <= op && op + length <= |b|
    requires op - offset < j.lo && offset <= |j.dict| + op - j.lo
    requires SameOutside(b, b', op, op + length)
    requires forall k :: op <= k < Min(op + length, offset + j.lo) ==> b'[k] == j.dict[k - offset - j.lo + |j.dict|]
    requires forall k :: offset + j.lo <= k < op + length ==> b'[k] == b'[k - offset]
    ensures j.View(b', op + length) == CopyMatch(j.View(b, op), offset, length)
  {
    var v, v' := j.View(b, op), j.View(b', op + length);
    ViewGrows(j, b, b', op, length, op + length);
    forall k | |v| <= k < |v'| ensures v'[k] == v'[k - offset] {
      assert v'[k] == b'[k - |j.dict| + j.lo];
    }
    CopyMatchUnique(v, offset, length, v');
  }

  // --- What is taken, step by step ---

  lemma TokenTakes(j: Job, ip: nat, op: nat, ll: nat, p: nat)
    requires ip < |j.src| && ReadLength(j.src, ip + 1, j.src[ip] as int / 16) == Length(ll, p) && !Short(j, p, op, ll)
    ensures Takes(j, ip, op) <==> TakesAt(j, AtLiterals(p, op, j.src[ip] as int % 16, ll))
  {
    hide TakesMatch;
  }

  lemma ShortTakes(j: Job, ip: nat, op: nat, ll: nat, p: nat)
    requires ip < |j.src| && ReadLength(j.src, ip + 1, j.src[ip] as int / 16) == Length(ll, p) && Short(j, p, op, ll)
    ensures Takes(j, ip, op) <==> TakesMatch(j, p + ll + 2, op + ll, j.src[ip] as int % 16, Read16(j.src, p + ll), true)
  {
    hide TakesMatch;
  }

  lemma LengthTakes(j: Job, ip: nat, op: nat, nibble: nat, offset: nat, mc: nat, q: nat)
    requires ReadLength(j.src, ip, nibble) == Length(mc, q) && (nibble == ML_MASK ==> q <= |j.src| - LASTLITERALS + 1)
    ensures TakesMatch(j, ip, op, nibble, offset, false) <==> TakesAt(j, AtCopy(q, op, offset, mc + MINMATCH))
  {
    hide Takes;
  }

  /** The relaxed distance matters for few matches only. */
  lemma SameMatch(j: Job, ip: nat, op: nat, nibble: nat, offset: nat)
    requires nibble == ML_MASK || offset < 8 || offset > op - j.lo || op + nibble + MINMATCH <= j.oend - LASTLITERALS
    requires nibble < 16
    ensures TakesMatch(j, ip, op, nibble, offset, true) <==> TakesMatch(j, ip, op, nibble, offset, false)
  {
    hide Takes;
  }

  lemma ShortMatchTakes(j: Job, ip: nat, op: nat, nibble: nat, offset: nat)
    requires nibble < ML_MASK && 8 <= offset <= op - j.lo
    ensures TakesMatch(j, ip, op, nibble, offset, true) <==> Takes(j, ip, op + nibble + MINMATCH)
  {
    hide Takes;
  }

  lemma LongLiteralsTake(j: Job, ip: nat, op: nat)
    requires ip < |j.src| && j.src[ip] / 16 == 15
    requires ReadExtension(j.src, ip + 1).NoLength? || ReadExtension(j.src, ip + 1).next > |j.src| - RUN_MASK
    ensures !Takes(j, ip, op)
  {
    hide TakesMatch;
  }

  // --- The safe loop ---

  /** The shortcut of the safe loop copies 16 and 18 bytes on behalf of a short sequence. */
  method Shortcut(j: Job, buf: array<byte>, ip0: nat, op0: nat, ghost g: Decoded, ghost t: bool) returns (pc: Pc)
    requires Tracks(j, buf[..], AtToken(ip0, op0), g, t)
    requires j.src[ip0] / 16 != 15 && ip0 + 1 < |j.src| - 16 && op0 <= j.oend - 32
    modifies buf
    ensures Tracks(j, buf[..], pc, g, t) && !pc.Finished? && !pc.Failed?
    ensures pc.ip > ip0
    ensures SameOutside(old(buf[..]), buf[..], j.dst, j.oend)
  {
    hide Rest, Takes, TakesMatch;
    var token, ip, op := j.src[ip0] as int, ip0 + 1, op0;
    var length := token / 16;
    ghost var b := buf[..];
    CopyFrom(buf, op, j.src, ip, 16);
    TokenRead(j, b, ip0, op, length, ip, g);
    LiteralsDone(j, b, buf[..], ip, op, token % 16, length, op + 16, g);
    ShortTakes(j, ip0, op, length, ip);
    op, ip := op + length, ip + length;
    length := token % 16;
    var offset := Read16(j.src, ip);
    ip := ip + 2;
    if length != ML_MASK && offset >= 8 && (j.mode == WithPrefix64k || op - offset >= j.LowPrefix()) {
      MatchLengthRead(j, buf[..], ip, op, length, offset, length, ip, g);
      ShortMatch(j, buf, ip, op, offset, length + MINMATCH, g);
      ShortMatchTakes(j, ip, op, length, offset);
      return AtToken(ip, op + length + MINMATCH);
    }
    SameMatch(j, ip, op, length, offset);
    pc := AtMatchLength(ip, op, length, offset);
  }

  method ShortMatch(j: Job, buf: array<byte>, ip: nat, op: nat, offset: nat, length: nat, ghost g: Decoded)
    requires Follows(j, buf[..], AtCopy(ip, op, offset, length), g)
    requires 8 <= offset <= op - j.lo && length <= 18 && op + 18 <= j.oend
    modifies buf
    ensures Follows(j, buf[..], AtToken(ip, op + length), g)
    ensures SameOutside(old(buf[..]), buf[..], op, op + 18)
  {
    hide Rest;
    ghost var b := buf[..];
    CopyEighteen(buf, op, offset);
    MatchDone(j, b, buf[..], ip, op, offset, length, op + 18, g);
  }

  method CopyEighteen(buf: array<byte>, op: nat, offset: nat)
    requires 8 <= offset <= op && op + 18 <= buf.Length
    modifies buf
    ensures Matched(buf[..], op, op + 18, offset)
    ensures SameOutside(old(buf[..]), buf[..], op, op + 18)
  {
    var m := op - offset;
    Copy(buf, op, m, 8);
    Copy(buf, op + 8, m + 8, 8);
    Copy(buf, op + 16, m + 16, 2);
  }

  /** From the token to the literals, or through the shortcut. */
  method SafeToken(j: Job, buf: array<byte>, ip: nat, op: nat, ghost g: Decoded, ghost t: bool) returns (pc: Pc)
    requires Tracks(j, buf[..], AtToken(ip, op), g, t)
    modifies buf
    ensures Tracks(j, buf[..], pc, g, t) && !pc.Finished?
    ensures pc.Failed? || pc.ip > ip
    ensures SameOutside(old(buf[..]), buf[..], j.dst, j.oend)
  {
    hide Rest, Takes, TakesAt;
    var token := j.src[ip] as int;
    var length := token / 16;
    FailedTakes(j, AtToken(ip, op), 0);
    if length != RUN_MASK && ip + 1 < |j.src| - 16 && op <= j.oend - 32 {
      pc := Shortcut(j, buf, ip, op, g, t);
      return;
    }
    var next := ip + 1;
    if length == RUN_MASK {
      var ok, addl, n := ReadVariableLength(j.src, next, |j.src| - RUN_MASK, true);
      if !ok {
        LongLiteralsTake(j, ip, op);
        FailedTakes(j, AtToken(ip, op), n);
        return Failed(n);
      }
      length, next := length + addl, n;
    }
    TokenTakes(j, ip, op, length, next);
    TokenRead(j, buf[..], ip, op, length, next, g);
    pc := AtLiterals(next, op, token % 16, length);
  }

  lemma FailedTakes(j: Job, pc: Pc, n: nat)
    ensures !TakesAt(j, Failed(n)) && (pc.AtToken? ==> (TakesAt(j, pc) <==> Takes(j, pc.ip, pc.op)))
  {}

  /** safe_literal_copy: either the last literals, or literals followed by an offset. */
  method SafeLiterals(j: Job, buf: array<byte>, ip: nat, op: nat, nibble: nat, length: nat, ghost g: Decoded,
                      ghost t: bool)
    returns (pc: Pc)
    requires Tracks(j, buf[..], AtLiterals(ip, op, nibble, length), g, t)
    modifies buf
    ensures Tracks(j, buf[..], pc, g, t) && (pc.Finished? || pc.Failed? || pc.AtMatchLength?)
    ensures pc.AtMatchLength? ==> pc.ip > ip
    ensures pc.Finished? ==> !g.Corrupt?
    ensures SameOutside(old(buf[..]), buf[..], j.dst, j.oend)
  {
    hide TakesMatch;
    var cpy := op + length;
    ghost var b := buf[..];
    if cpy > j.oend - MFLIMIT || ip + length > |j.src| - (2 + 1 + LASTLITERALS) {
      if ip + length != |j.src| || cpy > j.oend {
        return Failed(ip);
      }
      CopyFrom(buf, op, j.src, ip, length);
      LiteralsCopied(j, b, buf[..], ip, op, length, cpy);
      return Finished(cpy);
    }
    ghost var w := WildCopy8From(buf, op, j.src, ip, cpy);
    LiteralsDone(j, b, buf[..], ip, op, nibble, length, w, g);
    var offset := Read16(j.src, ip + length);
    pc := AtMatchLength(ip + length + 2, cpy, nibble, offset);
  }

  /** _copy_match: completes the match length. */
  method SafeMatchLength(j: Job, buf: array<byte>, ip: nat, op: nat, nibble: nat, offset: nat, ghost g: Decoded,
                         ghost t: bool)
    returns (pc: Pc)
    requires Tracks(j, buf[..], AtMatchLength(ip, op, nibble, offset), g, t)
    ensures Tracks(j, buf[..], pc, g, t) && (pc.Failed? || pc.AtCopy?)
    ensures pc.AtCopy? ==> pc.ip >= ip
  {
    hide Rest, Takes;
    var length, next := nibble, ip;
    if length == ML_MASK {
      var ok, addl, n := ReadVariableLength(j.src, next, |j.src| - LASTLITERALS + 1, false);
      if !ok {
        return Failed(n);
      }
      length, next := length + addl, n;
    }
    LengthTakes(j, ip, op, nibble, offset, length, next);
    MatchLengthRead(j, buf[..], ip, op, nibble, offset, length, next, g);
    pc := AtCopy(next, op, offset, length + MINMATCH);
  }

  /** safe_match_copy. */
  method SafeCopy(j: Job, buf: array<byte>, ip: nat, op: nat, offset: nat, length: nat, ghost g: Decoded, ghost t: bool)
    returns (pc: Pc)
    requires Tracks(j, buf[..], AtCopy(ip, op, offset, length), g, t)
    modifies buf
    ensures Tracks(j, buf[..], pc, g, t) && (pc.Failed? || (pc.AtToken? && pc.ip == ip))
    ensures SameOutside(old(buf[..]), buf[..], j.dst, j.oend)
  {
    hide Decode, CopyMatch, Takes;
    var m := op - offset;
    if |j.dict| < KB64 && m + |j.dict| < j.LowPrefix() {
      return Failed(ip);
    }
    if j.mode == UsingExtDict && m < j.lo {
      if op + length > j.oend - LASTLITERALS {
        return Failed(ip);
      }
      CopyFromDict(j, buf, op, offset, length);
      return AtToken(ip, op + length);
    }
    ghost var b := buf[..];
    var ok := CopyInBlock(buf, op, offset, length, j.oend);
    if !ok {
      return Failed(ip);
    }
    MatchDone(j, b, buf[..], ip, op, offset, length, j.oend, g);
    pc := AtToken(ip, op + length);
  }

  /** The match copy of the safe loop, down to the last bytes of the output. */
  method CopyInBlock(buf: array<byte>, op: nat, offset: nat, length: nat, oend: nat) returns (ok: bool)
    requires offset <= op <= oend - MFLIMIT && oend <= buf.Length && length >= MINMATCH
    modifies buf
    ensures ok <==> op + length <= oend - LASTLITERALS
    ensures ok ==> Matched(buf[..], op, op + length, offset)
    ensures SameOutside(old(buf[..]), buf[..], op, oend)
  {
    var cpy := op + length;
    var m := Copy8WithOffset(buf, op, offset);
    ghost var b := buf[..];
    if cpy > oend - MATCH_SAFEGUARD_DISTANCE {
      if cpy > oend - LASTLITERALS {
        return false;
      }
      CopyToTheEnd(buf, op + 8, m, cpy, oend);
    } else {
      Copy(buf, op + 8, m, 8);
      if length > 16 {
        ghost var w := WildCopy8(buf, op + 16, m + 8, cpy);
      }
    }
    assert Matched(buf[..], op, op + 8, offset) by {
      assert forall k :: 0 <= k < op + 8 ==> buf[..][k] == b[k];
    }
    StrideKeepsMatch(buf[..], op, cpy, offset);
    ok := true;
  }

  /** The tail of a match that ends near oend: 8 bytes at a time as far as that fits, then single bytes. */
  method CopyToTheEnd(buf: array<byte>, o0: nat, m0: nat, cpy: nat, oend: nat)
    requires m0 + 8 <= o0 && o0 <= oend - 4 && cpy <= oend - LASTLITERALS && oend <= buf.Length
    modifies buf
    ensures forall k :: o0 <= k < cpy ==> buf[k] == buf[k - (o0 - m0)]
    ensures SameOutside(old(buf[..]), buf[..], o0, oend)
  {
    var o, m := o0, m0;
    var oCopyLimit := oend - (WILDCOPYLENGTH - 1);
    if o < oCopyLimit {
      ghost var w := WildCopy8(buf, o, m, oCopyLimit);
      m := m + (oCopyLimit - o);
      o := oCopyLimit;
    }
    while o < cpy
      invariant o0 <= o <= oend && m == o - (o0 - m0)
      invariant SameOutside(old(buf[..]), buf[..], o0, oend)
      invariant forall k :: o0 <= k < o ==> buf[k] == buf[k - (o0 - m0)]
    {
      buf[o] := buf[m];
      o, m := o + 1, m + 1;
    }
  }

  /** The safe loop, entered at any of its labels. */
  method SafeLoop(j: Job, buf: array<byte>, start: Pc, ghost g: Decoded, ghost t: bool) returns (pc: Pc)
    requires Tracks(j, buf[..], start, g, t)
    modifies buf
    ensures Tracks(j, buf[..], pc, g, t) && (pc.Finished? || pc.Failed?)
    ensures SameOutside(old(buf[..]), buf[..], j.dst, j.oend)
  {
    hide Rest, TakesAt;
    pc := start;
    while !pc.Finished? && !pc.Failed?
      invariant Tracks(j, buf[..], pc, g, t)
      invariant SameOutside(old(buf[..]), buf[..], j.dst, j.oend)
      decreases if pc.Finished? || pc.Failed? then -1 else |j.src| - pc.ip,
                if pc.AtMatchLength? then 2 else if pc.AtCopy? then 1 else 0
    {
      match pc
      case AtToken(ip, op) => pc := SafeToken(j, buf, ip, op, g, t);
      case AtLiterals(ip, op, nibble, length) => pc := SafeLiterals(j, buf, ip, op, nibble, length, g, t);
      case AtMatchLength(ip, op, nibble, offset) => pc := SafeMatchLength(j, buf, ip, op, nibble, offset, g, t);
      case AtCopy(ip, op, offset, length) => pc := SafeCopy(j, buf, ip, op, offset, length, g, t);
    }
  }

  // --- The fast loop ---

  /** Token and literals in the fast loop; leaves for the safe loop near either end. */
  method FastLiterals(j: Job, buf: array<byte>, ip0: nat, op0: nat, ghost g: Decoded, ghost t: bool) returns (pc: Pc)
    requires Tracks(j, buf[..], AtToken(ip0, op0), g, t) && op0 <= j.oend - FASTLOOP_SAFE_DISTANCE
    modifies buf
    ensures Tracks(j, buf[..], pc, g, t) && (pc.AtMatchLength? || pc.AtLiterals? || pc.Failed?)
    ensures pc.AtMatchLength? ==> pc.ip > ip0 && pc.op <= j.oend - 32
    ensures SameOutside(old(buf[..]), buf[..], j.dst, j.oend)
  {
    hide Rest, Takes, TakesAt;
    var token, ip, op := j.src[ip0] as int, ip0 + 1, op0;
    var length, nibble := token / 16, token % 16;
    ghost var b := buf[..];
    ghost var w: nat;
    FailedTakes(j, AtToken(ip0, op), 0);
    if length == RUN_MASK {
      var ok, addl, n := ReadVariableLength(j.src, ip, |j.src| - RUN_MASK, true);
      if !ok {
        LongLiteralsTake(j, ip0, op);
        FailedTakes(j, AtToken(ip0, op), n);
        return Failed(n);
      }
      length, ip := length + addl, n;
      TokenTakes(j, ip0, op, length, ip);
      TokenRead(j, b, ip0, op, length, ip, g);
      if op + length > j.oend - 32 || ip + length > |j.src| - 32 {
        return AtLiterals(ip, op, nibble, length);
      }
      w := WildCopy32From(buf, op, j.src, ip, op + length);
    } else if ip <= |j.src| - (16 + 1) {
      CopyFrom(buf, op, j.src, ip, 16);
      w := op + 16;
    } else {
      TokenTakes(j, ip0, op, length, ip);
      TokenRead(j, b, ip0, op, length, ip, g);
      return AtLiterals(ip, op, nibble, length);
    }
    TokenRead(j, b, ip0, op, length, ip, g);
    LiteralsDone(j, b, buf[..], ip, op, nibble, length, w, g);
    FastTakes(j, ip0, op, length, ip);
    pc := AtMatchLength(ip + length + 2, op + length, nibble, Read16(j.src, ip + length));
  }

  /** Far from the end of the output the distances relaxed for a short sequence hold anyway. */
  lemma FastTakes(j: Job, ip: nat, op: nat, ll: nat, p: nat)
    requires ip < |j.src| && ReadLength(j.src, ip + 1, j.src[ip] as int / 16) == Length(ll, p)
    requires op <= j.oend - FASTLOOP_SAFE_DISTANCE && p + ll + 2 <= |j.src|
    requires Short(j, p, op, ll) || (op + ll <= j.oend - 32 && p + ll <= |j.src| - 32)
    ensures Takes(j, ip, op)
      <==> TakesAt(j, AtMatchLength(p + ll + 2, op + ll, j.src[ip] as int % 16, Read16(j.src, p + ll)))
  {
    hide Takes, TakesMatch, ReadLength;
    if Short(j, p, op, ll) {
      ShortTakes(j, ip, op, ll, p);
      SameMatch(j, p + ll + 2, op + ll, j.src[ip] as int % 16, Read16(j.src, p + ll));
    } else {
      TokenTakes(j, ip, op, ll, p);
    }
  }

  /** The match copies of the fast loop; the match ends at least FASTLOOP_SAFE_DISTANCE before oend. */
  method FastCopy(j: Job, buf: array<byte>, ip: nat, op: nat, offset: nat, length: nat, ghost g: Decoded, ghost t: bool)
    returns (pc: Pc)
    requires Tracks(j, buf[..], AtCopy(ip, op, offset, length), g, t)
    requires op + length < j.oend - FASTLOOP_SAFE_DISTANCE
    modifies buf
    ensures Tracks(j, buf[..], pc, g, t) && (pc.Failed? || (pc.AtToken? && pc.ip == ip && pc.op == op + length))
    ensures SameOutside(old(buf[..]), buf[..], j.dst, j.oend)
  {
    hide Decode, CopyMatch, Takes;
    var m := op - offset;
    ghost var b := buf[..];
    if length < ML_MASK + MINMATCH && (j.mode == WithPrefix64k || m >= j.LowPrefix()) && offset >= 8 {
      ShortMatch(j, buf, ip, op, offset, length, g);
      return AtToken(ip, op + length);
    }
    if |j.dict| < KB64 && m + |j.dict| < j.LowPrefix() {
      return Failed(ip);
    }
    if j.mode == UsingExtDict && m < j.lo {
      CopyFromDict(j, buf, op, offset, length);
      return AtToken(ip, op + length);
    }
    if offset < 16 {
      CopyUsingOffset(buf, op, op + length, offset);
    } else {
      ghost var w := WildCopy32(buf, op, m, op + length);
    }
    MatchDone(j, b, buf[..], ip, op, offset, length, j.oend, g);
    pc := AtToken(ip, op + length);
  }

  method FastLoop(j: Job, buf: array<byte>, ip0: nat, op0: nat, ghost g: Decoded, ghost t: bool) returns (pc: Pc)
    requires Tracks(j, buf[..], AtToken(ip0, op0), g, t) && op0 <= j.oend - FASTLOOP_SAFE_DISTANCE
    modifies buf
    ensures Tracks(j, buf[..], pc, g, t)
    ensures SameOutside(old(buf[..]), buf[..], j.dst, j.oend)
  {
    hide Rest, TakesAt;
    pc := AtToken(ip0, op0);
    while true
      invariant pc.AtToken? && Tracks(j, buf[..], pc, g, t) && pc.op <= j.oend - FASTLOOP_SAFE_DISTANCE
      invariant SameOutside(old(buf[..]), buf[..], j.dst, j.oend)
      decreases |j.src| - pc.ip
    {
      pc := FastLiterals(j, buf, pc.ip, pc.op, g, t);
      if !pc.AtMatchLength? {
        return;
      }
      pc := SafeMatchLength(j, buf, pc.ip, pc.op, pc.nibble, pc.offset, g, t);
      if pc.Failed? || pc.op + pc.length >= j.oend - FASTLOOP_SAFE_DISTANCE {
        return;
      }
      pc := FastCopy(j, buf, pc.ip, pc.op, pc.offset, pc.length, g, t);
      if pc.Failed? {
        return;
      }
    }
  }

  /** LZ4_decompress_generic, decode_full_block. A negative result is an error. */
  method Decompress(buf: array<byte>, j: Job) returns (result: int)
    requires j.Valid(buf.Length)
    modifies buf
    ensures result <= j.oend - j.dst
    ensures result >= 0 <==> Accepts(j)
    ensures result >= 0 ==>
      var r := Decode(j.src, 0, old(j.View(buf[..], j.dst)));
      r.Decoded? && r.out == j.View(buf[..], j.dst + result)
    ensures result < 0 && j.dst < j.oend ==>
      var r := Decode(j.src, 0, old(j.View(buf[..], j.dst)));
      !(r.Decoded? && r.conforming && |r.out| <= j.Limit())
    ensures j.dst == j.oend ==> (result >= 0 <==> j.src == [0])
    ensures SameOutside(old(buf[..]), buf[..], j.dst, j.oend)
  {
    hide Decode, Takes;
    ghost var v := j.View(buf[..], j.dst);
    ghost var g, t := Decode(j.src, 0, v), Takes(j, 0, j.dst);
    if j.oend == j.dst {
      if |j.src| == 1 && j.src[0] == 0 {
        EmptyBlock(j.src, v);
        return 0;
      }
      return -1;
    }
    if |j.src| == 0 {
      NothingToTake(j, v);
      return -1;
    }
    var pc := AtToken(0, j.dst);
    if j.oend - j.dst >= FASTLOOP_SAFE_DISTANCE {
      pc := FastLoop(j, buf, 0, j.dst, g, t);
    }
    pc := SafeLoop(j, buf, pc, g, t);
    ConformingTaken(j, 0, j.dst, v);
    match pc
    case Finished(op) => result := op - j.dst;
    case Failed(ip) => result := -1 - ip as int;
  }

  lemma NothingToTake(j: Job, h: seq<byte>)
    requires j.src == []
    ensures !Takes(j, 0, j.dst) && Decode(j.src, 0, h).Corrupt?
  {}

  /** What is taken has a meaning, and that fits. */
  lemma {:induction false} TakenHasMeaning(j: Job, i: nat, op: int, out: seq<byte>)
    requires Takes(j, i, op) && |out| == |j.dict| + op - j.lo
    ensures Decode(j.src, i, out).Decoded? && |Decode(j.src, i, out).out| <= j.Limit()
    decreases |j.src| - i
  {
    hide CopyMatch, ReadLength, Decode;
    SequenceRead(j.src, i, out);
    var Length(ll, p) := ReadLength(j.src, i + 1, j.src[i] as int / 16);
    if p + ll != |j.src| {
      var nibble, offset, out' := j.src[i] as int % 16, Read16(j.src, p + ll), out + j.src[p..p + ll];
      var Length(mc, q) := ReadLength(j.src, p + ll + 2, nibble);
      TakenHasMeaning(j, q, op + ll + mc + MINMATCH, CopyMatch(out', offset, mc + MINMATCH));
    }
  }

  /** Every conforming block that fits is taken. */
  lemma {:induction false} ConformingTaken(j: Job, i: nat, op: int, out: seq<byte>)
    requires |out| == |j.dict| + op - j.lo
    ensures var r := Decode(j.src, i, out);
      r.Decoded? && r.conforming && |r.out| <= j.Limit() ==> Takes(j, i, op)
    decreases |j.src| - i
  {
    hide CopyMatch, ReadLength, Decode;
    SequenceRead(j.src, i, out);
    var r := Decode(j.src, i, out);
    if r.Decoded? && r.conforming && |r.out| <= j.Limit() {
      var Length(ll, p) := ReadLength(j.src, i + 1, j.src[i] as int / 16);
      if p + ll != |j.src| {
        var nibble, offset, out' := j.src[i] as int % 16, Read16(j.src, p + ll), out + j.src[p..p + ll];
        var Length(mc, q) := ReadLength(j.src, p + ll + 2, nibble);
        var next := CopyMatch(out', offset, mc + MINMATCH);
        TailRoom(j.src, q, next);
        ConformingTaken(j, q, op + ll + mc + MINMATCH, next);
      }
    }
  }

  /** A block that does not conform and has a meaning of 18 bytes: it is taken from capacity 32 on, not below. */
  lemma RelaxedBlock(lits: seq<byte>, capacity: nat)
    requires |lits| == 14
    ensures var src := [0xE0] + lits + [1, 0, 0];
      && Decode(src, 0, []).Decoded? && |Decode(src, 0, []).out| == 18 && !Decode(src, 0, []).conforming
      && (Accepts(Job(src, 0, capacity, NoDict, 0, [])) <==> capacity >= 32)
  {
    hide CopyMatch;
    var src, j := [0xE0] + lits + [1, 0, 0], Job([0xE0] + lits + [1, 0, 0], 0, capacity, NoDict, 0, []);
    assert src[0] == 0xE0 && src[15] == 1 && src[16] == 0 && src[17] == 0;
    SequenceRead(src, 0, []);
    var out := CopyMatch([] + src[1..15], 1, 4);
    assert Decode(src, 17, out) == Decoded(out + src[18..], true);
    assert Takes(j, 17, 18) <==> 18 <= capacity;
    assert TakesMatch(j, 17, 14, 0, 1, true) <==> 23 <= capacity;
    assert Takes(j, 0, 0) <==> 32 <= capacity;
  }

  /** What is visible after a call is what was visible before it, and the output. */
  lemma OutputFollows(j: Job, m: seq<byte>, m': seq<byte>, op: nat)
    requires j.lo <= j.dst <= op <= |m| && SameOutside(m, m', j.dst, j.oend)
    ensures j.View(m', op) == j.View(m, j.dst) + m'[j.dst..op]
  {
    assert m'[j.lo..j.dst] == m[j.lo..j.dst];
    assert m'[j.lo..op] == m'[j.lo..j.dst] + m'[j.dst..op];
  }
}
