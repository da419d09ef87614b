/**
 LZ4_decompress_unsafe_generic: the byte-by-byte decoder that knows the decoded size but not
 the end of its input. It accepts exactly the conforming blocks of that size.

 A match of offset 0, which the format forbids, copies every byte onto itself: this decoder leaves what
 was in the output buffer, where the safe decoder writes zeros. `DecodeOnto` is its meaning of a block.
 */
module UnsafeDecoder {
  import opened Bytes
  import opened BlockFormat
  import opened MemCopy
  import opened BlockDecoder

  /** Reading past the end of `mem` is undefined in the source; here it is an outcome. */
  datatype Outcome = Read(bytes: nat) | Rejected | Overread

  // --- The meaning of a block on top of what the buffer held ---

  /** The overlapping copy; at offset 0 it keeps what is `under` it. */
  ghost function CopyOnto(out: seq<byte>, offset: nat, len: nat, under: seq<byte>): (r: seq<byte>)
    requires offset <= |out|
    ensures |r| == |out| + len && out <= r
  {
    if offset > 0 then CopyMatch(out, offset, len)
    else out + seq(len, k requires k >= 0 => if |out| + k < |under| then under[|out| + k] else 0)
  }

  /** As `Decode`, but on top of `under`: history and output buffer before the call. */
  ghost function DecodeOnto(src: seq<byte>, i: nat, out: seq<byte>, under: seq<byte>): (r: Decoded)
    ensures r.Decoded? ==> out <= r.out
    decreases |src| - i, 0
  {
    if i >= |src| then Corrupt
    else match ReadLength(src, i + 1, src[i] as int / 16)
      case NoLength => Corrupt
      case Length(ll, p) => LiteralsOnto(src, p, ll, src[i] as int % 16, out, under)
  }

  ghost function LiteralsOnto(src: seq<byte>, p: nat, ll: nat, nibble: nat, out: seq<byte>,
                              under: seq<byte>): (r: Decoded)
    ensures r.Decoded? ==> out <= r.out && |r.out| >= |out| + ll && p + ll <= |src|
    decreases |src| - p, 2
  {
    if p + ll > |src| then Corrupt
    else if p + ll == |src| then Decoded(out + src[p..], true)
    else if p + ll + 2 > |src| then Corrupt
    else match ReadLength(src, p + ll + 2, nibble)
      case NoLength => Corrupt
      case Length(mc, q) => MatchOnto(src, q, Read16(src, p + ll), mc + MINMATCH, out + src[p..p + ll], under)
  }

  ghost function MatchOnto(src: seq<byte>, q: nat, offset: nat, ml: nat, out: seq<byte>, under: seq<byte>): (r: Decoded)
    ensures r.Decoded? ==> out <= r.out && |r.out| >= |out| + ml
    decreases |src| - q, 1
  {
    if offset > |out| then Corrupt
    else match DecodeOnto(src, q, CopyOnto(out, offset, ml, under), under)
      case Corrupt => Corrupt
      case Decoded(o, c) =>
        Decoded(o, c && |out| + MFLIMIT <= |o| && |out| + ml + LASTLITERALS <= |o|)
  }

  /** Every match of offset 0 falls on zero bytes; `at` is how much is decoded before the token at `i`. */
  predicate ZerosUnder(src: seq<byte>, i: nat, at: nat, under: seq<byte>)
    decreases |src| - i
  {
    i < |src| ==>
      match ReadLength(src, i + 1, src[i] as int / 16)
      case NoLength => true
      case Length(ll, p) =>
        p + ll + 2 <= |src| ==>
          match ReadLength(src, p + ll + 2, src[i] as int % 16)
          case NoLength => true
          case Length(mc, q) =>
            && (Read16(src, p + ll) == 0 ==> ZeroBytes(under, at + ll, mc + MINMATCH))
            && ZerosUnder(src, q, at + ll + mc + MINMATCH, under)
  }

  predicate ZeroBytes(s: seq<byte>, from: nat, n: nat) {
    forall k :: from <= k < from + n && k < |s| ==> s[k] == 0
  }

  /** No match of the block has the forbidden offset 0. */
  predicate NonzeroOffsets(src: seq<byte>, i: nat)
    decreases |src| - i
  {
    i < |src| ==>
      match ReadLength(src, i + 1, src[i] as int / 16)
      case NoLength => true
      case Length(ll, p) =>
        p + ll + 2 <= |src| ==>
          Read16(src, p + ll) != 0
          && match ReadLength(src, p + ll + 2, src[i] as int % 16)
             case NoLength => true
             case Length(_, q) => NonzeroOffsets(src, q)
  }

  lemma {:induction false} NonzeroOffsetsSuffice(src: seq<byte>, i: nat, at: nat, under: seq<byte>)
    requires NonzeroOffsets(src, i)
    ensures ZerosUnder(src, i, at, under)
    decreases |src| - i
  {
    hide ReadLength;
    if i < |src| && ReadLength(src, i + 1, src[i] as int / 16).Length? {
      var Length(ll, p) := ReadLength(src, i + 1, src[i] as int / 16);
      if p + ll + 2 <= |src| && ReadLength(src, p + ll + 2, src[i] as int % 16).Length? {
        var Length(mc, q) := ReadLength(src, p + ll + 2, src[i] as int % 16);
        NonzeroOffsetsSuffice(src, q, at + ll + mc + MINMATCH, under);
      }
    }
  }

  /** `DecodeOnto` up to the first match. */
  ghost function OneSequenceOnto(src: seq<byte>, i: nat, out: seq<byte>, under: seq<byte>): Decoded {
    if i >= |src| then Corrupt
    else match ReadLength(src, i + 1, src[i] as int / 16)
      case NoLength => Corrupt
      case Length(ll, p) =>
        if p + ll == |src| then Decoded(out + src[p..], true)
        else if p + ll + 2 > |src| then Corrupt
        else match ReadLength(src, p + ll + 2, src[i] as int % 16)
          case NoLength => Corrupt
          case Length(mc, q) => MatchOnto(src, q, Read16(src, p + ll), mc + MINMATCH, out + src[p..p + ll], under)
  }

  lemma SequenceReadOnto(src: seq<byte>, i: nat, out: seq<byte>, under: seq<byte>)
    ensures DecodeOnto(src, i, out, under) == OneSequenceOnto(src, i, out, under)
  {
    hide MatchOnto, ReadLength;
    if i < |src| && ReadLength(src, i + 1, src[i] as int / 16).Length? {
      var Length(ll, p) := ReadLength(src, i + 1, src[i] as int / 16);
      assert DecodeOnto(src, i, out, under) == LiteralsOnto(src, p, ll, src[i] as int % 16, out, under);
    }
  }

  /** The conforming blocks that add nothing: a token without literals, whatever its match nibble says. */
  lemma NothingAnnounced(src: seq<byte>, h: seq<byte>)
    ensures Good(Decode(src, 0, h), |h|) <==> |src| == 1 && src[0] < 16
  {
    hide CopyMatch, Decode, ReadExtension;
    SequenceRead(src, 0, h);
  }

  /** Whether a block has a meaning, how long it is and whether it conforms depends on lengths only. */
  ghost predicate SameShape(r: Decoded, r': Decoded) {
    (r.Decoded? <==> r'.Decoded?) && (r.Decoded? ==> |r.out| == |r'.out| && r.conforming == r'.conforming)
  }

  lemma {:induction false} ShapeFromLengths(src: seq<byte>, i: nat, out: seq<byte>, out': seq<byte>, under: seq<byte>)
    requires |out| == |out'|
    ensures SameShape(Decode(src, i, out), DecodeOnto(src, i, out', under))
    decreases |src| - i
  {
    hide Decode, DecodeOnto, ReadLength, CopyMatch, CopyOnto;
    SequenceRead(src, i, out);
    SequenceReadOnto(src, i, out', under);
    if i < |src| && ReadLength(src, i + 1, src[i] as int / 16).Length? {
      var Length(ll, p) := ReadLength(src, i + 1, src[i] as int / 16);
      if p + ll + 2 <= |src| && ReadLength(src, p + ll + 2, src[i] as int % 16).Length? {
        var Length(mc, q) := ReadLength(src, p + ll + 2, src[i] as int % 16);
        var ml, offset, o, o' := mc + MINMATCH, Read16(src, p + ll), out + src[p..p + ll], out' + src[p..p + ll];
        if offset <= |o| {
          ShapeFromLengths(src, q, CopyMatch(o, offset, ml), CopyOnto(o', offset, ml, under), under);
        }
      }
    }
  }

  /** A copy of offset 0 is the same for both decoders exactly on zero bytes. */
  lemma CopyOntoZeros(out: seq<byte>, len: nat, under: seq<byte>)
    requires |out| + len <= |under|
    ensures CopyOnto(out, 0, len, under) == out + under[|out|..|out| + len]
    ensures CopyOnto(out, 0, len, under) == CopyMatch(out, 0, len) <==> ZeroBytes(under, |out|, len)
  {
    hide CopyMatch;
    var zeros := out + seq(len, k requires k >= 0 => 0 as byte);
    CopyMatchZero(out, len, zeros);
    if CopyOnto(out, 0, len, under) == zeros {
      forall k | |out| <= k < |out| + len ensures under[k] == 0 {
        assert zeros[k] == 0 && CopyOnto(out, 0, len, under)[k] == under[k];
      }
    }
  }

  /** The two meanings are the same exactly when every match of offset 0 falls on zero bytes. */
  lemma {:induction false} SameMeaning(src: seq<byte>, i: nat, out: seq<byte>, under: seq<byte>)
    requires Decode(src, i, out).Decoded? && |Decode(src, i, out).out| <= |under|
    ensures DecodeOnto(src, i, out, under) == Decode(src, i, out) <==> ZerosUnder(src, i, |out|, under)
    decreases |src| - i
  {
    hide Decode, DecodeOnto, ReadLength, CopyMatch, CopyOnto, ZeroBytes;
    SequenceRead(src, i, out);
    SequenceReadOnto(src, i, out, under);
    ShapeFromLengths(src, i, out, out, under);
    var Length(ll, p) := ReadLength(src, i + 1, src[i] as int / 16);
    if p + ll != |src| {
      var Length(mc, q) := ReadLength(src, p + ll + 2, src[i] as int % 16);
      var ml, offset, o := mc + MINMATCH, Read16(src, p + ll), out + src[p..p + ll];
      var next, next' := CopyMatch(o, offset, ml), CopyOnto(o, offset, ml, under);
      assert next == next' <==> (offset == 0 ==> ZeroBytes(under, |o|, ml)) by { CopiesAgree(o, offset, ml, under); }
      ShapeFromLengths(src, q, next, next', under);
      if next == next' {
        SameMeaning(src, q, next, under);
      } else {
        Diverged(Decode(src, q, next), next, DecodeOnto(src, q, next', under), next');
      }
    }
  }

  lemma CopiesAgree(out: seq<byte>, offset: nat, len: nat, under: seq<byte>)
    requires offset <= |out| && |out| + len <= |under|
    ensures CopyMatch(out, offset, len) == CopyOnto(out, offset, len, under)
      <==> (offset == 0 ==> ZeroBytes(under, |out|, len))
  {
    if offset == 0 {
      CopyOntoZeros(out, len, under);
    }
  }

  /** What differs so far stays different. */
  lemma Diverged(r: Decoded, out: seq<byte>, r': Decoded, out': seq<byte>)
    requires |out| == |out'| && out != out'
    requires (r.Decoded? ==> out <= r.out) && (r'.Decoded? ==> out' <= r'.out)
    ensures r.Decoded? && r'.Decoded? ==> r.out != r'.out
  {
    if r.Decoded? && r'.Decoded? {
      assert out == r.out[..|out|] && out' == r'.out[..|out|];
    }
  }

  /** A literal, a match of offset 0, twelve literals. */
  ghost function ZeroOffsetExample(lits: seq<byte>): seq<byte> {
    [0x10, 0x41, 0, 0, 0xC0] + lits
  }

  /** The safe decoder writes four zeros for the match, this one leaves the four bytes as they were. */
  lemma ZeroOffsetBlock(lits: seq<byte>, under: seq<byte>)
    requires |lits| == 12 && |under| == 17
    ensures Decode(ZeroOffsetExample(lits), 0, []) == Decoded([0x41, 0, 0, 0, 0] + lits, true)
    ensures DecodeOnto(ZeroOffsetExample(lits), 0, [], under) == Decoded([0x41] + under[1..5] + lits, true)
    ensures ZerosUnder(ZeroOffsetExample(lits), 0, 0, under) <==> under[1..5] == [0, 0, 0, 0]
  {
    hide Decode, DecodeOnto, ZerosUnder;
    ExampleDecoded(lits);
    ExampleOnto(lits, under);
    ExampleUnder(lits, under);
  }

  lemma ExampleFields(lits: seq<byte>)
    requires |lits| == 12
    ensures var src := ZeroOffsetExample(lits);
      && |src| == 17 && src[0] == 0x10 && src[4] == 0xC0 && Read16(src, 2) == 0
      && [] + src[1..2] == [0x41] && src[5..] == lits
  {}

  lemma ExampleDecoded(lits: seq<byte>)
    requires |lits| == 12
    ensures Decode(ZeroOffsetExample(lits), 0, []) == Decoded([0x41, 0, 0, 0, 0] + lits, true)
  {
    hide CopyMatch, Decode, ZeroOffsetExample;
    var src := ZeroOffsetExample(lits);
    ExampleFields(lits);
    SequenceRead(src, 0, []);
    CopyMatchZero([0x41], 4, [0x41, 0, 0, 0, 0]);
    SequenceRead(src, 4, [0x41, 0, 0, 0, 0]);
  }

  lemma ExampleOnto(lits: seq<byte>, under: seq<byte>)
    requires |lits| == 12 && |under| == 17
    ensures DecodeOnto(ZeroOffsetExample(lits), 0, [], under) == Decoded([0x41] + under[1..5] + lits, true)
  {
    hide CopyOnto, DecodeOnto, ZeroOffsetExample;
    var src := ZeroOffsetExample(lits);
    ExampleFields(lits);
    SequenceReadOnto(src, 0, [], under);
    CopyOntoZeros([0x41], 4, under);
    SequenceReadOnto(src, 4, [0x41] + under[1..5], under);
  }

  lemma ExampleUnder(lits: seq<byte>, under: seq<byte>)
    requires |lits| == 12 && |under| == 17
    ensures ZerosUnder(ZeroOffsetExample(lits), 0, 0, under) <==> under[1..5] == [0, 0, 0, 0]
  {
    hide ZeroOffsetExample;
    var src := ZeroOffsetExample(lits);
    ExampleFields(lits);
    assert ZerosUnder(src, 4, 5, under);
    assert ZeroBytes(under, 1, 4) <==> under[1] == under[2] == under[3] == under[4] == 0;
    assert under[1..5] == [under[1], under[2], under[3], under[4]];
  }

  /** A meaning this decoder should accept: conforming, and of exactly the announced size. */
  ghost predicate Good(r: Decoded, size: int) {
    r.Decoded? && r.conforming && |r.out| == size
  }

  ghost predicate Agree(g: Decoded, r: Decoded, size: int) {
    Good(g, size) || Good(r, size) ==> g == r
  }

  /** The output buffer from `op` on is as it was before the call; `u` is history and buffer at that time. */
  ghost predicate Untouched(j: Job, b: seq<byte>, op: nat, u: seq<byte>) {
    && j.Valid(|b|) && j.dst <= op <= j.oend && |u| == j.Limit()
    && forall k :: op <= k < j.oend ==> b[k] == u[k - j.lo + |j.dict|]
  }

  /** Before the token at `ip`, for the candidate block mem[..n]. */
  ghost predicate OnTrack(j: Job, b: seq<byte>, ip: nat, op: nat, n: nat, g: Decoded, u: seq<byte>) {
    && Untouched(j, b, op, u) && n <= |j.src|
    && (ip > n ==> !Good(g, j.Limit()))
    && (ip <= n ==> Agree(g, DecodeOnto(j.src[..n], ip, j.View(b, op), u), j.Limit()))
  }

  /** Before the literals at `ip`. */
  ghost predicate AtLiteralsOf(j: Job, b: seq<byte>, ip: nat, op: nat, nibble: nat, ll: nat, n: nat, g: Decoded,
                               u: seq<byte>) {
    && Untouched(j, b, op, u) && n <= |j.src|
    && (ip > n ==> !Good(g, j.Limit()))
    && (ip <= n ==> Agree(g, LiteralsOnto(j.src[..n], ip, ll, nibble, j.View(b, op), u), j.Limit()))
  }

  /** read_long_length_no_check. */
  method ReadLongLength(mem: seq<byte>, ip: nat) returns (ok: bool, length: nat, next: nat)
    ensures ok ==> ReadExtension(mem, ip) == Length(length, next)
    ensures !ok ==> ReadExtension(mem, ip).NoLength?
  {
    length, next := 0, ip;
    while true
      invariant ip <= next
      invariant match ReadExtension(mem, next)
        case NoLength => ReadExtension(mem, ip).NoLength?
        case Length(v, n) => ReadExtension(mem, ip) == Length(length + v, n)
      decreases |mem| - next
    {
      if next >= |mem| {
        return false, 0, next;
      }
      var b := mem[next];
      next, length := next + 1, length + b as int;
      if b != 255 {
        return true, length, next;
      }
    }
  }

  lemma {:induction false} ExtensionInPrefix(mem: seq<byte>, n: nat, i: nat)
    requires n <= |mem|
    ensures var r := ReadExtension(mem, i);
      ReadExtension(mem[..n], i) == if r.Length? && r.next <= n then r else NoLength
    decreases |mem| - i
  {
    if i < n && mem[i] == 255 {
      ExtensionInPrefix(mem, n, i + 1);
    }
  }

  /** A length read from memory is the block's own, unless it ends beyond the block. */
  method ReadNibbleLength(mem: seq<byte>, ip: nat, nibble: nat, ghost n: nat) returns (ok: bool, length: nat, next: nat)
    requires nibble < 16 && n <= |mem|
    ensures ok ==> ip <= next && ReadLength(mem, ip, nibble) == Length(length, next)
    ensures ok && next <= n ==> ReadLength(mem[..n], ip, nibble) == Length(length, next)
    ensures (!ok || next > n) && ip <= n ==> ReadLength(mem[..n], ip, nibble).NoLength?
  {
    if nibble < 15 {
      return true, nibble, ip;
    }
    var addl;
    ok, addl, next := ReadLongLength(mem, ip);
    length := 15 + addl;
    ExtensionInPrefix(mem, n, ip);
  }

  /** The match copy, one byte at a time, also when it starts in the external dictionary. */
  method CopyBytewise(j: Job, buf: array<byte>, op: nat, offset: nat, length: nat, ghost u: seq<byte>)
    requires Untouched(j, buf[..], op, u) && op + length <= j.oend && offset <= |j.dict| + op - j.lo
    modifies buf
    ensures j.View(buf[..], op + length) == CopyOnto(old(j.View(buf[..], op)), offset, length, u)
    ensures SameOutside(old(buf[..]), buf[..], op, op + length)
  {
    hide CopyMatch;
    if offset > op - j.lo {
      var extml := offset - (op - j.lo);
      var start := |j.dict| - extml;
      if extml > length {
        CopyFrom(buf, op, j.dict, start, length);
      } else {
        CopyFrom(buf, op, j.dict, start, extml);
        CopyForward(buf, op + extml, j.lo, length - extml);
      }
      DictMatchCopied(j, old(buf[..]), buf[..], op, offset, length);
    } else {
      CopyForward(buf, op, op - offset, length);
      if offset > 0 {
        MatchCopied(j, old(buf[..]), buf[..], op, offset, length, op + length);
      } else {
        KeptBytes(j, buf[..], op, length, u);
      }
    }
  }

  lemma KeptBytes(j: Job, b: seq<byte>, op: nat, length: nat, u: seq<byte>)
    requires Untouched(j, b, op, u) && op + length <= j.oend
    ensures j.View(b, op + length) == CopyOnto(j.View(b, op), 0, length, u)
  {
    var v := j.View(b, op);
    CopyOntoZeros(v, length, u);
    assert b[op..op + length] == u[|v|..|v| + length];
    assert b[j.lo..op + length] == b[j.lo..op] + b[op..op + length];
  }

  method CopyForward(buf: array<byte>, d: nat, s: nat, length: nat)
    requires s <= d && d + length <= buf.Length
    modifies buf
    ensures forall k :: d <= k < d + length ==> buf[k] == buf[k - (d - s)]
    ensures s == d ==> buf[..] == old(buf[..])
    ensures SameOutside(old(buf[..]), buf[..], d, d + length)
  {
    for u := 0 to length
      invariant forall k :: d <= k < d + u ==> buf[k] == buf[k - (d - s)]
      invariant s == d ==> buf[..] == old(buf[..])
      invariant SameOutside(old(buf[..]), buf[..], d, d + u)
    {
      buf[d + u] := buf[s + u];
    }
  }

  lemma TokenTaken(j: Job, b: seq<byte>, ip: nat, op: nat, n: nat, g: Decoded, ok: bool, ll: nat, p: nat, u: seq<byte>)
    requires OnTrack(j, b, ip, op, n, g, u) && ip < |j.src|
    requires ok && p <= n ==> ReadLength(j.src[..n], ip + 1, j.src[ip] as int / 16) == Length(ll, p)
    requires (!ok || p > n) && ip + 1 <= n ==> ReadLength(j.src[..n], ip + 1, j.src[ip] as int / 16).NoLength?
    requires ok ==> ip < p
    ensures ok ==> AtLiteralsOf(j, b, p, op, j.src[ip] as int % 16, ll, n, g, u)
    ensures !ok ==> !Good(g, j.Limit())
  {
    hide LiteralsOnto, ReadLength;
    if ip < n {
      assert j.src[..n][ip] == j.src[ip];
    }
  }

  /** Literals that end the block, that cannot, or that a match must follow. */
  lemma LiteralsTaken(j: Job, b: seq<byte>, ip: nat, op: nat, nibble: nat, ll: nat, n: nat, g: Decoded, u: seq<byte>)
    requires AtLiteralsOf(j, b, ip, op, nibble, ll, n, g, u)
    ensures op + ll > j.oend || ip + ll > n ==> !Good(g, j.Limit())
    ensures op + ll <= j.oend && j.oend - (op + ll) < MFLIMIT && !(op + ll == j.oend && ip + ll == n) ==>
      !Good(g, j.Limit())
    ensures op + ll <= j.oend && op + ll + MFLIMIT <= j.oend && ip + ll + 2 > n ==> !Good(g, j.Limit())
  {
    hide DecodeOnto, CopyOnto, ReadLength;
    if ip <= n {
      var src := j.src[..n];
      var r := LiteralsOnto(src, ip, ll, nibble, j.View(b, op), u);
      if Good(r, j.Limit()) && ip + ll != n {
        var out, offset := j.View(b, op) + src[ip..ip + ll], Read16(src, ip + ll);
        var Length(mc, q) := ReadLength(src, ip + ll + 2, nibble);
        assert r == MatchOnto(src, q, offset, mc + MINMATCH, out, u);
      }
    }
  }

  /** The last literals close a block of exactly the announced size. */
  lemma BlockTaken(j: Job, b: seq<byte>, b': seq<byte>, ip: nat, op: nat, nibble: nat, ll: nat, n: nat, g: Decoded,
                   u: seq<byte>)
    requires AtLiteralsOf(j, b, ip, op, nibble, ll, n, g, u) && ip + ll == n && op + ll == j.oend
    requires SameOutside(b, b', op, op + ll) && forall k :: op <= k < op + ll ==> b'[k] == j.src[k - op + ip]
    ensures g == Decoded(j.View(b', j.oend), true)
  {
    LiteralsCopied(j, b, b', ip, op, ll, op + ll);
    assert j.src[..n][ip..] == j.src[ip..ip + ll];
  }

  /** Copied literals are as good as read. */
  lemma LiteralsMoved(j: Job, b: seq<byte>, b': seq<byte>, ip: nat, op: nat, nibble: nat, ll: nat, n: nat, g: Decoded,
                      u: seq<byte>)
    requires AtLiteralsOf(j, b, ip, op, nibble, ll, n, g, u) && op + ll <= j.oend && ip + ll <= |j.src|
    requires SameOutside(b, b', op, op + ll) && forall k :: op <= k < op + ll ==> b'[k] == j.src[k - op + ip]
    ensures AtLiteralsOf(j, b', ip + ll, op + ll, nibble, 0, n, g, u)
  {
    hide MatchOnto, ReadLength;
    LiteralsCopied(j, b, b', ip, op, ll, op + ll);
    if ip + ll <= n {
      var src, out := j.src[..n], j.View(b', op + ll);
      assert src[ip..ip + ll] == j.src[ip..ip + ll];
      assert out + src[ip + ll..ip + ll] == out;
      if ip + ll == n {
        assert src[ip..] == src[ip..ip + ll] && out + src[n..] == out;
      }
    }
  }

  /** A match: rejected only if no good block has it, otherwise its copy keeps on track. */
  lemma MatchTaken(j: Job, b: seq<byte>, ip: nat, op: nat, nibble: nat, n: nat, g: Decoded, ok: bool, mc: nat, q: nat,
                   u: seq<byte>)
    requires AtLiteralsOf(j, b, ip, op, nibble, 0, n, g, u) && ip + 2 <= n && op + MFLIMIT <= j.oend
    requires ok && q <= n ==> ReadLength(j.src[..n], ip + 2, nibble) == Length(mc, q)
    requires !ok || q > n ==> ReadLength(j.src[..n], ip + 2, nibble).NoLength?
    ensures var offset, out, ml := Read16(j.src, ip), j.View(b, op), mc + MINMATCH;
      && (!ok || q > n ==> !Good(g, j.Limit()))
      && (ok && q <= n && (op + ml + LASTLITERALS > j.oend || offset > |out|) ==> !Good(g, j.Limit()))
      && (ok && q <= n && op + ml + LASTLITERALS <= j.oend && offset <= |out| ==>
            Agree(g, DecodeOnto(j.src[..n], q, CopyOnto(out, offset, ml, u), u), j.Limit()))
  {
    hide DecodeOnto, CopyOnto, ReadLength;
    var src, offset, out := j.src[..n], Read16(j.src, ip), j.View(b, op);
    assert out + src[ip..ip] == out && Read16(src, ip) == offset;
    var r := LiteralsOnto(src, ip, 0, nibble, out, u);
    if ok && q <= n {
      assert r == MatchOnto(src, q, offset, mc + MINMATCH, out, u);
    }
  }

  /** The promise about a final outcome. */
  ghost predicate Settled(j: Job, b: seq<byte>, r: Outcome, n: nat, g: Decoded) {
    && j.Valid(|b|)
    && (r == Read(n) <==> Good(g, j.Limit()))
    && (r == Read(n) ==> g.out == j.View(b, j.oend))
  }

  datatype Step = Stop(r: Outcome) | Go(ip: nat, op: nat, nibble: nat)

  /** Token and literals. */
  method TakeLiterals(buf: array<byte>, j: Job, ip: nat, op: nat, ghost n: nat, ghost g: Decoded, ghost u: seq<byte>)
    returns (step: Step)
    requires OnTrack(j, buf[..], ip, op, n, g, u)
    modifies buf
    ensures SameOutside(old(buf[..]), buf[..], j.dst, j.oend)
    ensures step.Stop? ==> Settled(j, buf[..], step.r, n, g)
    ensures step.Go? ==>
      && ip < step.ip <= |j.src| && j.dst <= step.op && step.op + MFLIMIT <= j.oend && step.nibble < 16
      && AtLiteralsOf(j, buf[..], step.ip, step.op, step.nibble, 0, n, g, u)
  {
    hide DecodeOnto, LiteralsOnto, ReadLength;
    if ip >= |j.src| {
      EndWithoutToken(j, buf[..], ip, op, n, g, u);
      return Stop(Overread);
    }
    var token := j.src[ip] as int;
    var ok, ll, p := ReadNibbleLength(j.src, ip + 1, token / 16, n);
    TokenTaken(j, buf[..], ip, op, n, g, ok, ll, p, u);
    if !ok {
      return Stop(Overread);
    }
    LiteralsTaken(j, buf[..], p, op, token % 16, ll, n, g, u);
    if j.oend - op < ll {
      return Stop(Rejected);
    }
    if p + ll > |j.src| {
      return Stop(Overread);
    }
    ghost var b := buf[..];
    CopyFrom(buf, op, j.src, p, ll);
    if j.oend - (op + ll) < MFLIMIT {
      if op + ll == j.oend {
        if p + ll == n {
          BlockTaken(j, b, buf[..], p, op, token % 16, ll, n, g, u);
        }
        return Stop(Read(p + ll));
      }
      return Stop(Rejected);
    }
    LiteralsMoved(j, b, buf[..], p, op, token % 16, ll, n, g, u);
    step := Go(p + ll, op + ll, token % 16);
  }

  /** Offset, match length and match. */
  method TakeMatch(buf: array<byte>, j: Job, ip: nat, op: nat, nibble: nat, ghost n: nat, ghost g: Decoded,
                   ghost u: seq<byte>)
    returns (step: Step)
    requires AtLiteralsOf(j, buf[..], ip, op, nibble, 0, n, g, u) && op + MFLIMIT <= j.oend && nibble < 16
    modifies buf
    ensures SameOutside(old(buf[..]), buf[..], j.dst, j.oend)
    ensures step.Stop? ==> Settled(j, buf[..], step.r, n, g)
    ensures step.Go? ==> ip < step.ip <= |j.src| && OnTrack(j, buf[..], step.ip, step.op, n, g, u)
  {
    hide DecodeOnto, LiteralsOnto, ReadLength, CopyOnto;
    LiteralsTaken(j, buf[..], ip, op, nibble, 0, n, g, u);
    if ip + 2 > |j.src| {
      return Stop(Overread);
    }
    var offset := Read16(j.src, ip);
    var ok, mc, q := ReadNibbleLength(j.src, ip + 2, nibble, n);
    if ip + 2 <= n {
      MatchTaken(j, buf[..], ip, op, nibble, n, g, ok, mc, q, u);
    }
    if !ok {
      return Stop(Overread);
    }
    var ml := mc + MINMATCH;
    if j.oend - op < ml || offset > op - j.lo + |j.dict| {
      return Stop(Rejected);
    }
    CopyBytewise(j, buf, op, offset, ml, u);
    if j.oend - (op + ml) < LASTLITERALS {
      return Stop(Rejected);
    }
    step := Go(q, op + ml, nibble);
  }

  /** LZ4_decompress_unsafe_generic. For any `n`, it reads exactly the `n` bytes of a block if and only if that
      block conforms and has the announced size. The output is its meaning on top of the old buffer, which is
      the meaning of the format exactly when every match of offset 0 falls on zero bytes. */
  method DecompressUnsafe(buf: array<byte>, j: Job, ghost n: nat) returns (r: Outcome)
    requires j.Valid(buf.Length) && n <= |j.src|
    modifies buf
    ensures SameOutside(old(buf[..]), buf[..], j.dst, j.oend)
    ensures var v, u := old(j.View(buf[..], j.dst)), old(j.View(buf[..], j.oend));
      var g := Decode(j.src[..n], 0, v);
      && (r == Read(n) <==> g.Decoded? && g.conforming && |g.out| == j.Limit())
      && (r == Read(n) ==> DecodeOnto(j.src[..n], 0, v, u) == Decoded(j.View(buf[..], j.oend), true))
      && (r == Read(n) ==> (g.out == j.View(buf[..], j.oend) <==> ZerosUnder(j.src[..n], 0, |v|, u)))
  {
    hide Decode, DecodeOnto, AtLiteralsOf, ZerosUnder;
    ghost var v, u := j.View(buf[..], j.dst), j.View(buf[..], j.oend);
    ghost var g := DecodeOnto(j.src[..n], 0, v, u);
    ShapeFromLengths(j.src[..n], 0, v, v, u);
    if Good(g, j.Limit()) {
      SameMeaning(j.src[..n], 0, v, u);
    }
    var step := Go(0, j.dst, 0);
    while true
      invariant step.Go? && step.ip <= |j.src| && OnTrack(j, buf[..], step.ip, step.op, n, g, u)
      invariant SameOutside(old(buf[..]), buf[..], j.dst, j.oend)
      decreases if step.Go? then |j.src| - step.ip else 0
    {
      step := TakeLiterals(buf, j, step.ip, step.op, n, g, u);
      if step.Stop? {
        return step.r;
      }
      step := TakeMatch(buf, j, step.ip, step.op, step.nibble, n, g, u);
      if step.Stop? {
        return step.r;
      }
    }
  }

  lemma EndWithoutToken(j: Job, b: seq<byte>, ip: nat, op: nat, n: nat, g: Decoded, u: seq<byte>)
    requires OnTrack(j, b, ip, op, n, g, u) && ip >= |j.src|
    ensures !Good(g, j.Limit())
  {}

  /** The two decoders, run on the same block with the same history: what the byte-by-byte decoder accepts
      the safe decoder accepts too, unless there is no room at all and the block is not the single byte 0.
      When both accept, the bytes are the same exactly when every match of offset 0 falls on zero bytes. */
  method DecodersAgree(buf: array<byte>, buf': array<byte>, j: Job) returns (r: Outcome, result: int)
    requires buf != buf' && buf[..] == buf'[..] && j.Valid(buf.Length)
    modifies buf, buf'
    ensures r == Read(|j.src|) ==> (result == j.oend - j.dst <==> j.dst < j.oend || j.src == [0])
    ensures r == Read(|j.src|) && result >= 0 ==>
      (buf[j.dst..j.oend] == buf'[j.dst..j.oend]
       <==> ZerosUnder(j.src, 0, |j.dict| + j.dst - j.lo, old(j.View(buf[..], j.oend))))
    ensures r == Read(|j.src|) && result >= 0 && NonzeroOffsets(j.src, 0) ==> buf[j.dst..j.oend] == buf'[j.dst..j.oend]
  {
    hide Decode, DecodeOnto, ZerosUnder, NonzeroOffsets, Takes;
    assert j.src[..|j.src|] == j.src;
    ghost var b0, v := buf[..], j.View(buf[..], j.dst);
    if NonzeroOffsets(j.src, 0) {
      NonzeroOffsetsSuffice(j.src, 0, |v|, j.View(b0, j.oend));
    }
    r := DecompressUnsafe(buf, j, |j.src|);
    result := Decompress(buf', j);
    if r == Read(|j.src|) && result >= 0 {
      assert result == j.oend - j.dst;
      OutputFollows(j, b0, buf[..], j.oend);
      OutputFollows(j, b0, buf'[..], j.oend);
      SameTail(v, buf[j.dst..j.oend], buf'[j.dst..j.oend]);
    }
  }

  lemma SameTail(v: seq<byte>, a: seq<byte>, b: seq<byte>)
    ensures v + a == v + b <==> a == b
  {
    assert (v + a)[|v|..] == a && (v + b)[|v|..] == b;
  }
}
