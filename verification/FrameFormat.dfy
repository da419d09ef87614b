/**
 The LZ4 frame format: what the bytes of a stream mean, from any point of a frame on.
 The 32-bit checksum is any function of the bytes it covers.
 */
module FrameFormat {
  import opened Bytes
  import opened BlockFormat
  import opened HistoryWindow
  import opened Placement

  const MAGIC := 0x184D2204
  const SKIPPABLE := 0x184D2A5
  const MIN_HEADER := 7
  const MAX_HEADER := 19
  const UNCOMPRESSED_FLAG := 0x8000_0000

  type Hash = seq<byte> -> nat

  datatype FrameInfo = FrameInfo(
    linked: bool, blockChecksum: bool, contentChecksum: bool, blockSizeID: nat, contentSize: nat, dictID: nat)
  {
    ghost predicate Valid() {
      4 <= blockSizeID <= 7 && contentSize < TWO64 && dictID < 0x1_0000_0000
    }

    function MaxBlockSize(): (n: nat)
      ensures n >= KB64
    {
      BlockSize(blockSizeID)
    }

    function CrcSize(): nat {
      if blockChecksum then 4 else 0
    }
  }

  /** LZ4F_getBlockSize. */
  function BlockSize(id: nat): (n: nat)
    ensures n >= KB64
  {
    if id <= 4 then 64 * 1024
    else if id == 5 then 256 * 1024
    else if id == 6 then 1024 * 1024
    else 4 * 1024 * 1024
  }

  // --- The header ---

  datatype Header = HeaderShort | HeaderBad | HeaderSkippable | HeaderOk(info: FrameInfo, size: nat)

  function Bit(v: int, k: nat): int
    requires v >= 0
  {
    (v / (if k == 0 then 1 else if k == 1 then 2 else if k == 2 then 4 else if k == 3 then 8
          else if k == 4 then 16 else if k == 5 then 32 else if k == 6 then 64 else 128)) % 2
  }

  function HeaderSizeOf(flg: byte): nat {
    MIN_HEADER + (if Bit(flg as int, 3) == 1 then 8 else 0) + (if Bit(flg as int, 0) == 1 then 4 else 0)
  }

  /** LZ4F_headerChecksum. */
  function HeaderChecksum(xxh: Hash, s: seq<byte>): nat {
    xxh(s) / 256 % 256
  }

  /** The fields of a complete header that starts at `i`. */
  function HeaderInfo(s: seq<byte>, i: nat): FrameInfo
    requires i + MIN_HEADER <= |s| && i + HeaderSizeOf(s[i + 4]) <= |s|
  {
    var flg, size := s[i + 4] as int, HeaderSizeOf(s[i + 4]);
    FrameInfo(Bit(flg, 5) == 0, Bit(flg, 4) == 1, Bit(flg, 2) == 1, s[i + 5] as int / 16 % 8,
              if Bit(flg, 3) == 1 then ReadLE64(s, i + 6) else 0,
              if Bit(flg, 0) == 1 then ReadLE32(s, i + size - 5) else 0)
  }

  function ParseHeader(xxh: Hash, s: seq<byte>, i: nat): (h: Header)
    ensures h.HeaderOk? ==> MIN_HEADER <= h.size <= MAX_HEADER && i + h.size <= |s| && h.info.Valid()
    ensures h.HeaderSkippable? ==> i + MIN_HEADER <= |s|
  {
    if i + MIN_HEADER > |s| then HeaderShort
    else if ReadLE32(s, i) / 16 == SKIPPABLE then HeaderSkippable
    else if ReadLE32(s, i) != MAGIC then HeaderBad
    else
      var flg, size := s[i + 4] as int, HeaderSizeOf(s[i + 4]);
      if Bit(flg, 1) != 0 || flg / 64 != 1 then HeaderBad
      else if i + size > |s| then HeaderShort
      else
        var bd := s[i + 5] as int;
        if Bit(bd, 7) != 0 || bd / 16 % 8 < 4 || bd % 16 != 0 then HeaderBad
        else if HeaderChecksum(xxh, s[i + 4..i + size - 1]) != s[i + size - 1] as int then HeaderBad
        else HeaderOk(HeaderInfo(s, i), size)
  }

  /** A header is decided by its first bytes: seven to know its size, then all of it. */
  lemma ParsePrefix(xxh: Hash, s: seq<byte>, i: nat, src: seq<byte>)
    requires MIN_HEADER <= |src| && i + |src| <= |s| && src == s[i..i + |src|]
    ensures !ParseHeader(xxh, src, 0).HeaderShort? ==> ParseHeader(xxh, src, 0) == ParseHeader(xxh, s, i)
    ensures ParseHeader(xxh, src, 0).HeaderShort? ==>
      |src| < HeaderSizeOf(src[4]) <= MAX_HEADER && ReadLE32(src, 0) / 16 != SKIPPABLE
    ensures ParseHeader(xxh, src, 0).HeaderSkippable? ==> ReadLE32(src, 0) / 16 == SKIPPABLE
    ensures ParseHeader(xxh, src, 0).HeaderOk? ==> ParseHeader(xxh, src, 0).size == HeaderSizeOf(src[4])
  {
    hide ReadLE32, HeaderSizeOf, HeaderInfo, HeaderChecksum, Bit;
    var size := HeaderSizeOf(src[4]);
    assert src[4] == s[i + 4] && src[5] == s[i + 5];
    SameField(s, i, src, 0);
    HeaderSizes(src[4]);
    if size <= |src| {
      SubSlice(s, i, |src|, 4, size - 1);
      SameInfo(s, i, src);
    }
  }

  lemma HeaderSizes(flg: byte)
    ensures MIN_HEADER <= HeaderSizeOf(flg) <= MAX_HEADER
  {}

  lemma SameField(s: seq<byte>, i: nat, src: seq<byte>, k: nat)
    requires k + 4 <= |src| && i + |src| <= |s| && src == s[i..i + |src|]
    ensures ReadLE32(src, k) == ReadLE32(s, i + k)
  {}

  lemma SameInfo(s: seq<byte>, i: nat, src: seq<byte>)
    requires MIN_HEADER <= |src| && HeaderSizeOf(src[4]) <= |src| && i + |src| <= |s| && src == s[i..i + |src|]
    ensures src[4] == s[i + 4] && HeaderInfo(src, 0) == HeaderInfo(s, i)
  {
    hide ReadLE32, Bit;
    var size := HeaderSizeOf(src[4]);
    assert src[4] == s[i + 4] && src[5] == s[i + 5];
    if Bit(src[4] as int, 3) == 1 {
      SameField(s, i, src, 6);
      SameField(s, i, src, 10);
    }
    if Bit(src[4] as int, 0) == 1 {
      SameField(s, i, src, size - 5);
    }
  }

  // --- The meaning of the rest of a frame ---

  /** `end` is the position after the frame; all its blocks are taken `always`, wherever the history is kept, or at
      least `ever`. */
  datatype Meaning = Bad | Short | Frame(content: seq<byte>, end: nat, always: bool, ever: bool)

  /** What does not change within a frame: hash, header fields, the user's dictionary, the stream. */
  datatype Env = Env(xxh: Hash, info: FrameInfo, user: seq<byte>, s: seq<byte>)
  {
    /** The history a compressed block may refer to after `out` has been produced. */
    function Hist(out: seq<byte>): seq<byte> {
      if info.linked then user + out else user
    }
  }

  function FrameFrom(xxh: Hash, user: seq<byte>, s: seq<byte>, i: nat): (m: Meaning)
    ensures m.Frame? ==> i + MIN_HEADER <= m.end <= |s|
  {
    match ParseHeader(xxh, s, i)
    case HeaderShort => Short
    case HeaderBad => Bad
    case HeaderSkippable => SkipSizeFrom(s, i + 4)
    case HeaderOk(info, size) => BlocksFrom(Env(xxh, info, user, s), i + size, [])
  }

  lemma FrameByHeader(xxh: Hash, user: seq<byte>, s: seq<byte>, i: nat)
    ensures ParseHeader(xxh, s, i).HeaderBad? ==> FrameFrom(xxh, user, s, i) == Bad
    ensures ParseHeader(xxh, s, i).HeaderSkippable? ==> FrameFrom(xxh, user, s, i) == SkipSizeFrom(s, i + 4)
    ensures ParseHeader(xxh, s, i).HeaderOk? ==>
      FrameFrom(xxh, user, s, i) ==
      BlocksFrom(Env(xxh, ParseHeader(xxh, s, i).info, user, s), i + ParseHeader(xxh, s, i).size, [])
  {}

  function SkipSizeFrom(s: seq<byte>, i: nat): (m: Meaning)
    ensures m.Frame? ==> i + 4 <= m.end <= |s|
  {
    if i + 4 > |s| then Short else SkipFrom(s, i + 4, ReadLE32(s, i))
  }

  function SkipFrom(s: seq<byte>, i: nat, left: nat): (m: Meaning)
    ensures m.Frame? ==> i + left <= m.end <= |s|
  {
    if i + left > |s| then Short else Frame([], i + left, true, true)
  }

  /** At a block header. */
  function BlocksFrom(e: Env, i: nat, out: seq<byte>): (m: Meaning)
    ensures m.Frame? ==> i + 4 <= m.end <= |e.s|
    ensures m.Frame? ==> out <= m.content
    decreases |e.s| - i, 0
  {
    if i + 4 > |e.s| then Short
    else BlockFrom(e, i + 4, ReadLE32(e.s, i), out)
  }

  /** After a block header. */
  function BlockFrom(e: Env, i: nat, header: nat, out: seq<byte>): (m: Meaning)
    ensures m.Frame? && i <= |e.s| ==> i <= m.end <= |e.s|
    ensures m.Frame? ==> out <= m.content
    decreases |e.s| - i, 4
  {
    if header == 0 then SuffixFrom(e, i, out)
    else if header % UNCOMPRESSED_FLAG > e.info.MaxBlockSize() then Bad
    else if header >= UNCOMPRESSED_FLAG then StoredFrom(e, i, header % UNCOMPRESSED_FLAG, [], out)
    else CompressedFrom(e, i, header, out)
  }

  /** Inside a stored block: `seen` of it are past, `left` are to come. */
  function StoredFrom(e: Env, i: nat, left: nat, seen: seq<byte>, out: seq<byte>): (m: Meaning)
    ensures m.Frame? ==> i + left + e.info.CrcSize() + 4 <= m.end <= |e.s|
    ensures m.Frame? ==> out <= m.content
    decreases |e.s| - i, 3
  {
    if i + left > |e.s| then Short
    else StoredChecksumFrom(e, i + left, seen + e.s[i..i + left], out + e.s[i..i + left])
  }

  function StoredChecksumFrom(e: Env, i: nat, seen: seq<byte>, out: seq<byte>): (m: Meaning)
    ensures m.Frame? ==> i + e.info.CrcSize() + 4 <= m.end <= |e.s|
    ensures m.Frame? ==> out <= m.content
    decreases |e.s| - i, 2
  {
    if !e.info.blockChecksum then BlocksFrom(e, i, out)
    else if i + 4 > |e.s| then Short
    else if ReadLE32(e.s, i) != e.xxh(seen) then Bad
    else BlocksFrom(e, i + 4, out)
  }

  /** At a compressed block of `size` bytes, its checksum behind it. */
  function CompressedFrom(e: Env, i: nat, size: nat, out: seq<byte>): (m: Meaning)
    ensures m.Frame? ==> i + size + e.info.CrcSize() + 4 <= m.end <= |e.s|
    ensures m.Frame? ==> out <= m.content
    decreases |e.s| - i, 3
  {
    if i + size + e.info.CrcSize() > |e.s| then Short
    else if e.info.blockChecksum && ReadLE32(e.s, i + size) != e.xxh(e.s[i..i + size]) then Bad
    else DecodedFrom(e, i + size + e.info.CrcSize(), e.s[i..i + size], out)
  }

  /** With a complete compressed block in hand. */
  function DecodedFrom(e: Env, i: nat, block: seq<byte>, out: seq<byte>): (m: Meaning)
    ensures m.Frame? ==> i + 4 <= m.end <= |e.s|
    ensures m.Frame? ==> out <= m.content
    decreases |e.s| - i, 2
  {
    var h := e.Hist(out);
    match Decode(block, 0, h)
    case Corrupt => Bad
    case Decoded(o, _) =>
      var max := e.info.MaxBlockSize();
      if |o| - |h| > max then Bad
      else AndTaken(BlocksFrom(e, i, out + o[|h|..]), TakenAlways(block, h, max), TakenEver(block, h, max))
  }

  function AndTaken(r: Meaning, always: bool, ever: bool): Meaning {
    if r.Frame? then r.(always := r.always && always, ever := r.ever && ever) else r
  }

  /** After the end mark. */
  function SuffixFrom(e: Env, i: nat, out: seq<byte>): (m: Meaning)
    ensures m.Frame? && i <= |e.s| ==> i <= m.end <= |e.s|
    ensures m.Frame? ==> out <= m.content
  {
    if e.info.contentSize != 0 && (e.info.contentSize - |out|) % TWO64 != 0 then Bad
    else if !e.info.contentChecksum then Frame(out, i, true, true)
    else ContentChecksumFrom(e, i, out)
  }

  function ContentChecksumFrom(e: Env, i: nat, out: seq<byte>): (m: Meaning)
    ensures m.Frame? ==> i + 4 <= m.end <= |e.s|
    ensures m.Frame? ==> out <= m.content
  {
    if i + 4 > |e.s| then Short
    else if ReadLE32(e.s, i) != e.xxh(out) then Bad
    else Frame(out, i + 4, true, true)
  }

  /** The frame means `m` if the rest of it means `r`, and the blocks before that have been taken. */
  ghost predicate Leads(m: Meaning, r: Meaning) {
    && (m.Bad? <==> r.Bad?) && (m.Short? <==> r.Short?)
    && (m.Frame? ==> m.content == r.content && m.end == r.end && (m.always ==> r.always) && (r.ever ==> m.ever))
  }

  lemma LeadsBad(m: Meaning)
    ensures Leads(m, Bad) ==> !Acceptable(m)
  {}

  ghost predicate Acceptable(m: Meaning) {
    m.Frame? && m.always
  }

  /** A stored block can be taken in any pieces. */
  lemma StoredPiece(e: Env, i: nat, left: nat, seen: seq<byte>, out: seq<byte>, k: nat)
    requires k <= left && i + k <= |e.s|
    ensures StoredFrom(e, i, left, seen, out)
      == StoredFrom(e, i + k, left - k, seen + e.s[i..i + k], out + e.s[i..i + k])
  {
    hide BlocksFrom, StoredChecksumFrom;
    if i + left <= |e.s| {
      assert e.s[i..i + left] == e.s[i..i + k] + e.s[i + k..i + left];
      assert seen + e.s[i..i + left] == (seen + e.s[i..i + k]) + e.s[i + k..i + left];
      assert out + e.s[i..i + left] == (out + e.s[i..i + k]) + e.s[i + k..i + left];
    }
  }

  /** Without block checksums it does not matter what was hashed. */
  lemma SeenIrrelevant(e: Env, i: nat, left: nat, seen: seq<byte>, seen': seq<byte>, out: seq<byte>)
    requires e.info.blockChecksum ==> seen == seen'
    ensures StoredFrom(e, i, left, seen, out) == StoredFrom(e, i, left, seen', out)
  {}

  lemma StoredDone(e: Env, i: nat, seen: seq<byte>, out: seq<byte>)
    requires i <= |e.s|
    ensures StoredFrom(e, i, 0, seen, out) == StoredChecksumFrom(e, i, seen, out)
  {
    hide BlocksFrom, StoredChecksumFrom;
    assert seen + e.s[i..i + 0] == seen && out + e.s[i..i + 0] == out;
  }

  /** A block decoded behind a window of the history continues the frame. */
  lemma BlockDecoded(e: Env, i: nat, block: seq<byte>, out: seq<byte>, d: seq<byte>, b: seq<byte>, m: Meaning)
    requires Window(d, e.Hist(out)) && Decode(block, 0, d).Decoded? && Decode(block, 0, d).out == d + b
    requires |b| <= e.info.MaxBlockSize() && Leads(m, DecodedFrom(e, i, block, out))
    requires TakenEver(block, d, e.info.MaxBlockSize())
    ensures Leads(m, BlocksFrom(e, i, out + b))
  {
    hide BlocksFrom, Decode, Window, FrameInfo.MaxBlockSize, TakenAlways, TakenEver;
    var h := e.Hist(out);
    WindowDecodes(block, d, h);
    SameWindow(block, d, h, e.info.MaxBlockSize());
    assert (d + b)[|d|..] == b && (h + b)[|h|..] == b;
  }

  /** A block that is refused behind a window of the history makes the frame unacceptable. */
  lemma BlockRefused(e: Env, i: nat, block: seq<byte>, out: seq<byte>, d: seq<byte>, m: Meaning)
    requires Window(d, e.Hist(out)) && Leads(m, DecodedFrom(e, i, block, out))
    requires !TakenAlways(block, d, e.info.MaxBlockSize())
    ensures !Acceptable(m)
  {
    hide BlocksFrom, Decode, Window, FrameInfo.MaxBlockSize, TakenAlways, TakenEver;
    SameWindow(block, d, e.Hist(out), e.info.MaxBlockSize());
  }

  // --- What holds of every frame ---

  /** Blocks of 256 KB and more, and those without any history: where the history lies makes no difference. */
  predicate PlaceIrrelevant(info: FrameInfo, user: seq<byte>) {
    info.blockSizeID > 4 || (!info.linked && user == [])
  }

  /** One block: it is the end mark, or more blocks follow it. */
  lemma OneBlock(e: Env, i: nat, out: seq<byte>)
    returns (last: bool, i': nat, out': seq<byte>, always: bool, ever: bool)
    requires BlocksFrom(e, i, out).Frame?
    ensures last ==> BlocksFrom(e, i, out) == SuffixFrom(e, i + 4, out)
    ensures !last ==> i < i' <= |e.s| && BlocksFrom(e, i, out) == AndTaken(BlocksFrom(e, i', out'), always, ever)
    ensures (always ==> ever) && (PlaceIrrelevant(e.info, e.user) ==> always == ever)
  {
    hide BlocksFrom, SuffixFrom, Decode, ReadLE32, TakenAlways, TakenEver;
    var m, header := BlockFrom(e, i + 4, ReadLE32(e.s, i), out), ReadLE32(e.s, i);
    assert i + 4 <= |e.s| && BlocksFrom(e, i, out) == m by { AfterHeader(e, i, out); }
    last, i', out', always, ever := header == 0, i + 4, out, true, true;
    if header >= UNCOMPRESSED_FLAG {
      var n := header % UNCOMPRESSED_FLAG;
      i', out' := i + 4 + n + e.info.CrcSize(), out + e.s[i + 4..i + 4 + n];
      assert m == StoredFrom(e, i + 4, n, [], out);
    } else if header > 0 {
      var h, max := e.Hist(out), e.info.MaxBlockSize();
      var block := e.s[i + 4..i + 4 + header];
      i', always, ever := i + 4 + header + e.info.CrcSize(), TakenAlways(block, h, max), TakenEver(block, h, max);
      assert m == CompressedFrom(e, i + 4, header, out) == DecodedFrom(e, i', block, out);
      out' := out + Decode(block, 0, h).out[|h|..];
      AlwaysIsEver(block, h, max);
      if PlaceIrrelevant(e.info, e.user) {
        SamePlace(block, h, max);
      }
    }
  }

  lemma AfterHeader(e: Env, i: nat, out: seq<byte>)
    requires BlocksFrom(e, i, out).Frame?
    ensures i + 4 <= |e.s| && BlocksFrom(e, i, out) == BlockFrom(e, i + 4, ReadLE32(e.s, i), out)
  {
    hide BlockFrom;
  }

  /** An announced size is the size of the content, modulo 2^64; 0 announces nothing. */
  lemma {:induction false} BlocksSize(e: Env, i: nat, out: seq<byte>)
    requires BlocksFrom(e, i, out).Frame? && 0 < e.info.contentSize < TWO64
    ensures |BlocksFrom(e, i, out).content| % TWO64 == e.info.contentSize
    decreases |e.s| - i
  {
    hide BlocksFrom;
    var last, i', out', always, ever := OneBlock(e, i, out);
    if !last {
      BlocksSize(e, i', out');
    }
  }

  lemma AnnouncedSize(xxh: Hash, user: seq<byte>, s: seq<byte>, i: nat)
    requires FrameFrom(xxh, user, s, i).Frame? && ParseHeader(xxh, s, i).HeaderOk?
    ensures var n := ParseHeader(xxh, s, i).info.contentSize;
      n != 0 ==> |FrameFrom(xxh, user, s, i).content| % TWO64 == n
  {
    hide BlocksFrom, ParseHeader;
    var HeaderOk(info, size) := ParseHeader(xxh, s, i);
    if info.contentSize != 0 {
      BlocksSize(Env(xxh, info, user, s), i + size, []);
    }
  }

  lemma {:induction false} BlocksAlways(e: Env, i: nat, out: seq<byte>)
    requires BlocksFrom(e, i, out).Frame?
    ensures BlocksFrom(e, i, out).always ==> BlocksFrom(e, i, out).ever
    ensures PlaceIrrelevant(e.info, e.user) ==> BlocksFrom(e, i, out).always == BlocksFrom(e, i, out).ever
    decreases |e.s| - i
  {
    hide BlocksFrom;
    var last, i', out', always, ever := OneBlock(e, i, out);
    if !last {
      BlocksAlways(e, i', out');
    }
  }

  /** So whether such a frame is accepted does not depend on how it is cut. */
  lemma FrameAlways(xxh: Hash, user: seq<byte>, s: seq<byte>, i: nat)
    requires FrameFrom(xxh, user, s, i).Frame?
    ensures FrameFrom(xxh, user, s, i).always ==> FrameFrom(xxh, user, s, i).ever
    ensures ParseHeader(xxh, s, i).HeaderOk? && PlaceIrrelevant(ParseHeader(xxh, s, i).info, user) ==>
      FrameFrom(xxh, user, s, i).always == FrameFrom(xxh, user, s, i).ever
  {
    hide BlocksFrom, ParseHeader;
    match ParseHeader(xxh, s, i)
    case HeaderSkippable =>
    case HeaderOk(info, size) => BlocksAlways(Env(xxh, info, user, s), i + size, []);
    case _ =>
  }

  /** A skippable frame ends where its size says. */
  lemma SkippableEnd(xxh: Hash, user: seq<byte>, s: seq<byte>, i: nat)
    requires FrameFrom(xxh, user, s, i).Frame? && i + 4 <= |s| && ReadLE32(s, i) / 16 == SKIPPABLE
    ensures i + 8 <= |s| && FrameFrom(xxh, user, s, i).end == i + 8 + ReadLE32(s, i + 4)
  {
    hide BlocksFrom, ReadLE32;
  }

  lemma AfterStored(e: Env, i: nat, left: nat, seen: seq<byte>, out: seq<byte>) returns (o: seq<byte>)
    requires StoredFrom(e, i, left, seen, out).Frame?
    ensures StoredFrom(e, i, left, seen, out) == BlocksFrom(e, i + left + e.info.CrcSize(), o)
  {
    hide BlocksFrom, ReadLE32;
    o := out + e.s[i..i + left];
  }

  lemma AfterCompressed(e: Env, i: nat, size: nat, out: seq<byte>) returns (o: seq<byte>)
    requires CompressedFrom(e, i, size, out).Frame?
    ensures var m, r := CompressedFrom(e, i, size, out), BlocksFrom(e, i + size + e.info.CrcSize(), o);
      r.Frame? && r.end == m.end && r.content == m.content
  {
    hide BlocksFrom, ReadLE32, Decode, TakenAlways, TakenEver;
    var h := e.Hist(out);
    o := out + Decode(e.s[i..i + size], 0, h).out[|h|..];
  }

  /** After the last block there are four bytes, or eight; otherwise more. */
  lemma BlocksEnd(e: Env, i: nat, out: seq<byte>)
    requires BlocksFrom(e, i, out).Frame?
    ensures i + 4 <= |e.s|
    ensures BlocksFrom(e, i, out).end < i + 8 <==> ReadLE32(e.s, i) == 0 && !e.info.contentChecksum
  {
    hide ReadLE32, StoredFrom, CompressedFrom;
  }

  /** A frame that is not skippable is longer than its header. */
  lemma LongerThanHeader(xxh: Hash, user: seq<byte>, s: seq<byte>, i: nat)
    requires FrameFrom(xxh, user, s, i).Frame? && i + 4 <= |s| && ReadLE32(s, i) / 16 != SKIPPABLE
    ensures i + MIN_HEADER <= |s| && i + HeaderSizeOf(s[i + 4]) + 4 <= FrameFrom(xxh, user, s, i).end
  {
    hide BlocksFrom, Bit;
  }
}
