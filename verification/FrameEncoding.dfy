/** The bytes of a frame as the encoder writes them, and why they mean what was encoded. */
module FrameEncoding {
  import opened Bytes
  import opened BlockFormat
  import opened Placement
  import opened FrameFormat

  /** LZ4F_writeLE32. */
  function Write32(v: nat): (s: seq<byte>)
    requires v < 0x1_0000_0000
    ensures |s| == 4 && ReadLE32(s, 0) == v
  {
    var lo, hi := v % 65536, v / 65536;
    var a, b := Write16(lo), Write16(hi);
    assert v == lo + 65536 * hi;
    assert (a + b)[0] == a[0] && (a + b)[1] == a[1] && (a + b)[2] == b[0] && (a + b)[3] == b[1];
    a + b
  }

  /** LZ4F_writeLE64. */
  function Write64(v: nat): (s: seq<byte>)
    requires v < TWO64
    ensures |s| == 8 && ReadLE64(s, 0) == v
  {
    Write32(v % 0x1_0000_0000) + Write32(v / 0x1_0000_0000)
  }

  /** The FLG byte. */
  function FlagByte(info: FrameInfo): (b: byte)
    ensures Bit(b as int, 1) == 0 && b as int / 64 == 1
    ensures Bit(b as int, 5) == 0 <==> info.linked
    ensures Bit(b as int, 4) == 1 <==> info.blockChecksum
    ensures Bit(b as int, 3) == 1 <==> info.contentSize > 0
    ensures Bit(b as int, 2) == 1 <==> info.contentChecksum
    ensures Bit(b as int, 0) == 1 <==> info.dictID > 0
  {
    (64 + (if info.linked then 0 else 32) + (if info.blockChecksum then 16 else 0)
     + (if info.contentSize > 0 then 8 else 0) + (if info.contentChecksum then 4 else 0)
     + (if info.dictID > 0 then 1 else 0)) as byte
  }

  /** What the header checksum covers. */
  function Descriptor(info: FrameInfo): (d: seq<byte>)
    requires info.Valid()
    ensures |d| == HeaderSizeOf(FlagByte(info)) - 5
  {
    [FlagByte(info), (info.blockSizeID * 16) as byte]
    + (if info.contentSize > 0 then Write64(info.contentSize) else [])
    + (if info.dictID > 0 then Write32(info.dictID) else [])
  }

  function HeaderBytes(xxh: Hash, info: FrameInfo): (s: seq<byte>)
    requires info.Valid()
    ensures MIN_HEADER <= |s| == HeaderSizeOf(FlagByte(info)) <= MAX_HEADER
  {
    Write32(MAGIC) + Descriptor(info) + [HeaderChecksum(xxh, Descriptor(info)) as byte]
  }

  lemma DescriptorFields(info: FrameInfo)
    requires info.Valid()
    ensures var d := Descriptor(info); var n := |d|;
      && d[0] == FlagByte(info) && d[1] as int == info.blockSizeID * 16
      && (info.contentSize > 0 ==> n >= 10 && ReadLE64(d, 2) == info.contentSize)
      && (info.dictID > 0 ==> n >= 6 && ReadLE32(d, n - 4) == info.dictID)
  {
    hide FlagByte, Write32, Write64, ReadLE32;
    var d := Descriptor(info);
    var a := [FlagByte(info), (info.blockSizeID * 16) as byte];
    if info.contentSize > 0 {
      var w := Write64(info.contentSize);
      assert d[2..10] == w;
      FieldInSlice(d, 2);
      FieldInSlice(d, 6);
      FieldInSlice(w, 0);
      FieldInSlice(w, 4);
      assert d[2..6] == w[0..4] && d[6..10] == w[4..8];
    }
    if info.dictID > 0 {
      var w := Write32(info.dictID);
      assert d[|d| - 4..] == w;
      FieldInSlice(d, |d| - 4);
      assert d[|d| - 4..|d| - 4 + 4] == w;
    }
  }

  /** Every header the encoder writes is recovered, whatever follows it. */
  lemma HeaderRoundTrip(xxh: Hash, info: FrameInfo, t: seq<byte>)
    requires info.Valid()
    ensures ParseHeader(xxh, HeaderBytes(xxh, info) + t, 0) == HeaderOk(info, |HeaderBytes(xxh, info)|)
  {
    hide FlagByte, Write32, Write64, ReadLE32, Descriptor, Bit, HeaderSizeOf;
    var d, n := Descriptor(info), |HeaderBytes(xxh, info)|;
    var s := HeaderBytes(xxh, info) + t;
    assert s[..4] == Write32(MAGIC) && s[4..n - 1] == d;
    FieldInPrefix(s, 4);
    DescriptorFields(info);
    assert s[4] == d[0] && s[5] == d[1];
    assert s[n - 1] as int == HeaderChecksum(xxh, d);
    HeaderFields(s, info, d);
  }

  lemma HeaderFields(s: seq<byte>, info: FrameInfo, d: seq<byte>)
    requires info.Valid() && |d| >= 2 && |d| + 5 <= |s| && |d| + 5 == HeaderSizeOf(FlagByte(info)) && s[4..|d| + 4] == d
    requires d[0] == FlagByte(info) && d[1] as int == info.blockSizeID * 16
    requires info.contentSize > 0 ==> |d| >= 10 && ReadLE64(d, 2) == info.contentSize
    requires info.dictID > 0 ==> |d| >= 6 && ReadLE32(d, |d| - 4) == info.dictID
    ensures |s| >= MIN_HEADER && s[4] == d[0] && s[5] == d[1]
    ensures HeaderInfo(s, 0) == info && Bit(s[5] as int, 7) == 0 && s[5] as int / 16 % 8 == info.blockSizeID
  {
    hide FlagByte, HeaderSizeOf;
    assert s[4] == d[0] && s[5] == d[1];
    if info.contentSize > 0 {
      assert forall k :: 6 <= k < 14 ==> s[k] == d[k - 4];
    }
    if info.dictID > 0 {
      assert forall k :: |d| <= k < |d| + 4 ==> s[k] == d[k - 4];
    }
  }

  // --- The header's size ---

  datatype SizeResult = SizeUnknown | SizeError | SizeIs(size: nat)

  /** LZ4F_headerSize. */
  function HeaderSize(src: seq<byte>): SizeResult {
    if |src| < 5 then SizeUnknown
    else if ReadLE32(src, 0) / 16 == SKIPPABLE then SizeIs(8)
    else if ReadLE32(src, 0) != MAGIC then SizeError
    else SizeIs(HeaderSizeOf(src[4]))
  }

  /** Five bytes tell the size of every header the decoder accepts, and of a skippable frame's. */
  lemma HeaderSizeFromFive(xxh: Hash, s: seq<byte>)
    requires |s| >= MIN_HEADER
    ensures ParseHeader(xxh, s, 0).HeaderOk? ==> HeaderSize(s[..5]) == SizeIs(ParseHeader(xxh, s, 0).size)
    ensures ParseHeader(xxh, s, 0).HeaderSkippable? ==> HeaderSize(s[..5]) == SizeIs(8)
    ensures HeaderSize(s[..5]).SizeError? ==> ParseHeader(xxh, s, 0).HeaderBad?
    ensures ParseHeader(xxh, s, 0).HeaderShort? ==> HeaderSize(s[..5]).SizeIs? && |s| < HeaderSize(s[..5]).size
  {
    hide Bit, ReadLE32;
    FieldInPrefix(s, 5);
  }

  // --- Blocks ---

  /** Every stream that starts with `s` is a frame with these fields whose blocks, up to here, hold `out`. */
  ghost predicate Reaches(xxh: Hash, info: FrameInfo, s: seq<byte>, out: seq<byte>) {
    forall t: seq<byte> :: FrameFrom(xxh, [], s + t, 0) == BlocksFrom(Env(xxh, info, [], s + t), |s|, out)
  }

  lemma ReachesHeader(xxh: Hash, info: FrameInfo)
    requires info.Valid()
    ensures Reaches(xxh, info, HeaderBytes(xxh, info), [])
  {
    hide BlocksFrom, ParseHeader, HeaderBytes;
    var s := HeaderBytes(xxh, info);
    forall t: seq<byte> ensures FrameFrom(xxh, [], s + t, 0) == BlocksFrom(Env(xxh, info, [], s + t), |s|, []) {
      HeaderRoundTrip(xxh, info, t);
    }
  }

  /** The bytes of one block, stored or compressed. */
  function BlockBytes(xxh: Hash, info: FrameInfo, stored: bool, payload: seq<byte>): (b: seq<byte>)
    requires |payload| < UNCOMPRESSED_FLAG && (forall s :: xxh(s) < 0x1_0000_0000)
    ensures |b| == 4 + |payload| + info.CrcSize()
  {
    Write32(|payload| + if stored then UNCOMPRESSED_FLAG else 0) + payload
    + (if info.blockChecksum then Write32(xxh(payload)) else [])
  }

  /** A block whose payload gives `data` behind `out`. */
  ghost predicate Holds(info: FrameInfo, stored: bool, payload: seq<byte>, out: seq<byte>, data: seq<byte>) {
    && |payload| <= info.MaxBlockSize() < UNCOMPRESSED_FLAG
    && if stored then payload == data
       else var h := if info.linked then out else [];
            payload != [] && |data| <= info.MaxBlockSize() && Decode(payload, 0, h) == Decoded(h + data, true)
  }

  lemma BlockRead(e: Env, i: nat, out: seq<byte>, stored: bool, payload: seq<byte>, data: seq<byte>)
    requires Holds(e.info, stored, payload, out, data) && e.user == [] && forall s :: e.xxh(s) < 0x1_0000_0000
    requires var b := BlockBytes(e.xxh, e.info, stored, payload); i + |b| <= |e.s| && e.s[i..i + |b|] == b
    ensures BlocksFrom(e, i, out) == BlocksFrom(e, i + |BlockBytes(e.xxh, e.info, stored, payload)|, out + data)
  {
    hide Write32, ReadLE32, Decode, FrameInfo.MaxBlockSize, BlocksFrom, BlockFrom;
    var b, n := BlockBytes(e.xxh, e.info, stored, payload), |payload|;
    var header := n + if stored then UNCOMPRESSED_FLAG else 0;
    assert ReadLE32(e.s, i) == header && e.s[i + 4..i + 4 + n] == payload by {
      BlockLayout(e.s, i, e.xxh, e.info, stored, payload);
    }
    assert e.info.blockChecksum ==> ReadLE32(e.s, i + 4 + n) == e.xxh(payload) by {
      BlockLayout(e.s, i, e.xxh, e.info, stored, payload);
    }
    assert BlocksFrom(e, i, out) == BlockFrom(e, i + 4, header, out) by { AtBlockHeader(e, i, out); }
    if stored {
      StoredRead(e, i + 4, out, payload);
    } else {
      CompressedRead(e, i + 4, out, payload, data);
    }
  }

  lemma AtBlockHeader(e: Env, i: nat, out: seq<byte>)
    requires i + 4 <= |e.s|
    ensures BlocksFrom(e, i, out) == BlockFrom(e, i + 4, ReadLE32(e.s, i), out)
  {
    hide BlockFrom;
  }

  lemma BlockLayout(s: seq<byte>, i: nat, xxh: Hash, info: FrameInfo, stored: bool, payload: seq<byte>)
    requires |payload| < UNCOMPRESSED_FLAG && forall s :: xxh(s) < 0x1_0000_0000
    requires var b := BlockBytes(xxh, info, stored, payload); i + |b| <= |s| && s[i..i + |b|] == b
    ensures ReadLE32(s, i) == |payload| + if stored then UNCOMPRESSED_FLAG else 0
    ensures s[i + 4..i + 4 + |payload|] == payload
    ensures info.blockChecksum ==> ReadLE32(s, i + 4 + |payload|) == xxh(payload)
  {
    hide Write32, ReadLE32;
    var b, n := BlockBytes(xxh, info, stored, payload), |payload|;
    SubSlice(s, i, |b|, 0, 4);
    SubSlice(s, i, |b|, 4, 4 + n);
    FieldInSlice(s, i);
    assert b[0..4] == Write32(n + if stored then UNCOMPRESSED_FLAG else 0) && b[4..4 + n] == payload;
    if info.blockChecksum {
      SubSlice(s, i, |b|, 4 + n, 8 + n);
      FieldInSlice(s, i + 4 + n);
      assert b[4 + n..8 + n] == Write32(xxh(payload));
    }
  }

  lemma StoredRead(e: Env, i: nat, out: seq<byte>, payload: seq<byte>)
    requires |payload| <= e.info.MaxBlockSize() < UNCOMPRESSED_FLAG && i + |payload| + e.info.CrcSize() <= |e.s|
    requires e.s[i..i + |payload|] == payload
    requires e.info.blockChecksum ==> ReadLE32(e.s, i + |payload|) == e.xxh(payload)
    ensures BlockFrom(e, i, |payload| + UNCOMPRESSED_FLAG, out)
      == BlocksFrom(e, i + |payload| + e.info.CrcSize(), out + payload)
  {
    hide BlocksFrom, ReadLE32, FrameInfo.MaxBlockSize;
    var n := |payload|;
    assert (n + UNCOMPRESSED_FLAG) % UNCOMPRESSED_FLAG == n;
    assert [] + payload == payload;
    assert BlockFrom(e, i, n + UNCOMPRESSED_FLAG, out) == StoredFrom(e, i, n, [], out)
        == StoredChecksumFrom(e, i + n, payload, out + payload);
  }

  lemma CompressedRead(e: Env, i: nat, out: seq<byte>, payload: seq<byte>, data: seq<byte>)
    requires Holds(e.info, false, payload, out, data) && e.user == []
    requires i + |payload| + e.info.CrcSize() <= |e.s| && e.s[i..i + |payload|] == payload
    requires e.info.blockChecksum ==> ReadLE32(e.s, i + |payload|) == e.xxh(payload)
    ensures BlockFrom(e, i, |payload|, out) == BlocksFrom(e, i + |payload| + e.info.CrcSize(), out + data)
  {
    hide BlocksFrom, ReadLE32, Decode, FrameInfo.MaxBlockSize, TakenAlways, TakenEver;
    var n := |payload|;
    assert n % UNCOMPRESSED_FLAG == n;
    var h := e.Hist(out);
    assert [] + out == out;
    assert h == if e.info.linked then out else [];
    assert (h + data)[|h|..] == data;
    ConformingAlways(payload, h, e.info.MaxBlockSize());
    assert BlockFrom(e, i, n, out) == CompressedFrom(e, i, n, out)
        == DecodedFrom(e, i + n + e.info.CrcSize(), payload, out);
  }

  lemma ReachesBlock(xxh: Hash, info: FrameInfo, s: seq<byte>, out: seq<byte>, stored: bool, payload: seq<byte>,
                     data: seq<byte>)
    requires Reaches(xxh, info, s, out) && (forall s :: xxh(s) < 0x1_0000_0000)
    requires Holds(info, stored, payload, out, data)
    ensures Reaches(xxh, info, s + BlockBytes(xxh, info, stored, payload), out + data)
  {
    hide FrameFrom, BlocksFrom, BlockBytes, Decode;
    var b := BlockBytes(xxh, info, stored, payload);
    var s', out' := s + b, out + data;
    forall t: seq<byte> ensures FrameFrom(xxh, [], s' + t, 0) == BlocksFrom(Env(xxh, info, [], s' + t), |s'|, out') {
      assert s' + t == s + (b + t);
      var e := Env(xxh, info, [], s' + t);
      assert FrameFrom(xxh, [], s + (b + t), 0) == BlocksFrom(Env(xxh, info, [], s + (b + t)), |s|, out);
      assert e.s[|s|..|s| + |b|] == b;
      BlockRead(e, |s|, out, stored, payload, data);
    }
  }

  // --- The end of the frame ---

  /** End mark and content checksum. */
  function EndBytes(xxh: Hash, info: FrameInfo, content: seq<byte>): (b: seq<byte>)
    requires forall s :: xxh(s) < 0x1_0000_0000
    ensures |b| == 4 + if info.contentChecksum then 4 else 0
  {
    Write32(0) + if info.contentChecksum then Write32(xxh(content)) else []
  }

  lemma FrameComplete(xxh: Hash, info: FrameInfo, s: seq<byte>, content: seq<byte>)
    requires Reaches(xxh, info, s, content) && forall s :: xxh(s) < 0x1_0000_0000
    requires info.contentSize != 0 ==> (info.contentSize - |content|) % TWO64 == 0
    ensures var f := s + EndBytes(xxh, info, content); FrameFrom(xxh, [], f, 0) == Frame(content, |f|, true, true)
  {
    hide FrameFrom, Write32, ReadLE32;
    var b := EndBytes(xxh, info, content);
    var f := s + b;
    var e := Env(xxh, info, [], f);
    assert FrameFrom(xxh, [], s + b, 0) == BlocksFrom(Env(xxh, info, [], s + b), |s|, content);
    FieldInSlice(f, |s|);
    assert f[|s|..|s| + 4] == Write32(0);
    assert BlocksFrom(e, |s|, content) == SuffixFrom(e, |s| + 4, content);
    if info.contentChecksum {
      FieldInSlice(f, |s| + 4);
      assert f[|s| + 4..|s| + 8] == Write32(xxh(content));
    }
  }
}
