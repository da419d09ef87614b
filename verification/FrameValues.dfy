/**
 The frame format in literal bytes: what the encoder writes and the decoder accepts, without reference to the functions
 they share, and whole frames with their true checksums.
 */
module FrameValues {
  import opened Bytes
  import opened BlockFormat
  import opened FrameFormat
  import opened FrameEncoding
  import X = XXHash32
  import XXHash32Values

  /** LZ4F_getBlockSize. */
  lemma BlockSizes()
    ensures BlockSize(4) == 65536 && BlockSize(5) == 262144 && BlockSize(6) == 1048576 && BlockSize(7) == 4194304
  {}

  /** Which bytes are a header, and what they say. */
  lemma HeaderFromBytes(xxh: Hash, s: seq<byte>)
    requires |s| >= 7
    ensures var flg, bd := s[4] as int, s[5] as int;
      var size := 7 + flg / 8 % 2 * 8 + flg % 2 * 4;
      ParseHeader(xxh, s, 0).HeaderOk? <==>
        && s[..4] == [0x04, 0x22, 0x4D, 0x18] && flg / 64 == 1 && flg / 2 % 2 == 0 && size <= |s|
        && bd < 128 && bd / 16 >= 4 && bd % 16 == 0 && xxh(s[4..size - 1]) / 256 % 256 == s[size - 1] as int
    ensures ParseHeader(xxh, s, 0).HeaderOk? ==>
      var flg, bd, h := s[4] as int, s[5] as int, ParseHeader(xxh, s, 0);
      && h.size == 7 + flg / 8 % 2 * 8 + flg % 2 * 4
      && h.info.linked == (flg / 32 % 2 == 0) && h.info.blockChecksum == (flg / 16 % 2 == 1)
      && h.info.contentChecksum == (flg / 4 % 2 == 1) && h.info.blockSizeID == bd / 16
      && h.info.contentSize == (if flg / 8 % 2 == 1 then ReadLE64(s, 6) else 0)
      && h.info.dictID == (if flg % 2 == 1 then ReadLE32(s, h.size - 5) else 0)
    ensures ParseHeader(xxh, s, 0).HeaderSkippable? <==>
      0x50 <= s[0] <= 0x5F && s[1] == 0x2A && s[2] == 0x4D && s[3] == 0x18
  {
    assert ReadLE32(s, 0) == 0x184D2204 <==> s[..4] == [0x04, 0x22, 0x4D, 0x18];
  }

  /** What a header consists of, for every set of fields. */
  lemma HeaderInBytes(xxh: Hash, info: FrameInfo)
    requires info.Valid()
    ensures var b := HeaderBytes(xxh, info); var n := |b|;
      && n == 7 + (if info.contentSize > 0 then 8 else 0) + (if info.dictID > 0 then 4 else 0)
      && b[..4] == [0x04, 0x22, 0x4D, 0x18]
      && b[4] as int
         == 64 + (if info.linked then 0 else 32) + (if info.blockChecksum then 16 else 0)
            + (if info.contentSize > 0 then 8 else 0) + (if info.contentChecksum then 4 else 0)
            + (if info.dictID > 0 then 1 else 0)
      && b[5] as int == 16 * info.blockSizeID
      && (info.contentSize > 0 ==> ReadLE64(b, 6) == info.contentSize)
      && (info.dictID > 0 ==> ReadLE32(b, n - 5) == info.dictID)
      && xxh(b[4..n - 1]) / 256 % 256 == b[n - 1] as int
  {
    hide Write64, ReadLE64, ReadLE32;
    var b, d := HeaderBytes(xxh, info), Descriptor(info);
    assert b[4..|b| - 1] == d;
    assert Write32(0x184D2204) == [0x04, 0x22, 0x4D, 0x18];
    HeaderRoundTrip(xxh, info, []);
    assert b + [] == b;
    HeaderFromBytes(xxh, b);
  }

  // --- Whole frames ---

  /** The checksum of the frame format. */
  function XXH(s: seq<byte>): (h: nat)
    ensures h < 0x1_0000_0000
  {
    X.Hash(s, 0) as int
  }

  /** Independent blocks of 64 KB and a content checksum. */
  const PLAIN := FrameInfo(false, false, true, 4, 0, 0)

  lemma Checksums()
    ensures XXH([0x64, 0x40]) == 0x95C0A77C && XXH([]) == 0x02CC5D05 && XXH([97, 98, 99]) == 0x32D153FF
    ensures XXH([97, 97, 97, 97, 97, 97, 97, 97, 97, 97, 97, 97, 97]) == 0xBEF3271D
  {
    hide X.Hash;
    XXHash32Values.Descriptor();
    XXHash32Values.Empty();
    XXHash32Values.Abc();
    XXHash32Values.Thirteen();
  }

  lemma PlainHeader()
    ensures HeaderBytes(XXH, PLAIN) == [0x04, 0x22, 0x4D, 0x18, 0x64, 0x40, 0xA7]
  {
    hide XXH, HeaderBytes;
    Checksums();
    HeaderInBytes(XXH, PLAIN);
    var b := HeaderBytes(XXH, PLAIN);
    assert b[4..|b| - 1] == [b[4], b[5]] == [0x64, 0x40];
    assert 0x95C0A77C / 256 % 256 == 0xA7;
    assert b == b[..4] + [b[4], b[5], b[6]];
  }

  /** A frame of nothing. */
  lemma EmptyFrame()
    ensures FrameFrom(XXH, [], [0x04, 0x22, 0x4D, 0x18, 0x64, 0x40, 0xA7, 0, 0, 0, 0, 0x05, 0x5D, 0xCC, 0x02], 0)
      == Frame([], 15, true, true)
  {
    hide XXH, FrameFrom, HeaderBytes, Reaches, EndBytes;
    Checksums();
    PlainHeader();
    ReachesHeader(XXH, PLAIN);
    FrameComplete(XXH, PLAIN, HeaderBytes(XXH, PLAIN), []);
    Ends([], 0x02CC5D05, [0x05, 0x5D, 0xCC, 0x02]);
    assert HeaderBytes(XXH, PLAIN) + EndBytes(XXH, PLAIN, [])
      == [0x04, 0x22, 0x4D, 0x18, 0x64, 0x40, 0xA7, 0, 0, 0, 0, 0x05, 0x5D, 0xCC, 0x02];
  }

  /** End mark and content checksum. */
  lemma Ends(content: seq<byte>, h: nat, w: seq<byte>)
    requires XXH(content) == h && |w| == 4 && ReadLE32(w, 0) == h
    ensures EndBytes(XXH, PLAIN, content) == [0, 0, 0, 0] + w
  {
    hide XXH;
    Written(h, w);
    Written(0, [0, 0, 0, 0]);
  }

  lemma Written(v: nat, w: seq<byte>)
    requires v < 0x1_0000_0000 && |w| == 4 && ReadLE32(w, 0) == v
    ensures Write32(v) == w
  {
    hide Write32;
    var s := Write32(v);
    assert s[3] == w[3];
    assert s[2] == w[2];
    assert s[1] == w[1];
  }

  /** "abc", stored. */
  lemma StoredFrame()
    ensures FrameFrom(XXH, [], [0x04, 0x22, 0x4D, 0x18, 0x64, 0x40, 0xA7, 3, 0, 0, 0x80, 97, 98, 99, 0, 0, 0, 0, 0xFF,
                                0x53, 0xD1, 0x32], 0)
      == Frame([97, 98, 99], 22, true, true)
  {
    hide XXH, FrameFrom, HeaderBytes, Reaches, EndBytes, BlockBytes;
    var abc: seq<byte>, h := [97, 98, 99], HeaderBytes(XXH, PLAIN);
    Checksums();
    PlainHeader();
    ReachesHeader(XXH, PLAIN);
    OneBlock(true, abc, [3, 0, 0, 0x80]);
    assert [] + abc == abc;
    ReachesBlock(XXH, PLAIN, h, [], true, abc, abc);
    var b := h + BlockBytes(XXH, PLAIN, true, abc);
    FrameComplete(XXH, PLAIN, b, [] + abc);
    Ends(abc, 0x32D153FF, [0xFF, 0x53, 0xD1, 0x32]);
    assert b + EndBytes(XXH, PLAIN, abc)
      == [0x04, 0x22, 0x4D, 0x18, 0x64, 0x40, 0xA7, 3, 0, 0, 0x80, 97, 98, 99, 0, 0, 0, 0, 0xFF, 0x53, 0xD1, 0x32];
  }

  lemma OneBlock(stored: bool, payload: seq<byte>, w: seq<byte>)
    requires |w| == 4 && |payload| < 0x8000_0000
    requires ReadLE32(w, 0) == |payload| + if stored then 0x8000_0000 else 0
    ensures BlockBytes(XXH, PLAIN, stored, payload) == w + payload
  {
    hide XXH;
    Written(ReadLE32(w, 0), w);
  }

  /** Thirteen times "a", in a compressed block of ten bytes. */
  lemma CompressedFrame()
    ensures FrameFrom(XXH, [], [0x04, 0x22, 0x4D, 0x18, 0x64, 0x40, 0xA7, 10, 0, 0, 0, 0x13, 97, 1, 0, 0x50, 97, 97, 97,
                                97, 97, 0, 0, 0, 0, 0x1D, 0x27, 0xF3, 0xBE], 0)
      == Frame([97, 97, 97, 97, 97, 97, 97, 97, 97, 97, 97, 97, 97], 29, true, true)
  {
    hide XXH, FrameFrom, HeaderBytes, Reaches, EndBytes, BlockBytes, Decode;
    var all: seq<byte>, h := [97, 97, 97, 97, 97, 97, 97, 97, 97, 97, 97, 97, 97], HeaderBytes(XXH, PLAIN);
    var block: seq<byte> := [0x13, 97, 1, 0, 0x50, 97, 97, 97, 97, 97];
    Checksums();
    PlainHeader();
    ReachesHeader(XXH, PLAIN);
    OneBlock(false, block, [10, 0, 0, 0]);
    TenBytes();
    assert [] + all == all;
    ReachesBlock(XXH, PLAIN, h, [], false, block, all);
    var b := h + BlockBytes(XXH, PLAIN, false, block);
    FrameComplete(XXH, PLAIN, b, [] + all);
    Ends(all, 0xBEF3271D, [0x1D, 0x27, 0xF3, 0xBE]);
    InOnePiece();
  }

  lemma InOnePiece()
    ensures var header: seq<byte>, size: seq<byte> := [0x04, 0x22, 0x4D, 0x18, 0x64, 0x40, 0xA7], [10, 0, 0, 0];
      var block: seq<byte>, checksum: seq<byte> := [0x13, 97, 1, 0, 0x50, 97, 97, 97, 97, 97], [0x1D, 0x27, 0xF3, 0xBE];
      header + (size + block) + ([0, 0, 0, 0] + checksum)
      == [0x04, 0x22, 0x4D, 0x18, 0x64, 0x40, 0xA7, 10, 0, 0, 0, 0x13, 97, 1, 0, 0x50, 97, 97, 97, 97, 97, 0, 0, 0, 0,
          0x1D, 0x27, 0xF3, 0xBE]
  {}

  /** The block by itself. */
  lemma TenBytes()
    ensures Decode([0x13, 97, 1, 0, 0x50, 97, 97, 97, 97, 97], 0, [])
      == Decoded([97, 97, 97, 97, 97, 97, 97, 97, 97, 97, 97, 97, 97], true)
  {
    hide CopyMatch, Decode;
    var b: seq<byte>, all: seq<byte> := [0x13, 97, 1, 0, 0x50, 97, 97, 97, 97, 97],
      [97, 97, 97, 97, 97, 97, 97, 97, 97, 97, 97, 97, 97];
    SequenceRead(b, 0, []);
    SequenceRead(b, 4, all[..8]);
    CopyMatchUnique([97], 1, 7, all[..8]);
    assert [] + b[1..2] == [97];
    assert all[..8] + b[5..] == all;
  }
}
