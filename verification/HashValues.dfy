/**
 Values of the two hashes at inputs that between them use every prime, rotation, lane and step. The lemmas before each
 value evaluate the words of the input and the steps on them.
 */
module XXHash32Values {
  import opened Bytes
  import opened XXHash32

  /** The bytes 1 to n. */
  function Counting(n: nat): (s: seq<byte>)
    requires n < 255
    ensures |s| == n
  {
    seq(n, i requires 0 <= i < n => (i + 1) as byte)
  }

  lemma NextFour(h: bv32, s: seq<byte>, i: nat)
    requires i + 4 <= |s|
    ensures Tail(h, s, i) == Tail(Mix4(h, Read(s, i)), s, i + 4)
  {
    hide Mix4, MixWord;
  }

  lemma NextOne(h: bv32, s: seq<byte>, i: nat)
    requires i < |s| < i + 4
    ensures Tail(h, s, i) == Tail(MixWord(h, Word(s[i] as int)), s, i + 1)
  {
    hide Mix4, MixWord;
  }

  lemma EmptyLiterals()
    ensures Word(0) == 0x00000000
  {
    assert Word(0) == 0x00000000;
  }

  lemma EmptySteps()
    ensures Short(0) == 0x165667B1
    ensures WithLength(0x165667B1, 0x00000000) == 0x165667B1
    ensures Avalanche(0x165667B1) == 0x02CC5D05
  {
    assert Short(0) == 0x165667B1;
    assert WithLength(0x165667B1, 0x00000000) == 0x165667B1;
    assert 0x165667B1 ^ (0x165667B1 >> 15) == (0x16564B1D as bv32);
    assert 0x16564B1D * PRIME2 == 0x7E00CC7B;
    assert 0x7E00CC7B ^ (0x7E00CC7B >> 13) == (0x7E033C7D as bv32);
    assert 0x7E033C7D * PRIME3 == 0x02CC5FC9;
    assert 0x02CC5FC9 ^ (0x02CC5FC9 >> 16) == (0x02CC5D05 as bv32);
    assert Avalanche(0x165667B1) == 0x02CC5D05;
  }

  /** No input. */
  lemma Empty()
    ensures Hash([], 0) == 0x02CC5D05
  {
    hide Word, Tail, Round, Converge, Avalanche, Mix4, MixWord, Short, WithLength;
    var s: seq<byte> := [];
    EmptyLiterals();
    EmptySteps();
    Nothing(0x165667B1, s);
  }

  lemma AbcLiterals()
    ensures Word(3) == 0x00000003
    ensures Word(97) == 0x00000061
    ensures Word(98) == 0x00000062
    ensures Word(99) == 0x00000063
  {
    assert Word(3) == 0x00000003;
    assert Word(97) == 0x00000061;
    assert Word(98) == 0x00000062;
    assert Word(99) == 0x00000063;
  }

  lemma AbcSteps()
    ensures Short(0) == 0x165667B1
    ensures WithLength(0x165667B1, 0x00000003) == 0x165667B4
    ensures MixWord(0x165667B4, 0x00000061) == 0xDCA1DBE8
    ensures MixWord(0xDCA1DBE8, 0x00000062) == 0x4F80FD3D
    ensures MixWord(0x4F80FD3D, 0x00000063) == 0x760A1E67
    ensures Avalanche(0x760A1E67) == 0x32D153FF
  {
    assert Short(0) == 0x165667B1;
    assert WithLength(0x165667B1, 0x00000003) == 0x165667B4;
    assert 0x00000061 * PRIME5 == 0x76BD4A11;
    assert Rotl(0x8D13B1C5, 11) == 0x9D8E2C68;
    assert 0x9D8E2C68 * PRIME1 == 0xDCA1DBE8;
    assert MixWord(0x165667B4, 0x00000061) == 0xDCA1DBE8;
    assert 0x00000062 * PRIME5 == 0x8D13B1C2;
    assert Rotl(0x69B58DAA, 11) == 0xAC6D534D;
    assert 0xAC6D534D * PRIME1 == 0x4F80FD3D;
    assert MixWord(0xDCA1DBE8, 0x00000062) == 0x4F80FD3D;
    assert 0x00000063 * PRIME5 == 0xA36A1973;
    assert Rotl(0xF2EB16B0, 11) == 0x58B58797;
    assert 0x58B58797 * PRIME1 == 0x760A1E67;
    assert MixWord(0x4F80FD3D, 0x00000063) == 0x760A1E67;
    assert 0x760A1E67 ^ (0x760A1E67 >> 15) == (0x760AF273 as bv32);
    assert 0x760AF273 * PRIME2 == 0xD0F67175;
    assert 0xD0F67175 ^ (0xD0F67175 >> 13) == (0xD0F0F6C6 as bv32);
    assert 0xD0F0F6C6 * PRIME3 == 0x32D1612E;
    assert 0x32D1612E ^ (0x32D1612E >> 16) == (0x32D153FF as bv32);
    assert Avalanche(0x760A1E67) == 0x32D153FF;
  }

  /** "abc": single bytes. */
  lemma Abc()
    ensures Hash([97, 98, 99], 0) == 0x32D153FF
  {
    hide Word, Tail, Round, Converge, Avalanche, Mix4, MixWord, Short, WithLength;
    var s: seq<byte> := [97, 98, 99];
    AbcLiterals();
    AbcSteps();
    NextOne(0x165667B4, s, 0);
    NextOne(0xDCA1DBE8, s, 1);
    NextOne(0x4F80FD3D, s, 2);
    Nothing(0x760A1E67, s);
  }

  lemma SevenLiterals()
    ensures Word(7) == 0x00000007
    ensures Word(97) == 0x00000061
    ensures Word(98) == 0x00000062
    ensures Word(99) == 0x00000063
    ensures Word(0x20347A6C) == 0x20347A6C
  {
    assert Word(7) == 0x00000007;
    assert Word(97) == 0x00000061;
    assert Word(98) == 0x00000062;
    assert Word(99) == 0x00000063;
    assert Word(0x20347A6C) == 0x20347A6C;
  }

  lemma SevenSteps()
    ensures Short(0x00000001) == 0x165667B2
    ensures WithLength(0x165667B2, 0x00000007) == 0x165667B9
    ensures Mix4(0x165667B9, 0x20347A6C) == 0x80402667
    ensures MixWord(0x80402667, 0x00000061) == 0xF9D39487
    ensures MixWord(0xF9D39487, 0x00000062) == 0x549DB107
    ensures MixWord(0x549DB107, 0x00000063) == 0x9331EBC0
    ensures Avalanche(0x9331EBC0) == 0x2DA3D84F
  {
    assert Short(0x00000001) == 0x165667B2;
    assert WithLength(0x165667B2, 0x00000007) == 0x165667B9;
    assert 0x20347A6C * PRIME3 == 0x4ECE93BC;
    assert Rotl(0x6524FB75, 17) == 0xF6EACA49;
    assert 0xF6EACA49 * PRIME4 == 0x80402667;
    assert Mix4(0x165667B9, 0x20347A6C) == 0x80402667;
    assert 0x00000061 * PRIME5 == 0x76BD4A11;
    assert Rotl(0xF6FD7078, 11) == 0xEB83C7B7;
    assert 0xEB83C7B7 * PRIME1 == 0xF9D39487;
    assert MixWord(0x80402667, 0x00000061) == 0xF9D39487;
    assert 0x00000062 * PRIME5 == 0x8D13B1C2;
    assert Rotl(0x86E74649, 11) == 0x3A324C37;
    assert 0x3A324C37 * PRIME1 == 0x549DB107;
    assert MixWord(0xF9D39487, 0x00000062) == 0x549DB107;
    assert 0x00000063 * PRIME5 == 0xA36A1973;
    assert Rotl(0xF807CA7A, 11) == 0x3E53D7C0;
    assert 0x3E53D7C0 * PRIME1 == 0x9331EBC0;
    assert MixWord(0x549DB107, 0x00000063) == 0x9331EBC0;
    assert 0x9331EBC0 ^ (0x9331EBC0 >> 15) == (0x9330CDA3 as bv32);
    assert 0x9330CDA3 * PRIME2 == 0x619334C5;
    assert 0x619334C5 ^ (0x619334C5 >> 13) == (0x6190385C as bv32);
    assert 0x6190385C * PRIME3 == 0x2DA3F5EC;
    assert 0x2DA3F5EC ^ (0x2DA3F5EC >> 16) == (0x2DA3D84F as bv32);
    assert Avalanche(0x9331EBC0) == 0x2DA3D84F;
  }

  /** "lz4 abc": four bytes and single bytes, behind a seed. */
  lemma Seven()
    ensures Hash([108, 122, 52, 32, 97, 98, 99], 0x00000001) == 0x2DA3D84F
  {
    hide Word, Tail, Round, Converge, Avalanche, Mix4, MixWord, Short, WithLength;
    var s: seq<byte> := [108, 122, 52, 32, 97, 98, 99];
    SevenLiterals();
    SevenSteps();
    NextFour(0x165667B9, s, 0);
    NextOne(0x80402667, s, 4);
    NextOne(0xF9D39487, s, 5);
    NextOne(0x549DB107, s, 6);
    Nothing(0x9331EBC0, s);
  }

  lemma ThirteenLiterals()
    ensures Word(13) == 0x0000000D
    ensures Word(97) == 0x00000061
    ensures Word(0x61616161) == 0x61616161
  {
    assert Word(13) == 0x0000000D;
    assert Word(97) == 0x00000061;
    assert Word(0x61616161) == 0x61616161;
  }

  lemma ThirteenSteps()
    ensures Short(0) == 0x165667B1
    ensures WithLength(0x165667B1, 0x0000000D) == 0x165667BE
    ensures Mix4(0x165667BE, 0x61616161) == 0xA07D1F57
    ensures Mix4(0xA07D1F57, 0x61616161) == 0xA2E6887A
    ensures Mix4(0xA2E6887A, 0x61616161) == 0xA7EB1C37
    ensures MixWord(0xA7EB1C37, 0x00000061) == 0x6115B665
    ensures Avalanche(0x6115B665) == 0xBEF3271D
  {
    assert Short(0) == 0x165667B1;
    assert WithLength(0x165667B1, 0x0000000D) == 0x165667BE;
    assert 0x61616161 * PRIME3 == 0x9BD6221D;
    assert Rotl(0xB22C89DB, 17) == 0x13B76459;
    assert 0x13B76459 * PRIME4 == 0xA07D1F57;
    assert Mix4(0x165667BE, 0x61616161) == 0xA07D1F57;
    assert Rotl(0x3C534174, 17) == 0x82E878A6;
    assert 0x82E878A6 * PRIME4 == 0xA2E6887A;
    assert Mix4(0xA07D1F57, 0x61616161) == 0xA2E6887A;
    assert Rotl(0x3EBCAA97, 17) == 0x552E7D79;
    assert 0x552E7D79 * PRIME4 == 0xA7EB1C37;
    assert Mix4(0xA2E6887A, 0x61616161) == 0xA7EB1C37;
    assert 0x00000061 * PRIME5 == 0x76BD4A11;
    assert Rotl(0x1EA86648, 11) == 0x433240F5;
    assert 0x433240F5 * PRIME1 == 0x6115B665;
    assert MixWord(0xA7EB1C37, 0x00000061) == 0x6115B665;
    assert 0x6115B665 ^ (0x6115B665 >> 15) == (0x6115744E as bv32);
    assert 0x6115744E * PRIME2 == 0x58589C42;
    assert 0x58589C42 ^ (0x58589C42 >> 13) == (0x585A5E86 as bv32);
    assert 0x585A5E86 * PRIME3 == 0xBEF399EE;
    assert 0xBEF399EE ^ (0xBEF399EE >> 16) == (0xBEF3271D as bv32);
    assert Avalanche(0x6115B665) == 0xBEF3271D;
  }

  /** Thirteen times "a". */
  lemma Thirteen()
    ensures Hash([97, 97, 97, 97, 97, 97, 97, 97, 97, 97, 97, 97, 97], 0) == 0xBEF3271D
  {
    hide Word, Tail, Round, Converge, Avalanche, Mix4, MixWord, Short, WithLength;
    var s: seq<byte> := [97, 97, 97, 97, 97, 97, 97, 97, 97, 97, 97, 97, 97];
    ThirteenLiterals();
    ThirteenSteps();
    NextFour(0x165667BE, s, 0);
    NextFour(0xA07D1F57, s, 4);
    NextFour(0xA2E6887A, s, 8);
    NextOne(0xA7EB1C37, s, 12);
    Nothing(0x6115B665, s);
  }

  lemma SixteenWords()
    ensures ReadLE32([97, 98, 99, 100, 101, 102, 103, 104, 105, 106, 107, 108, 109, 110, 111, 112], 0) == 0x64636261
    ensures ReadLE32([97, 98, 99, 100, 101, 102, 103, 104, 105, 106, 107, 108, 109, 110, 111, 112], 4) == 0x68676665
    ensures ReadLE32([97, 98, 99, 100, 101, 102, 103, 104, 105, 106, 107, 108, 109, 110, 111, 112], 8) == 0x6C6B6A69
    ensures ReadLE32([97, 98, 99, 100, 101, 102, 103, 104, 105, 106, 107, 108, 109, 110, 111, 112], 12) == 0x706F6E6D
  {}

  lemma SixteenLiterals()
    ensures Word(16) == 0x00000010
    ensures Word(0x64636261) == 0x64636261
    ensures Word(0x68676665) == 0x68676665
    ensures Word(0x6C6B6A69) == 0x6C6B6A69
    ensures Word(0x706F6E6D) == 0x706F6E6D
  {
    assert Word(16) == 0x00000010;
    assert Word(0x64636261) == 0x64636261;
    assert Word(0x68676665) == 0x68676665;
    assert Word(0x6C6B6A69) == 0x6C6B6A69;
    assert Word(0x706F6E6D) == 0x706F6E6D;
  }

  lemma SixteenSteps()
    ensures Init(0) == Acc(0x24234428, 0x85EBCA77, 0x00000000, 0x61C8864F)
    ensures Round(0x24234428, 0x64636261) == 0xE7D631C0
    ensures Round(0x85EBCA77, 0x68676665) == 0x64734CDF
    ensures Round(0x00000000, 0x6C6B6A69) == 0xD5391599
    ensures Round(0x61C8864F, 0x706F6E6D) == 0x410C50B8
    ensures Converge(Acc(0xE7D631C0, 0x64734CDF, 0xD5391599, 0x410C50B8)) == 0xDD8D74B7
    ensures WithLength(0xDD8D74B7, 0x00000010) == 0xDD8D74C7
    ensures Avalanche(0xDD8D74C7) == 0x9D2D8B62
  {
    assert Init(0) == Acc(0x24234428, 0x85EBCA77, 0x00000000, 0x61C8864F);
    assert 0x64636261 * PRIME2 == 0xC9DE4517;
    assert Rotl(0xEE01893F, 13) == 0x3127FDC0;
    assert 0x3127FDC0 * PRIME1 == 0xE7D631C0;
    assert Round(0x24234428, 0x64636261) == 0xE7D631C0;
    assert 0x68676665 * PRIME2 == 0x96934AF3;
    assert Rotl(0x1C7F156A, 13) == 0xE2AD438F;
    assert 0xE2AD438F * PRIME1 == 0x64734CDF;
    assert Round(0x85EBCA77, 0x68676665) == 0x64734CDF;
    assert 0x6C6B6A69 * PRIME2 == 0x634850CF;
    assert Rotl(0x634850CF, 13) == 0x0A19EC69;
    assert 0x0A19EC69 * PRIME1 == 0xD5391599;
    assert Round(0x00000000, 0x6C6B6A69) == 0xD5391599;
    assert 0x706F6E6D * PRIME2 == 0x2FFD56AB;
    assert Rotl(0x91C5DCFA, 13) == 0xBB9F5238;
    assert 0xBB9F5238 * PRIME1 == 0x410C50B8;
    assert Round(0x61C8864F, 0x706F6E6D) == 0x410C50B8;
    assert Rotl(0xE7D631C0, 1) == 0xCFAC6381;
    assert Rotl(0x64734CDF, 7) == 0x39A66FB2;
    assert Rotl(0xD5391599, 12) == 0x91599D53;
    assert Rotl(0x410C50B8, 18) == 0x42E10431;
    assert Converge(Acc(0xE7D631C0, 0x64734CDF, 0xD5391599, 0x410C50B8)) == 0xDD8D74B7;
    assert WithLength(0xDD8D74B7, 0x00000010) == 0xDD8D74C7;
    assert 0xDD8D74C7 ^ (0xDD8D74C7 >> 15) == (0xDD8CCFDD as bv32);
    assert 0xDD8CCFDD * PRIME2 == 0xB95801BB;
    assert 0xB95801BB ^ (0xB95801BB >> 13) == (0xB95DCB7B as bv32);
    assert 0xB95DCB7B * PRIME3 == 0x9D2D164F;
    assert 0x9D2D164F ^ (0x9D2D164F >> 16) == (0x9D2D8B62 as bv32);
    assert Avalanche(0xDD8D74C7) == 0x9D2D8B62;
  }

  /** "abcdefghijklmnop": one stripe. */
  lemma Sixteen()
    ensures Hash([97, 98, 99, 100, 101, 102, 103, 104, 105, 106, 107, 108, 109, 110, 111, 112], 0) == 0x9D2D8B62
  {
    hide Word, Tail, Round, Converge, Avalanche, Mix4, MixWord, Short, WithLength, Init, Stripes, ReadLE32;
    var s: seq<byte> := [97, 98, 99, 100, 101, 102, 103, 104, 105, 106, 107, 108, 109, 110, 111, 112];
    SixteenWords();
    SixteenLiterals();
    SixteenSteps();
    NoStripes(Init(0), s);
    OneMore(Init(0), s, 0);
    assert Stripes(Init(0), s, 1) == Acc(0xE7D631C0, 0x64734CDF, 0xD5391599, 0x410C50B8);
    Nothing(0xDD8D74C7, s);
  }

  lemma DescriptorLiterals()
    ensures Word(2) == 0x00000002
    ensures Word(64) == 0x00000040
    ensures Word(100) == 0x00000064
  {
    assert Word(2) == 0x00000002;
    assert Word(64) == 0x00000040;
    assert Word(100) == 0x00000064;
  }

  lemma DescriptorSteps()
    ensures Short(0) == 0x165667B1
    ensures WithLength(0x165667B1, 0x00000002) == 0x165667B3
    ensures MixWord(0x165667B3, 0x00000064) == 0x15743680
    ensures MixWord(0x15743680, 0x00000040) == 0x0EA849D8
    ensures Avalanche(0x0EA849D8) == 0x95C0A77C
  {
    assert Short(0) == 0x165667B1;
    assert WithLength(0x165667B1, 0x00000002) == 0x165667B3;
    assert 0x00000064 * PRIME5 == 0xB9C08124;
    assert Rotl(0xD016E8D7, 11) == 0xB746BE80;
    assert 0xB746BE80 * PRIME1 == 0x15743680;
    assert MixWord(0x165667B3, 0x00000064) == 0x15743680;
    assert 0x00000040 * PRIME5 == 0x9599EC40;
    assert Rotl(0xAB0E22C0, 11) == 0x71160558;
    assert 0x71160558 * PRIME1 == 0x0EA849D8;
    assert MixWord(0x15743680, 0x00000040) == 0x0EA849D8;
    assert 0x0EA849D8 ^ (0x0EA849D8 >> 15) == (0x0EA85488 as bv32);
    assert 0x0EA85488 * PRIME2 == 0xE3CA9B38;
    assert 0xE3CA9B38 ^ (0xE3CA9B38 >> 13) == (0xE3CD856C as bv32);
    assert 0xE3CD856C * PRIME3 == 0x95C032BC;
    assert 0x95C032BC ^ (0x95C032BC >> 16) == (0x95C0A77C as bv32);
    assert Avalanche(0x0EA849D8) == 0x95C0A77C;
  }

  /** The descriptor 64 40 of a frame. */
  lemma Descriptor()
    ensures Hash([100, 64], 0) == 0x95C0A77C
  {
    hide Word, Tail, Round, Converge, Avalanche, Mix4, MixWord, Short, WithLength;
    var s: seq<byte> := [100, 64];
    DescriptorLiterals();
    DescriptorSteps();
    NextOne(0x165667B3, s, 0);
    NextOne(0x15743680, s, 1);
    Nothing(0x0EA849D8, s);
  }

  lemma MixedWords()
    ensures ReadLE32(Counting(39), 0) == 0x04030201
    ensures ReadLE32(Counting(39), 4) == 0x08070605
    ensures ReadLE32(Counting(39), 8) == 0x0C0B0A09
    ensures ReadLE32(Counting(39), 12) == 0x100F0E0D
    ensures ReadLE32(Counting(39), 16) == 0x14131211
    ensures ReadLE32(Counting(39), 20) == 0x18171615
    ensures ReadLE32(Counting(39), 24) == 0x1C1B1A19
    ensures ReadLE32(Counting(39), 28) == 0x201F1E1D
    ensures ReadLE32(Counting(39), 32) == 0x24232221
  {}

  lemma MixedLiterals()
    ensures Word(37) == 0x00000025
    ensures Word(38) == 0x00000026
    ensures Word(39) == 0x00000027
    ensures Word(0x04030201) == 0x04030201
    ensures Word(0x08070605) == 0x08070605
    ensures Word(0x0C0B0A09) == 0x0C0B0A09
    ensures Word(0x100F0E0D) == 0x100F0E0D
    ensures Word(0x14131211) == 0x14131211
    ensures Word(0x18171615) == 0x18171615
    ensures Word(0x1C1B1A19) == 0x1C1B1A19
    ensures Word(0x201F1E1D) == 0x201F1E1D
    ensures Word(0x24232221) == 0x24232221
  {
    assert Word(37) == 0x00000025;
    assert Word(38) == 0x00000026;
    assert Word(39) == 0x00000027;
    assert Word(0x04030201) == 0x04030201;
    assert Word(0x08070605) == 0x08070605;
    assert Word(0x0C0B0A09) == 0x0C0B0A09;
    assert Word(0x100F0E0D) == 0x100F0E0D;
    assert Word(0x14131211) == 0x14131211;
    assert Word(0x18171615) == 0x18171615;
    assert Word(0x1C1B1A19) == 0x1C1B1A19;
    assert Word(0x201F1E1D) == 0x201F1E1D;
    assert Word(0x24232221) == 0x24232221;
  }

  lemma MixedSteps1()
    ensures Init(0x12345678) == Acc(0x36579AA0, 0x982020EF, 0x12345678, 0x73FCDCC7)
    ensures Round(0x36579AA0, 0x04030201) == 0xD92DF7B7
    ensures Round(0x982020EF, 0x08070605) == 0xE338AC87
    ensures Round(0x12345678, 0x0C0B0A09) == 0xC690DB90
    ensures Round(0x73FCDCC7, 0x100F0E0D) == 0xD09B9060
    ensures Round(0xD92DF7B7, 0x14131211) == 0x5597BBDC
    ensures Round(0xE338AC87, 0x18171615) == 0x7329C334
  {
    assert Init(0x12345678) == Acc(0x36579AA0, 0x982020EF, 0x12345678, 0x73FCDCC7);
    assert 0x04030201 * PRIME2 == 0x98E5B877;
    assert Rotl(0xCF3D5317, 13) == 0xAA62F9E7;
    assert 0xAA62F9E7 * PRIME1 == 0xD92DF7B7;
    assert Round(0x36579AA0, 0x04030201) == 0xD92DF7B7;
    assert 0x08070605 * PRIME2 == 0x659ABE53;
    assert Rotl(0xFDBADF42, 13) == 0x5BE85FB7;
    assert 0x5BE85FB7 * PRIME1 == 0xE338AC87;
    assert Round(0x982020EF, 0x08070605) == 0xE338AC87;
    assert 0x0C0B0A09 * PRIME2 == 0x324FC42F;
    assert Rotl(0x44841AA7, 13) == 0x8354E890;
    assert 0x8354E890 * PRIME1 == 0xC690DB90;
    assert Round(0x12345678, 0x0C0B0A09) == 0xC690DB90;
    assert 0x100F0E0D * PRIME2 == 0xFF04CA0B;
    assert Rotl(0x7301A6D2, 13) == 0x34DA4E60;
    assert 0x34DA4E60 * PRIME1 == 0xD09B9060;
    assert Round(0x73FCDCC7, 0x100F0E0D) == 0xD09B9060;
    assert 0x14131211 * PRIME2 == 0xCBB9CFE7;
    assert Rotl(0xA4E7C79E, 13) == 0xF8F3D49C;
    assert 0xF8F3D49C * PRIME1 == 0x5597BBDC;
    assert Round(0xD92DF7B7, 0x14131211) == 0x5597BBDC;
    assert 0x18171615 * PRIME2 == 0x986ED5C3;
    assert Rotl(0x7BA7824A, 13) == 0xF0494F74;
    assert 0xF0494F74 * PRIME1 == 0x7329C334;
    assert Round(0xE338AC87, 0x18171615) == 0x7329C334;
  }

  lemma MixedSteps2()
    ensures Round(0xC690DB90, 0x1C1B1A19) == 0x1EC26C96
    ensures Round(0xD09B9060, 0x201F1E1D) == 0x3C5473EE
    ensures Converge(Acc(0x5597BBDC, 0x7329C334, 0x1EC26C96, 0x3C5473EE)) == 0x3693652E
    ensures WithLength(0x3693652E, 0x00000027) == 0x36936555
    ensures Mix4(0x36936555, 0x24232221) == 0xCC68D543
    ensures MixWord(0xCC68D543, 0x00000025) == 0xE75DE507
    ensures MixWord(0xE75DE507, 0x00000026) == 0x9FE65771
  {
    assert 0x1C1B1A19 * PRIME2 == 0x6523DB9F;
    assert Rotl(0x2BB4B72F, 13) == 0x96E5E576;
    assert 0x96E5E576 * PRIME1 == 0x1EC26C96;
    assert Round(0xC690DB90, 0x1C1B1A19) == 0x1EC26C96;
    assert 0x201F1E1D * PRIME2 == 0x31D8E17B;
    assert Rotl(0x027471DB, 13) == 0x8E3B604E;
    assert 0x8E3B604E * PRIME1 == 0x3C5473EE;
    assert Round(0xD09B9060, 0x201F1E1D) == 0x3C5473EE;
    assert Rotl(0x5597BBDC, 1) == 0xAB2F77B8;
    assert Rotl(0x7329C334, 7) == 0x94E19A39;
    assert Rotl(0x1EC26C96, 12) == 0x26C961EC;
    assert Rotl(0x3C5473EE, 18) == 0xCFB8F151;
    assert Converge(Acc(0x5597BBDC, 0x7329C334, 0x1EC26C96, 0x3C5473EE)) == 0x3693652E;
    assert WithLength(0x3693652E, 0x00000027) == 0x36936555;
    assert 0x24232221 * PRIME3 == 0x3A838FDD;
    assert Rotl(0x7116F532, 17) == 0xEA64E22D;
    assert 0xEA64E22D * PRIME4 == 0xCC68D543;
    assert Mix4(0x36936555, 0x24232221) == 0xCC68D543;
    assert 0x00000025 * PRIME5 == 0x3A7CFC95;
    assert Rotl(0x06E5D1D8, 11) == 0x2E8EC037;
    assert 0x2E8EC037 * PRIME1 == 0xE75DE507;
    assert MixWord(0xCC68D543, 0x00000025) == 0xE75DE507;
    assert 0x00000026 * PRIME5 == 0x50D36446;
    assert Rotl(0x3831494D, 11) == 0x8A4A69C1;
    assert 0x8A4A69C1 * PRIME1 == 0x9FE65771;
    assert MixWord(0xE75DE507, 0x00000026) == 0x9FE65771;
  }

  lemma MixedSteps3()
    ensures MixWord(0x9FE65771, 0x00000027) == 0x8139DEB8
    ensures Avalanche(0x8139DEB8) == 0x59861251
  {
    assert 0x00000027 * PRIME5 == 0x6729CBF7;
    assert Rotl(0x07102368, 11) == 0x811B4038;
    assert 0x811B4038 * PRIME1 == 0x8139DEB8;
    assert MixWord(0x9FE65771, 0x00000027) == 0x8139DEB8;
    assert 0x8139DEB8 ^ (0x8139DEB8 >> 15) == (0x8138DCCB as bv32);
    assert 0x8138DCCB * PRIME2 == 0x14FFD05D;
    assert 0x14FFD05D ^ (0x14FFD05D >> 13) == (0x14FF77A3 as bv32);
    assert 0x14FF77A3 * PRIME3 == 0x59864BD7;
    assert 0x59864BD7 ^ (0x59864BD7 >> 16) == (0x59861251 as bv32);
    assert Avalanche(0x8139DEB8) == 0x59861251;
  }

  /** The bytes 1 to 39: two stripes, four bytes and single bytes, behind a seed. */
  lemma Mixed()
    ensures Hash(Counting(39), 0x12345678) == 0x59861251
  {
    hide Word, Tail, Round, Converge, Avalanche, Mix4, MixWord, Short, WithLength, Init, Stripes, ReadLE32;
    var s: seq<byte> := Counting(39);
    MixedWords();
    MixedLiterals();
    MixedSteps1();
    MixedSteps2();
    MixedSteps3();
    NoStripes(Init(0x12345678), s);
    OneMore(Init(0x12345678), s, 0);
    assert Stripes(Init(0x12345678), s, 1) == Acc(0xD92DF7B7, 0xE338AC87, 0xC690DB90, 0xD09B9060);
    OneMore(Init(0x12345678), s, 1);
    assert Stripes(Init(0x12345678), s, 2) == Acc(0x5597BBDC, 0x7329C334, 0x1EC26C96, 0x3C5473EE);
    NextFour(0x36936555, s, 32);
    NextOne(0xCC68D543, s, 36);
    NextOne(0xE75DE507, s, 37);
    NextOne(0x9FE65771, s, 38);
    Nothing(0x8139DEB8, s);
  }
}

module XXHash64Values {
  import opened Bytes
  import opened XXHash64
  import opened XXHash32Values

  lemma NextEight(h: bv64, s: seq<byte>, i: nat)
    requires i + 8 <= |s|
    ensures Tail(h, s, i) == Tail(Mix8(h, Read(s, i)), s, i + 8)
  {
    hide Mix8, Mix4, MixWord;
  }

  lemma NextFour(h: bv64, s: seq<byte>, i: nat)
    requires i + 4 <= |s| < i + 8
    ensures Tail(h, s, i) == Tail(Mix4(h, Word(ReadLE32(s, i))), s, i + 4)
  {
    hide Mix8, Mix4, MixWord;
  }

  lemma NextOne(h: bv64, s: seq<byte>, i: nat)
    requires i < |s| < i + 4
    ensures Tail(h, s, i) == Tail(MixWord(h, Word(s[i] as int)), s, i + 1)
  {
    hide Mix8, Mix4, MixWord;
  }

  lemma EmptyLiterals()
    ensures Word(0) == 0x0000000000000000
  {
    assert Word(0) == 0x0000000000000000;
  }

  lemma EmptySteps()
    ensures Short(0) == 0x27D4EB2F165667C5
    ensures WithLength(0x27D4EB2F165667C5, 0x0000000000000000) == 0x27D4EB2F165667C5
    ensures Avalanche(0x27D4EB2F165667C5) == 0xEF46DB3751D8E999
  {
    assert Short(0) == 0x27D4EB2F165667C5;
    assert WithLength(0x27D4EB2F165667C5, 0x0000000000000000) == 0x27D4EB2F165667C5;
    assert 0x27D4EB2F165667C5 ^ (0x27D4EB2F165667C5 >> 33) == (0x27D4EB2F05BC1252 as bv64);
    assert 0x27D4EB2F05BC1252 * PRIME2 == 0xBEB13DDA13C2ED4E;
    assert 0xBEB13DDA13C2ED4E ^ (0xBEB13DDA13C2ED4E >> 29) == (0xBEB13DDFE64B039E as bv64);
    assert 0xBEB13DDFE64B039E * PRIME3 == 0xEF46DB37BE9E32AE;
    assert 0xEF46DB37BE9E32AE ^ (0xEF46DB37BE9E32AE >> 32) == (0xEF46DB3751D8E999 as bv64);
    assert Avalanche(0x27D4EB2F165667C5) == 0xEF46DB3751D8E999;
  }

  /** No input. */
  lemma Empty()
    ensures Hash([], 0) == 0xEF46DB3751D8E999
  {
    hide Word, Tail, Round, Converge, Avalanche, Mix4, MixWord, Short, WithLength, Mix8;
    var s: seq<byte> := [];
    EmptyLiterals();
    EmptySteps();
    Nothing(0x27D4EB2F165667C5, s);
  }

  lemma AbcLiterals()
    ensures Word(3) == 0x0000000000000003
    ensures Word(97) == 0x0000000000000061
    ensures Word(98) == 0x0000000000000062
    ensures Word(99) == 0x0000000000000063
  {
    assert Word(3) == 0x0000000000000003;
    assert Word(97) == 0x0000000000000061;
    assert Word(98) == 0x0000000000000062;
    assert Word(99) == 0x0000000000000063;
  }

  lemma AbcSteps()
    ensures Short(0) == 0x27D4EB2F165667C5
    ensures WithLength(0x27D4EB2F165667C5, 0x0000000000000003) == 0x27D4EB2F165667C8
    ensures MixWord(0x27D4EB2F165667C8, 0x0000000000000061) == 0x0E6D11BDC91F0215
    ensures MixWord(0x0E6D11BDC91F0215, 0x0000000000000062) == 0x791983E9AB307069
    ensures MixWord(0x791983E9AB307069, 0x0000000000000063) == 0xE87A46F8B9A4C39E
    ensures Avalanche(0xE87A46F8B9A4C39E) == 0x44BC2CF5AD770999
  {
    assert Short(0) == 0x27D4EB2F165667C5;
    assert WithLength(0x27D4EB2F165667C5, 0x0000000000000003) == 0x27D4EB2F165667C8;
    assert 0x0000000000000061 * PRIME5 == 0x17AD1CD776BD51A5;
    assert 0x27D4EB2F165667C8 ^ 0x17AD1CD776BD51A5 == (0x3079F7F860EB366D as bv64);
    assert Rotl(0x3079F7F860EB366D, 11) == 0xCFBFC30759B36983;
    assert 0xCFBFC30759B36983 * PRIME1 == 0x0E6D11BDC91F0215;
    assert MixWord(0x27D4EB2F165667C8, 0x0000000000000061) == 0x0E6D11BDC91F0215;
    assert 0x0000000000000062 * PRIME5 == 0x3F8208068D13B96A;
    assert 0x0E6D11BDC91F0215 ^ 0x3F8208068D13B96A == (0x31EF19BB440CBB7F as bv64);
    assert Rotl(0x31EF19BB440CBB7F, 11) == 0x78CDDA2065DBF98F;
    assert 0x78CDDA2065DBF98F * PRIME1 == 0x791983E9AB307069;
    assert MixWord(0x0E6D11BDC91F0215, 0x0000000000000062) == 0x791983E9AB307069;
    assert 0x0000000000000063 * PRIME5 == 0x6756F335A36A212F;
    assert 0x791983E9AB307069 ^ 0x6756F335A36A212F == (0x1E4F70DC085A5146 as bv64);
    assert Rotl(0x1E4F70DC085A5146, 11) == 0x7B86E042D28A30F2;
    assert 0x7B86E042D28A30F2 * PRIME1 == 0xE87A46F8B9A4C39E;
    assert MixWord(0x791983E9AB307069, 0x0000000000000063) == 0xE87A46F8B9A4C39E;
    assert 0xE87A46F8B9A4C39E ^ (0xE87A46F8B9A4C39E >> 33) == (0xE87A46F8CD99E0E2 as bv64);
    assert 0xE87A46F8CD99E0E2 * PRIME2 == 0xDFE7320E5D13DBBE;
    assert 0xDFE7320E5D13DBBE ^ (0xDFE7320E5D13DBBE >> 29) == (0xDFE73208A22A4BCC as bv64);
    assert 0xDFE73208A22A4BCC * PRIME3 == 0x44BC2CF5E9CB256C;
    assert 0x44BC2CF5E9CB256C ^ (0x44BC2CF5E9CB256C >> 32) == (0x44BC2CF5AD770999 as bv64);
    assert Avalanche(0xE87A46F8B9A4C39E) == 0x44BC2CF5AD770999;
  }

  /** "abc": single bytes. */
  lemma Abc()
    ensures Hash([97, 98, 99], 0) == 0x44BC2CF5AD770999
  {
    hide Word, Tail, Round, Converge, Avalanche, Mix4, MixWord, Short, WithLength, Mix8;
    var s: seq<byte> := [97, 98, 99];
    AbcLiterals();
    AbcSteps();
    NextOne(0x27D4EB2F165667C8, s, 0);
    NextOne(0x0E6D11BDC91F0215, s, 1);
    NextOne(0x791983E9AB307069, s, 2);
    Nothing(0xE87A46F8B9A4C39E, s);
  }

  lemma FourteenLiterals()
    ensures Word(14) == 0x000000000000000E
    ensures Word(101) == 0x0000000000000065
    ensures Word(115) == 0x0000000000000073
    ensures Word(0x0000000073736572) == 0x0000000073736572
    ensures Word(0x706D6F6320347A6C) == 0x706D6F6320347A6C
  {
    assert Word(14) == 0x000000000000000E;
    assert Word(101) == 0x0000000000000065;
    assert Word(115) == 0x0000000000000073;
    assert Word(0x0000000073736572) == 0x0000000073736572;
    assert Word(0x706D6F6320347A6C) == 0x706D6F6320347A6C;
  }

  lemma FourteenSteps1()
    ensures Short(0x0000000000000001) == 0x27D4EB2F165667C6
    ensures WithLength(0x27D4EB2F165667C6, 0x000000000000000E) == 0x27D4EB2F165667D4
    ensures Mix8(0x27D4EB2F165667D4, 0x706D6F6320347A6C) == 0xE6C25056DF9DE632
    ensures Mix4(0xE6C25056DF9DE632, 0x0000000073736572) == 0xA5F527F156F39D1A
    ensures MixWord(0xA5F527F156F39D1A, 0x0000000000000065) == 0x9D561BAF018C1DA1
    ensures MixWord(0x9D561BAF018C1DA1, 0x0000000000000073) == 0xB50C57971610E829
  {
    assert Short(0x0000000000000001) == 0x27D4EB2F165667C6;
    assert WithLength(0x27D4EB2F165667C6, 0x000000000000000E) == 0x27D4EB2F165667D4;
    assert 0x706D6F6320347A6C * PRIME2 == 0xCDD29BFEF202EB54;
    assert Rotl(0xCDD29BFEF202EB54, 31) == 0x790175AA66E94DFF;
    assert 0x790175AA66E94DFF * PRIME1 == 0x1276A40F70A85779;
    assert Round(0, 0x706D6F6320347A6C) == 0x1276A40F70A85779;
    assert 0x27D4EB2F165667D4 ^ 0x1276A40F70A85779 == (0x35A24F2066FE30AD as bv64);
    assert Rotl(0x35A24F2066FE30AD, 27) == 0x0337F18569AD1279;
    assert 0x0337F18569AD1279 * PRIME1 == 0x60D685DF1CEB37CF;
    assert Mix8(0x27D4EB2F165667D4, 0x706D6F6320347A6C) == 0xE6C25056DF9DE632;
    assert 0x0000000073736572 * PRIME1 == 0xC19F4FCA498C731E;
    assert 0xE6C25056DF9DE632 ^ 0xC19F4FCA498C731E == (0x275D1F9C9611952C as bv64);
    assert Rotl(0x275D1F9C9611952C, 23) == 0xCE4B08CA9613AE8F;
    assert 0xCE4B08CA9613AE8F * PRIME2 == 0x8F9EC03FB8BC2321;
    assert Mix4(0xE6C25056DF9DE632, 0x0000000073736572) == 0xA5F527F156F39D1A;
    assert 0x0000000000000065 * PRIME5 == 0xB700C993D016F0B9;
    assert 0xA5F527F156F39D1A ^ 0xB700C993D016F0B9 == (0x12F5EE6286E56DA3 as bv64);
    assert Rotl(0x12F5EE6286E56DA3, 11) == 0xAF7314372B6D1897;
    assert 0xAF7314372B6D1897 * PRIME1 == 0x9D561BAF018C1DA1;
    assert MixWord(0xA5F527F156F39D1A, 0x0000000000000065) == 0x9D561BAF018C1DA1;
    assert 0x0000000000000073 * PRIME5 == 0xE4A5A62708D09D7F;
    assert 0x9D561BAF018C1DA1 ^ 0xE4A5A62708D09D7F == (0x79F3BD88095C80DE as bv64);
    assert Rotl(0x79F3BD88095C80DE, 11) == 0x9DEC404AE406F3CF;
    assert 0x9DEC404AE406F3CF * PRIME1 == 0xB50C57971610E829;
    assert MixWord(0x9D561BAF018C1DA1, 0x0000000000000073) == 0xB50C57971610E829;
  }

  lemma FourteenSteps2()
    ensures Avalanche(0xB50C57971610E829) == 0xCA994CB0865C8F23
  {
    assert 0xB50C57971610E829 ^ (0xB50C57971610E829 >> 33) == (0xB50C57974C96C3E2 as bv64);
    assert 0xB50C57974C96C3E2 * PRIME2 == 0xF961988AAD7EE8BE;
    assert 0xF961988AAD7EE8BE ^ (0xF961988AAD7EE8BE >> 29) == (0xF961988D66722CEB as bv64);
    assert 0xF961988D66722CEB * PRIME3 == 0xCA994CB04CC5C393;
    assert 0xCA994CB04CC5C393 ^ (0xCA994CB04CC5C393 >> 32) == (0xCA994CB0865C8F23 as bv64);
    assert Avalanche(0xB50C57971610E829) == 0xCA994CB0865C8F23;
  }

  /** "lz4 compresses": eight, four and two bytes, behind a seed. */
  lemma Fourteen()
    ensures Hash([108, 122, 52, 32, 99, 111, 109, 112, 114, 101, 115, 115, 101, 115], 0x0000000000000001)
      == 0xCA994CB0865C8F23
  {
    hide Word, Tail, Round, Converge, Avalanche, Mix4, MixWord, Short, WithLength, Mix8;
    var s: seq<byte> := [108, 122, 52, 32, 99, 111, 109, 112, 114, 101, 115, 115, 101, 115];
    FourteenLiterals();
    FourteenSteps1();
    FourteenSteps2();
    NextEight(0x27D4EB2F165667D4, s, 0);
    NextFour(0xE6C25056DF9DE632, s, 8);
    NextOne(0xA5F527F156F39D1A, s, 12);
    NextOne(0x9D561BAF018C1DA1, s, 13);
    Nothing(0xB50C57971610E829, s);
  }

  lemma TwoStripesWords()
    ensures ReadLE32(Counting(64), 0) == 0x04030201
    ensures ReadLE32(Counting(64), 4) == 0x08070605
    ensures ReadLE32(Counting(64), 8) == 0x0C0B0A09
    ensures ReadLE32(Counting(64), 12) == 0x100F0E0D
    ensures ReadLE32(Counting(64), 16) == 0x14131211
    ensures ReadLE32(Counting(64), 20) == 0x18171615
    ensures ReadLE32(Counting(64), 24) == 0x1C1B1A19
    ensures ReadLE32(Counting(64), 28) == 0x201F1E1D
    ensures ReadLE32(Counting(64), 32) == 0x24232221
    ensures ReadLE32(Counting(64), 36) == 0x28272625
    ensures ReadLE32(Counting(64), 40) == 0x2C2B2A29
    ensures ReadLE32(Counting(64), 44) == 0x302F2E2D
    ensures ReadLE32(Counting(64), 48) == 0x34333231
    ensures ReadLE32(Counting(64), 52) == 0x38373635
    ensures ReadLE32(Counting(64), 56) == 0x3C3B3A39
    ensures ReadLE32(Counting(64), 60) == 0x403F3E3D
  {}

  lemma TwoStripesLiterals()
    ensures Word(64) == 0x0000000000000040
    ensures Word(0x0807060504030201) == 0x0807060504030201
    ensures Word(0x100F0E0D0C0B0A09) == 0x100F0E0D0C0B0A09
    ensures Word(0x1817161514131211) == 0x1817161514131211
    ensures Word(0x201F1E1D1C1B1A19) == 0x201F1E1D1C1B1A19
    ensures Word(0x2827262524232221) == 0x2827262524232221
    ensures Word(0x302F2E2D2C2B2A29) == 0x302F2E2D2C2B2A29
    ensures Word(0x3837363534333231) == 0x3837363534333231
    ensures Word(0x403F3E3D3C3B3A39) == 0x403F3E3D3C3B3A39
  {
    assert Word(64) == 0x0000000000000040;
    assert Word(0x0807060504030201) == 0x0807060504030201;
    assert Word(0x100F0E0D0C0B0A09) == 0x100F0E0D0C0B0A09;
    assert Word(0x1817161514131211) == 0x1817161514131211;
    assert Word(0x201F1E1D1C1B1A19) == 0x201F1E1D1C1B1A19;
    assert Word(0x2827262524232221) == 0x2827262524232221;
    assert Word(0x302F2E2D2C2B2A29) == 0x302F2E2D2C2B2A29;
    assert Word(0x3837363534333231) == 0x3837363534333231;
    assert Word(0x403F3E3D3C3B3A39) == 0x403F3E3D3C3B3A39;
  }

  lemma TwoStripesSteps1()
    ensures Init(0x0000000000000007)
      == Acc(0x60EA27EEADC0B5DD, 0xC2B2AE3D27D4EB56, 0x0000000000000007, 0x61C8864E7A143580)
    ensures Round(0x60EA27EEADC0B5DD, 0x0807060504030201) == 0xD8BFC2B051F3B82F
    ensures Round(0xC2B2AE3D27D4EB56, 0x100F0E0D0C0B0A09) == 0xA7DDD2AA314B7EF7
    ensures Round(0x0000000000000007, 0x1817161514131211) == 0xAF314760DA29AED5
    ensures Round(0x61C8864E7A143580, 0x201F1E1D1C1B1A19) == 0x7E4F575AB981759D
    ensures Round(0xD8BFC2B051F3B82F, 0x2827262524232221) == 0xD2A5A09960AE22AB
    ensures Round(0xA7DDD2AA314B7EF7, 0x302F2E2D2C2B2A29) == 0x6F6396DFB1D6924D
  {
    assert Init(0x0000000000000007)
      == Acc(0x60EA27EEADC0B5DD, 0xC2B2AE3D27D4EB56, 0x0000000000000007, 0x61C8864E7A143580);
    assert 0x0807060504030201 * PRIME2 == 0xD33B6643CF98894F;
    assert Rotl(0x34258E327D593F2C, 31) == 0x3EAC9F961A12C719;
    assert 0x3EAC9F961A12C719 * PRIME1 == 0xD8BFC2B051F3B82F;
    assert Round(0x60EA27EEADC0B5DD, 0x0807060504030201) == 0xD8BFC2B051F3B82F;
    assert 0x100F0E0D0C0B0A09 * PRIME2 == 0x91E479E588125BC7;
    assert Rotl(0x54972822AFE7471D, 31) == 0x57F3A38EAA4B9411;
    assert 0x57F3A38EAA4B9411 * PRIME1 == 0xA7DDD2AA314B7EF7;
    assert Round(0xC2B2AE3D27D4EB56, 0x100F0E0D0C0B0A09) == 0xA7DDD2AA314B7EF7;
    assert 0x1817161514131211 * PRIME2 == 0x508D8D87408C2E3F;
    assert Rotl(0x508D8D87408C2E46, 31) == 0xA04617232846C6C3;
    assert 0xA04617232846C6C3 * PRIME1 == 0xAF314760DA29AED5;
    assert Round(0x0000000000000007, 0x1817161514131211) == 0xAF314760DA29AED5;
    assert 0x201F1E1D1C1B1A19 * PRIME2 == 0x0F36A128F90600B7;
    assert Rotl(0x70FF2777731A3637, 31) == 0xB98D1B1BB87F93BB;
    assert 0xB98D1B1BB87F93BB * PRIME1 == 0x7E4F575AB981759D;
    assert Round(0x61C8864E7A143580, 0x201F1E1D1C1B1A19) == 0x7E4F575AB981759D;
    assert 0x2827262524232221 * PRIME2 == 0xCDDFB4CAB17FD32F;
    assert Rotl(0xA69F777B03738B5E, 31) == 0x81B9C5AF534FBBBD;
    assert 0x81B9C5AF534FBBBD * PRIME1 == 0xD2A5A09960AE22AB;
    assert Round(0xD8BFC2B051F3B82F, 0x2827262524232221) == 0xD2A5A09960AE22AB;
    assert 0x302F2E2D2C2B2A29 * PRIME2 == 0x8C88C86C69F9A5A7;
    assert Rotl(0x34669B169B45249E, 31) == 0x4DA2924F1A334D8B;
    assert 0x4DA2924F1A334D8B * PRIME1 == 0x6F6396DFB1D6924D;
    assert Round(0xA7DDD2AA314B7EF7, 0x302F2E2D2C2B2A29) == 0x6F6396DFB1D6924D;
  }

  lemma TwoStripesSteps2()
    ensures Round(0xAF314760DA29AED5, 0x3837363534333231) == 0xDDC0581CF81B3D81
    ensures Round(0x7E4F575AB981759D, 0x403F3E3D3C3B3A39) == 0x7A7E4E634943AD23
    ensures Converge(Acc(0xD2A5A09960AE22AB, 0x6F6396DFB1D6924D, 0xDDC0581CF81B3D81, 0x7A7E4E634943AD23))
      == 0x48F384C80942AF6F
  {
    assert 0x3837363534333231 * PRIME2 == 0x4B31DC0E2273781F;
    assert Rotl(0xFA63236EFC9D26F4, 31) == 0x7E4E937A7D3191B7;
    assert 0x7E4E937A7D3191B7 * PRIME1 == 0xDDC0581CF81B3D81;
    assert Round(0xAF314760DA29AED5, 0x3837363534333231) == 0xDDC0581CF81B3D81;
    assert 0x403F3E3D3C3B3A39 * PRIME2 == 0x09DAEFAFDAED4A97;
    assert Rotl(0x882A470A946EC034, 31) == 0x4A37601A44152385;
    assert 0x4A37601A44152385 * PRIME1 == 0x7A7E4E634943AD23;
    assert Round(0x7E4F575AB981759D, 0x403F3E3D3C3B3A39) == 0x7A7E4E634943AD23;
    assert Rotl(0xD2A5A09960AE22AB, 1) == 0xA54B4132C15C4557;
    assert Rotl(0x6F6396DFB1D6924D, 7) == 0xB1CB6FD8EB4926B7;
    assert Rotl(0xDDC0581CF81B3D81, 12) == 0x0581CF81B3D81DDC;
    assert Rotl(0x7A7E4E634943AD23, 18) == 0x398D250EB48DE9F9;
    assert 0xD2A5A09960AE22AB * PRIME2 == 0x7E3C6F50722BABC5;
    assert Rotl(0x7E3C6F50722BABC5, 31) == 0x3915D5E2BF1E37A8;
    assert 0x3915D5E2BF1E37A8 * PRIME1 == 0x8B03BC300011E998;
    assert Round(0, 0xD2A5A09960AE22AB) == 0x8B03BC300011E998;
    assert 0x9625A59C150B73E3 ^ 0x8B03BC300011E998 == (0x1D2619AC151A9A7B as bv64);
    assert 0x1D2619AC151A9A7B * PRIME1 == 0xAC1D761ED4D584DD;
    assert MergeRound(0x9625A59C150B73E3, 0xD2A5A09960AE22AB) == 0x3209409697883340;
    assert 0x6F6396DFB1D6924D * PRIME2 == 0x1BAD0F9BBC47D4C3;
    assert Rotl(0x1BAD0F9BBC47D4C3, 31) == 0xDE23EA618DD687CD;
    assert 0xDE23EA618DD687CD * PRIME1 == 0x7CAE05963D785F1B;
    assert Round(0, 0x6F6396DFB1D6924D) == 0x7CAE05963D785F1B;
    assert 0x3209409697883340 ^ 0x7CAE05963D785F1B == (0x4EA74500AAF06C5B as bv64);
    assert 0x4EA74500AAF06C5B * PRIME1 == 0x6C12AB2598D1F1FD;
    assert MergeRound(0x3209409697883340, 0x6F6396DFB1D6924D) == 0xF1FE759D5B84A060;
    assert 0xDDC0581CF81B3D81 * PRIME2 == 0x8904BB5C27B165CF;
    assert Rotl(0x8904BB5C27B165CF, 31) == 0x13D8B2E7C4825DAE;
    assert 0x13D8B2E7C4825DAE * PRIME1 == 0x19165AECE364B2C2;
    assert Round(0, 0xDDC0581CF81B3D81) == 0x19165AECE364B2C2;
    assert 0xF1FE759D5B84A060 ^ 0x19165AECE364B2C2 == (0xE8E82F71B8E012A2 as bv64);
    assert 0xE8E82F71B8E012A2 * PRIME1 == 0x62DB543A9193A76E;
    assert MergeRound(0xF1FE759D5B84A060, 0xDDC0581CF81B3D81) == 0xE8C71EB2544655D1;
    assert 0x7A7E4E634943AD23 * PRIME2 == 0x26755BA771CD8ECD;
    assert Rotl(0x26755BA771CD8ECD, 31) == 0xB8E6C766933AADD3;
    assert 0xB8E6C766933AADD3 * PRIME1 == 0x0AC0A45320CB2845;
    assert Round(0, 0x7A7E4E634943AD23) == 0x0AC0A45320CB2845;
    assert 0xE8C71EB2544655D1 ^ 0x0AC0A45320CB2845 == (0xE207BAE1748D7D94 as bv64);
    assert 0xE207BAE1748D7D94 * PRIME1 == 0xC307BA504690010C;
    assert MergeRound(0xE8C71EB2544655D1, 0x7A7E4E634943AD23) == 0x48F384C80942AF6F;
    assert Converge(Acc(0xD2A5A09960AE22AB, 0x6F6396DFB1D6924D, 0xDDC0581CF81B3D81, 0x7A7E4E634943AD23))
      == 0x48F384C80942AF6F;
  }

  lemma TwoStripesSteps3()
    ensures WithLength(0x48F384C80942AF6F, 0x0000000000000040) == 0x48F384C80942AFAF
    ensures Avalanche(0x48F384C80942AFAF) == 0x18E20FD81615075F
  {
    assert WithLength(0x48F384C80942AF6F, 0x0000000000000040) == 0x48F384C80942AFAF;
    assert 0x48F384C80942AFAF ^ (0x48F384C80942AFAF >> 33) == (0x48F384C82D3B6DCB as bv64);
    assert 0x48F384C82D3B6DCB * PRIME2 == 0xDBA2619B5C3C3AA5;
    assert 0xDBA2619B5C3C3AA5 ^ (0xDBA2619B5C3C3AA5 >> 29) == (0xDBA2619D812F367F as bv64);
    assert 0xDBA2619D812F367F * PRIME3 == 0x18E20FD80EF70887;
    assert 0x18E20FD80EF70887 ^ (0x18E20FD80EF70887 >> 32) == (0x18E20FD81615075F as bv64);
    assert Avalanche(0x48F384C80942AFAF) == 0x18E20FD81615075F;
  }

  /** The bytes 1 to 64: two stripes, behind a seed. */
  lemma TwoStripes()
    ensures Hash(Counting(64), 0x0000000000000007) == 0x18E20FD81615075F
  {
    hide Word, Tail, Round, Converge, Avalanche, Mix4, MixWord, Short, WithLength, Mix8, Init, Stripes,
      ReadLE32;
    var s: seq<byte> := Counting(64);
    TwoStripesWords();
    TwoStripesLiterals();
    TwoStripesSteps1();
    TwoStripesSteps2();
    TwoStripesSteps3();
    NoStripes(Init(0x0000000000000007), s);
    OneMore(Init(0x0000000000000007), s, 0);
    assert Stripes(Init(0x0000000000000007), s, 1)
      == Acc(0xD8BFC2B051F3B82F, 0xA7DDD2AA314B7EF7, 0xAF314760DA29AED5, 0x7E4F575AB981759D);
    OneMore(Init(0x0000000000000007), s, 1);
    assert Stripes(Init(0x0000000000000007), s, 2)
      == Acc(0xD2A5A09960AE22AB, 0x6F6396DFB1D6924D, 0xDDC0581CF81B3D81, 0x7A7E4E634943AD23);
    Nothing(0x48F384C80942AFAF, s);
  }
}
