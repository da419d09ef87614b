/** Bytes, little-endian fields and the constants of the LZ4 block format. */
module Bytes {

  newtype byte = x: int | 0 <= x < 256

  const MINMATCH := 4
  const LASTLITERALS := 5
  const MFLIMIT := 12
  const MIN_LENGTH := MFLIMIT + 1
  const WILDCOPYLENGTH := 8
  const MATCH_SAFEGUARD_DISTANCE := 2 * WILDCOPYLENGTH - MINMATCH
  const FASTLOOP_SAFE_DISTANCE := 64
  const RUN_MASK := 15
  const ML_MASK := 15
  const DISTANCE_MAX := 65535
  const KB64 := 65536
  const KB128 := 131072
  const GB := 0x4000_0000
  const TWO64 := 0x1_0000_0000_0000_0000

  function Min(a: int, b: int): int {
    if a < b then a else b
  }

  function Max(a: int, b: int): int {
    if a > b then a else b
  }

  /** The 16-bit little-endian field at position `i`. */
  function Read16(s: seq<byte>, i: nat): (v: nat)
    requires i + 2 <= |s|
    ensures v < 65536
  {
    s[i] as int + 256 * (s[i + 1] as int)
  }

  function Write16(v: nat): (s: seq<byte>)
    requires v < 65536
    ensures |s| == 2 && Read16(s, 0) == v
  {
    [(v % 256) as byte, (v / 256) as byte]
  }

  /** memcpy into a fixed-size buffer. */
  function Patch(b: seq<byte>, at: nat, p: seq<byte>): (r: seq<byte>)
    requires at + |p| <= |b|
    ensures |r| == |b|
  {
    b[..at] + p + b[at + |p|..]
  }

  function ReadLE32(s: seq<byte>, i: nat): (v: nat)
    requires i + 4 <= |s|
    ensures v < 0x1_0000_0000
  {
    s[i] as int + 0x100 * (s[i + 1] as int) + 0x1_0000 * (s[i + 2] as int) + 0x100_0000 * (s[i + 3] as int)
  }

  lemma SubSlice(s: seq<byte>, i: nat, n: nat, a: nat, b: nat)
    requires i + n <= |s| && a <= b <= n
    ensures s[i..i + n][a..b] == s[i + a..i + b]
  {
    var l, r := s[i..i + n][a..b], s[i + a..i + b];
    assert forall k :: 0 <= k < b - a ==> l[k] == r[k];
  }

  lemma FieldInSlice(s: seq<byte>, i: nat)
    requires i + 4 <= |s|
    ensures ReadLE32(s[i..i + 4], 0) == ReadLE32(s, i)
  {}

  lemma FieldsAgree(s: seq<byte>, i: nat, t: seq<byte>, j: nat)
    requires i + 4 <= |s| && j + 4 <= |t| && s[i..i + 4] == t[j..j + 4]
    ensures ReadLE32(s, i) == ReadLE32(t, j)
  {
    FieldInSlice(s, i);
    FieldInSlice(t, j);
  }

  lemma FieldInside(s: seq<byte>, at: nat, n: nat, k: nat)
    requires at + n <= |s| && k + 4 <= n
    ensures ReadLE32(s[at..at + n], k) == ReadLE32(s, at + k) && s[at..at + n][..k] == s[at..at + k]
  {
    hide ReadLE32;
    SubSlice(s, at, n, k, k + 4);
    SubSlice(s, at, n, 0, k);
    FieldsAgree(s[at..at + n], k, s, at + k);
  }

  lemma FieldInPrefix(s: seq<byte>, k: nat)
    requires 4 <= k <= |s|
    ensures ReadLE32(s[..k], 0) == ReadLE32(s, 0)
  {}

  function ReadLE64(s: seq<byte>, i: nat): (v: nat)
    requires i + 8 <= |s|
    ensures v < TWO64
  {
    ReadLE32(s, i) + 0x1_0000_0000 * ReadLE32(s, i + 4)
  }
}
