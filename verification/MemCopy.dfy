/**
 The copy primitives of the block codec, on a real buffer. `memcpy` demands
 disjoint ranges, as C does, so a verified caller never relies on overlap.
 A wild copy may write past the end it is given; its contract says how far.
 */
module MemCopy {
  import opened Bytes

  /** Every byte of [from, to) repeats the byte `period` before it. */
  ghost predicate Repeats(b: seq<byte>, from: int, to: int, period: nat)
    requires period <= from && to <= |b|
  {
    forall k :: from <= k < to ==> b[k] == b[k - period]
  }

  /** Outside [from, to) nothing changed. */
  ghost predicate SameOutside(b: seq<byte>, b': seq<byte>, from: int, to: int) {
    |b| == |b'| && forall k :: 0 <= k < |b| && !(from <= k < to) ==> b'[k] == b[k]
  }

  lemma SegmentKept(m: seq<byte>, m': seq<byte>, from: nat, to: nat, dest: nat, end: nat)
    requires from <= to <= |m| && SameOutside(m, m', dest, end) && (to <= dest || end <= from)
    ensures m'[from..to] == m[from..to]
  {}

  lemma OutsideMore(m: seq<byte>, m': seq<byte>, from: int, to: int, from': int, to': int)
    requires SameOutside(m, m', from, to) && from' <= from && to <= to'
    ensures SameOutside(m, m', from', to')
  {}

  lemma OutsideTwice(a: seq<byte>, b: seq<byte>, c: seq<byte>, from: int, to: int)
    requires SameOutside(a, b, from, to) && SameOutside(b, c, from, to)
    ensures SameOutside(a, c, from, to)
  {}

  method Copy(buf: array<byte>, d: nat, s: nat, n: nat)
    requires s + n <= d || d + n <= s
    requires s + n <= buf.Length && d + n <= buf.Length
    modifies buf
    ensures forall k :: d <= k < d + n ==> buf[k] == old(buf[k - d + s])
    ensures SameOutside(old(buf[..]), buf[..], d, d + n)
  {
    forall k | 0 <= k < n {
      buf[d + k] := buf[s + k];
    }
  }

  method CopyFrom(buf: array<byte>, d: nat, src: seq<byte>, s: nat, n: nat)
    requires s + n <= |src| && d + n <= buf.Length
    modifies buf
    ensures forall k :: d <= k < d + n ==> buf[k] == src[k - d + s]
    ensures SameOutside(old(buf[..]), buf[..], d, d + n)
  {
    forall k | 0 <= k < n {
      buf[d + k] := src[s + k];
    }
  }

  /** memcpy of a whole piece from another buffer. */
  method CopyPiece(buf: array<byte>, d: nat, piece: seq<byte>)
    requires d + |piece| <= buf.Length
    modifies buf
    ensures buf[..][d..d + |piece|] == piece
    ensures SameOutside(old(buf[..]), buf[..], d, d + |piece|)
  {
    CopyFrom(buf, d, piece, 0, |piece|);
  }

  /** LZ4_wildCopy8 within one buffer, from `d - s` bytes back. */
  method WildCopy8(buf: array<byte>, d: nat, s: nat, e: int) returns (ghost w: nat)
    requires s + 8 <= d && d + 8 <= buf.Length && e + 7 <= buf.Length
    modifies buf
    ensures e <= w && d + 8 <= w && (w <= e + 7 || w == d + 8) && w <= buf.Length
    ensures Repeats(buf[..], d, w, d - s)
    ensures SameOutside(old(buf[..]), buf[..], d, w)
  {
    var i, j := d, s;
    Copy(buf, i, j, 8);
    i, j := i + 8, j + 8;
    while i < e
      invariant d + 8 <= i && j == i - (d - s) && i <= buf.Length
      invariant i == d + 8 || i <= e + 7
      invariant Repeats(buf[..], d, i, d - s)
      invariant SameOutside(old(buf[..]), buf[..], d, i)
    {
      Copy(buf, i, j, 8);
      i, j := i + 8, j + 8;
    }
    w := i;
  }

  /** LZ4_wildCopy8 from another buffer; it may read up to 7 bytes past the range it serves. */
  method WildCopy8From(buf: array<byte>, d: nat, src: seq<byte>, s: nat, e: int) returns (ghost w: nat)
    requires d + 8 <= buf.Length && e + 7 <= buf.Length
    requires s + 8 <= |src| && s + (e - d) + 7 <= |src|
    modifies buf
    ensures e <= w && d + 8 <= w && (w <= e + 7 || w == d + 8) && w <= buf.Length && s + (w - d) <= |src|
    ensures forall k :: d <= k < w ==> buf[k] == src[k - d + s]
    ensures SameOutside(old(buf[..]), buf[..], d, w)
  {
    var i, j := d, s;
    CopyFrom(buf, i, src, j, 8);
    i, j := i + 8, j + 8;
    while i < e
      invariant d + 8 <= i && j == i - d + s && i <= buf.Length && j <= |src|
      invariant i == d + 8 || i <= e + 7
      invariant forall k :: d <= k < i ==> buf[k] == src[k - d + s]
      invariant SameOutside(old(buf[..]), buf[..], d, i)
    {
      CopyFrom(buf, i, src, j, 8);
      i, j := i + 8, j + 8;
    }
    w := i;
  }

  /** LZ4_wildCopy32 within one buffer: two 16-byte copies a round, for distances of 16 and more. */
  method WildCopy32(buf: array<byte>, d: nat, s: nat, e: int) returns (ghost w: nat)
    requires s + 16 <= d && d + 32 <= buf.Length && e + 31 <= buf.Length
    modifies buf
    ensures e <= w && d + 32 <= w && (w <= e + 31 || w == d + 32) && w <= buf.Length
    ensures Repeats(buf[..], d, w, d - s)
    ensures SameOutside(old(buf[..]), buf[..], d, w)
  {
    var i, j := d, s;
    Copy(buf, i, j, 16);
    Copy(buf, i + 16, j + 16, 16);
    i, j := i + 32, j + 32;
    while i < e
      invariant d + 32 <= i && j == i - (d - s) && i <= buf.Length
      invariant i == d + 32 || i <= e + 31
      invariant Repeats(buf[..], d, i, d - s)
      invariant SameOutside(old(buf[..]), buf[..], d, i)
    {
      Copy(buf, i, j, 16);
      Copy(buf, i + 16, j + 16, 16);
      i, j := i + 32, j + 32;
    }
    w := i;
  }

  method WildCopy32From(buf: array<byte>, d: nat, src: seq<byte>, s: nat, e: int) returns (ghost w: nat)
    requires d + 32 <= buf.Length && e + 31 <= buf.Length
    requires s + 32 <= |src| && s + (e - d) + 31 <= |src|
    modifies buf
    ensures e <= w && d + 32 <= w && (w <= e + 31 || w == d + 32) && w <= buf.Length && s + (w - d) <= |src|
    ensures forall k :: d <= k < w ==> buf[k] == src[k - d + s]
    ensures SameOutside(old(buf[..]), buf[..], d, w)
  {
    var i, j := d, s;
    CopyFrom(buf, i, src, j, 16);
    CopyFrom(buf, i + 16, src, j + 16, 16);
    i, j := i + 32, j + 32;
    while i < e
      invariant d + 32 <= i && j == i - d + s && i <= buf.Length && j <= |src|
      invariant i == d + 32 || i <= e + 31
      invariant forall k :: d <= k < i ==> buf[k] == src[k - d + s]
      invariant SameOutside(old(buf[..]), buf[..], d, i)
    {
      CopyFrom(buf, i, src, j, 16);
      CopyFrom(buf, i + 16, src, j + 16, 16);
      i, j := i + 32, j + 32;
    }
    w := i;
  }

  const inc32table: seq<int> := [0, 1, 2, 1, 0, 4, 4, 4]
  const dec64table: seq<int> := [0, 0, 0, -1, -4, 1, 2, 3]

  /** What one match copy promises: the bytes of [d, e) repeat with period `offset`;
      offset 0 gives zero bytes. */
  ghost predicate Matched(b: seq<byte>, d: nat, e: nat, offset: nat)
    requires offset <= d && e <= |b|
  {
    if offset == 0 then forall k :: d <= k < e ==> b[k] == 0 else Repeats(b, d, e, offset)
  }

  /** The distance at which the copy continues after its first 8 bytes. */
  function StrideOf(offset: nat): int {
    if offset < 8 then 8 - inc32table[offset] + dec64table[offset] + offset else offset
  }

  /** The first 4 bytes of a match, one by one, over zeroed ground. */
  method Copy4WithOffset(buf: array<byte>, d: nat, offset: nat)
    requires offset <= d && d + 4 <= buf.Length
    modifies buf
    ensures Matched(buf[..], d, d + 4, offset)
    ensures SameOutside(old(buf[..]), buf[..], d, d + 4)
  {
    for i := 0 to 4
      invariant SameOutside(old(buf[..]), buf[..], d, d + 4)
      invariant forall k :: d <= k < d + i ==> buf[k] == 0
    {
      buf[d + i] := 0;
    }
    for i := 0 to 4
      invariant SameOutside(old(buf[..]), buf[..], d, d + 4)
      invariant Matched(buf[..], d, d + i, offset)
      invariant offset == 0 ==> forall k :: d <= k < d + 4 ==> buf[k] == 0
    {
      buf[d + i] := buf[d - offset + i];
    }
  }

  /** The first 8 bytes of a match, table-driven below offset 8; returns where to go on reading. */
  method Copy8WithOffset(buf: array<byte>, d: nat, offset: nat) returns (m: int)
    requires offset <= d && d + 8 <= buf.Length
    modifies buf
    ensures m == d + 8 - StrideOf(offset)
    ensures Matched(buf[..], d, d + 8, offset)
    ensures SameOutside(old(buf[..]), buf[..], d, d + 8)
  {
    m := d - offset;
    if offset < 8 {
      Copy4WithOffset(buf, d, offset);
      m := m + inc32table[offset];
      ghost var b := buf[..];
      Copy(buf, d + 4, m, 4);
      SecondHalf(b, buf[..], d, offset);
      m := m - dec64table[offset];
    } else {
      Copy(buf, d, m, 8);
      m := m + 8;
    }
  }

  lemma SecondHalf(b: seq<byte>, b': seq<byte>, d: nat, offset: nat)
    requires offset < 8 && offset <= d && d + 8 <= |b|
    requires Matched(b, d, d + 4, offset)
    requires SameOutside(b, b', d + 4, d + 8)
    requires forall k :: d + 4 <= k < d + 8 ==> b'[k] == b[k - 4 - offset + inc32table[offset]]
    ensures Matched(b', d, d + 8, offset)
  {
    if offset > 0 {
      var stride := 4 + offset - inc32table[offset];
      var n := if offset == 1 then 4 else if offset <= 4 then 2 else 1;
      assert n * offset == stride;
      assert Repeats(b', d, d + 4, offset);
      for k := d + 4 to d + 8
        invariant Repeats(b', d, k, offset)
      {
        hide Repeats;
        MultipleOfPeriod(b', d, k, offset, n);
        OneMore(b', d, k, offset);
      }
    }
  }

  lemma OneMore(b: seq<byte>, d: nat, k: nat, offset: nat)
    requires offset <= d <= k < |b| && Repeats(b, d, k, offset) && b[k] == b[k - offset]
    ensures Repeats(b, d, k + 1, offset)
  {}

  /** After the first 8 bytes, copying at the stride keeps the match's own period. */
  lemma StrideKeepsMatch(b: seq<byte>, d: nat, e: nat, offset: nat)
    requires offset <= d <= e <= |b| && d + 8 <= |b|
    requires Matched(b, d, d + 8, offset)
    requires forall k :: d + 8 <= k < e ==> b[k] == b[k - StrideOf(offset)]
    ensures Matched(b, d, e, offset)
  {
    if offset == 0 {
      for k := d to e
        invariant forall i :: d <= i < k ==> b[i] == 0
      {
        assert k >= d + 8 ==> b[k] == b[k - StrideOf(0)];
      }
    } else {
      for k := d to e
        invariant Repeats(b, d, k, offset)
      {
        if k >= d + 8 {
          MultipleOfPeriod(b, d, k, offset, StrideOf(offset) / offset);
        }
      }
    }
  }

  /** Going back several periods inside a repeating range. */
  lemma {:induction false} MultipleOfPeriod(b: seq<byte>, d: nat, k: nat, offset: nat, n: nat)
    requires 1 <= offset <= d && d <= k <= |b| && Repeats(b, d, k, offset)
    requires 1 <= n && d <= k - (n - 1) * offset
    ensures b[k - offset] == b[k - n * offset]
    decreases n
  {
    if n > 1 {
      assert (n - 1) * offset == (n - 2) * offset + offset;
      MultipleOfPeriod(b, d, k, offset, n - 1);
      assert d <= k - (n - 1) * offset < k;
    }
  }

  /** LZ4_memcpy_using_offset_base. */
  method CopyUsingOffsetBase(buf: array<byte>, d: nat, e: nat, offset: nat)
    requires offset <= d <= e && d + 16 <= buf.Length && e + 7 <= buf.Length
    modifies buf
    ensures Matched(buf[..], d, e, offset)
    ensures SameOutside(old(buf[..]), buf[..], d, Max(d + 16, e + 7))
  {
    var m := Copy8WithOffset(buf, d, offset);
    ghost var w := WildCopy8(buf, d + 8, m, e);
    StrideKeepsMatch(buf[..], d, e, offset);
  }

  /** The `offset` bytes before position `i` are the first ones of the pattern. */
  ghost predicate Precedes(b: seq<byte>, i: nat, v: seq<byte>, offset: nat)
    requires offset <= i <= |b| && offset <= |v|
  {
    forall k :: 0 <= k < offset ==> b[i - offset + k] == v[k]
  }

  /** The 8-byte pattern LZ4_memcpy_using_offset builds for offsets 1, 2 and 4. */
  function PatternOf(b: seq<byte>, s: nat, offset: nat): (v: seq<byte>)
    requires offset in {1, 2, 4} && s + offset <= |b|
    ensures |v| == 8 && Repeats(v, offset, 8, offset)
    ensures Precedes(b, s + offset, v, offset) && Precedes(v, 8, v, offset)
  {
    if offset == 1 then [b[s], b[s], b[s], b[s], b[s], b[s], b[s], b[s]]
    else if offset == 2 then [b[s], b[s + 1], b[s], b[s + 1], b[s], b[s + 1], b[s], b[s + 1]]
    else b[s..s + 4] + b[s..s + 4]
  }

  /** LZ4_memcpy_using_offset. */
  method CopyUsingOffset(buf: array<byte>, d: nat, e: nat, offset: nat)
    requires offset <= d && d + MINMATCH <= e && e + 12 <= buf.Length
    modifies buf
    ensures Matched(buf[..], d, e, offset)
    ensures SameOutside(old(buf[..]), buf[..], d, e + 12)
  {
    if offset !in {1, 2, 4} {
      CopyUsingOffsetBase(buf, d, e, offset);
      return;
    }
    var v := PatternOf(buf[..], d - offset, offset);
    FillPattern(buf, d, e, v, offset);
  }

  method FillPattern(buf: array<byte>, d: nat, e: nat, v: seq<byte>, offset: nat)
    requires 1 <= offset <= 4 && offset <= d && d + MINMATCH <= e && e + 12 <= buf.Length
    requires |v| == 8 && Repeats(v, offset, 8, offset) && Precedes(v, 8, v, offset)
    requires Precedes(buf[..], d, v, offset)
    modifies buf
    ensures Repeats(buf[..], d, e, offset)
    ensures SameOutside(old(buf[..]), buf[..], d, e + 12)
  {
    hide Repeats, Precedes;
    ghost var b := buf[..];
    CopyFrom(buf, d, v, 0, 8);
    PatternAppended(b, buf[..], d, d, v, offset);
    var i := d + 8;
    while i < e
      invariant d + 8 <= i && (i == d + 8 || i <= e + 7)
      invariant SameOutside(old(buf[..]), buf[..], d, i)
      invariant Precedes(buf[..], i, v, offset)
      invariant Repeats(buf[..], d, i, offset)
    {
      b := buf[..];
      CopyFrom(buf, i, v, 0, 8);
      PatternAppended(b, buf[..], d, i, v, offset);
      i := i + 8;
    }
    RepeatsLess(buf[..], d, e, i, offset);
  }

  lemma RepeatsLess(b: seq<byte>, d: nat, e: nat, i: nat, offset: nat)
    requires offset <= d && e <= i <= |b| && Repeats(b, d, i, offset)
    ensures Repeats(b, d, e, offset)
  {}

  /** One more copy of the pattern after [d, i) keeps the period. */
  lemma PatternAppended(was: seq<byte>, b: seq<byte>, d: nat, i: nat, v: seq<byte>, offset: nat)
    requires 1 <= offset <= 4 && offset <= d <= i && i + 8 <= |b| && |v| == 8 && SameOutside(was, b, i, i + 8)
    requires Repeats(v, offset, 8, offset) && Precedes(v, 8, v, offset)
    requires i == d || Repeats(was, d, i, offset)
    requires Precedes(was, i, v, offset)
    requires forall k :: i <= k < i + 8 ==> b[k] == v[k - i]
    ensures Repeats(b, d, i + 8, offset) && Precedes(b, i + 8, v, offset)
  {
    forall k | i <= k < i + 8 ensures b[k] == b[k - offset] {
      if k < i + offset {
        assert was[i - offset + (k - i)] == v[k - i];
      }
    }
    forall k | 0 <= k < offset ensures b[i + 8 - offset + k] == v[k] {
      assert v[8 - offset + k] == v[k];
    }
  }
}
