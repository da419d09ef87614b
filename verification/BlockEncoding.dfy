/**
 Writing blocks: sequences of literals and matches, the bytes they are written as, and the
 theorem that a block written for a valid parse of some data decodes to that data.
 */
module BlockEncoding {
  import opened Bytes
  import opened BlockFormat

  datatype Sequence = Sequence(lits: seq<byte>, offset: nat, matchLen: nat)
  {
    ghost predicate Valid() {
      1 <= offset <= DISTANCE_MAX && matchLen >= MINMATCH
    }
  }

  function EncodeExtension(n: nat): (r: seq<byte>)
    ensures |r| == n / 255 + 1
  {
    if n < 255 then [n as byte] else [255] + EncodeExtension(n - 255)
  }

  /** The bytes of a length beyond what its token nibble holds. */
  function EncodeLength(n: nat): (r: seq<byte>)
    ensures |r| == (n + 240) / 255
  {
    if n < 15 then [] else EncodeExtension(n - 15)
  }

  function Nibble(n: nat): (r: nat)
    ensures r < 16
  {
    if n < 15 then n else 15
  }

  function Token(ll: nat, mc: nat): byte {
    (16 * Nibble(ll) + Nibble(mc)) as byte
  }

  function EncodeSequence(s: Sequence): (r: seq<byte>)
    requires s.Valid()
    ensures |r| == 3 + (|s.lits| + 240) / 255 + |s.lits| + (s.matchLen - MINMATCH + 240) / 255
  {
    [Token(|s.lits|, s.matchLen - MINMATCH)] + EncodeLength(|s.lits|) + s.lits
      + Write16(s.offset) + EncodeLength(s.matchLen - MINMATCH)
  }

  function EncodeLast(lits: seq<byte>): (r: seq<byte>)
    ensures |r| == 1 + (|lits| + 240) / 255 + |lits|
  {
    [Token(|lits|, 0)] + EncodeLength(|lits|) + lits
  }

  function Encode(seqs: seq<Sequence>): seq<byte>
    requires forall s :: s in seqs ==> s.Valid()
  {
    if seqs == [] then [] else Encode(seqs[..|seqs| - 1]) + EncodeSequence(seqs[|seqs| - 1])
  }

  /** `len` bytes at `p` are also found `offset` bytes earlier. */
  ghost predicate IsMatch(data: seq<byte>, p: nat, offset: nat, len: nat) {
    1 <= offset <= p && p + len <= |data| && data[p..p + len] == data[p - offset..p - offset + len]
  }

  lemma MatchInside(data: seq<byte>, p: nat, offset: nat, len: nat)
    requires IsMatch(data, p, offset, len)
    ensures 1 <= offset <= p && p + len <= |data|
  {}

  /** The sequences, one after the other, cover data[from..to]. */
  ghost predicate Covers(data: seq<byte>, from: nat, seqs: seq<Sequence>, to: nat)
    decreases |seqs|
  {
    if seqs == [] then from == to <= |data|
    else
      var s := seqs[|seqs| - 1];
      && s.Valid()
      && |s.lits| + s.matchLen <= to <= |data|
      && s.lits == data[MatchStart(s, to) - |s.lits|..MatchStart(s, to)]
      && IsMatch(data, MatchStart(s, to), s.offset, s.matchLen)
      && Covers(data, from, seqs[..|seqs| - 1], to - |s.lits| - s.matchLen)
  }

  ghost function MatchStart(s: Sequence, to: nat): int {
    to - s.matchLen
  }

  /** The last match of sequences that end at `to` leaves room before `end`. */
  ghost predicate LeavesRoom(seqs: seq<Sequence>, to: nat, end: nat) {
    seqs != [] ==> to + LASTLITERALS <= end && MatchStart(seqs[|seqs| - 1], to) + MFLIMIT <= end
  }

  lemma {:induction false} CoversAll(data: seq<byte>, from: nat, seqs: seq<Sequence>, to: nat)
    requires Covers(data, from, seqs, to)
    ensures from <= to <= |data| && forall s :: s in seqs ==> s.Valid()
    decreases |seqs|
  {
    if seqs != [] {
      var n := |seqs| - 1;
      CoversAll(data, from, seqs[..n], to - |seqs[n].lits| - seqs[n].matchLen);
      forall s | s in seqs ensures s.Valid() {
        var i :| 0 <= i < |seqs| && seqs[i] == s;
        assert i < n ==> s == seqs[..n][i];
      }
    }
  }

  /** One more sequence extends the cover. */
  lemma CoversOneMore(data: seq<byte>, from: nat, seqs: seq<Sequence>, anchor: nat, ip: nat, s: Sequence)
    requires Covers(data, from, seqs, anchor) && forall x :: x in seqs ==> x.Valid()
    requires s.Valid() && anchor <= ip && ip + s.matchLen <= |data| && s.lits == data[anchor..ip]
    requires IsMatch(data, ip, s.offset, s.matchLen)
    ensures forall x :: x in seqs + [s] ==> x.Valid()
    ensures Covers(data, from, seqs + [s], ip + s.matchLen)
    ensures Encode(seqs + [s]) == Encode(seqs) + EncodeSequence(s)
  {
    hide IsMatch, EncodeSequence;
    assert (seqs + [s])[..|seqs|] == seqs;
  }

  // --- Reading back what was written ---

  /** The bytes `e` stand at position `i`. */
  ghost predicate Holds(src: seq<byte>, i: nat, e: seq<byte>) {
    i + |e| <= |src| && forall k :: 0 <= k < |e| ==> src[i + k] == e[k]
  }

  lemma HoldsParts(src: seq<byte>, i: nat, a: seq<byte>, b: seq<byte>)
    requires Holds(src, i, a + b)
    ensures Holds(src, i, a) && Holds(src, i + |a|, b)
  {
    assert forall k :: 0 <= k < |a| ==> a[k] == (a + b)[k];
    assert forall k :: 0 <= k < |b| ==> b[k] == (a + b)[|a| + k];
  }

  lemma HoldsJoin(src: seq<byte>, i: nat, a: seq<byte>, b: seq<byte>)
    requires Holds(src, i, a) && Holds(src, i + |a|, b)
    ensures Holds(src, i, a + b)
  {}

  lemma {:induction false} ReadEncodedExtension(src: seq<byte>, i: nat, n: nat)
    requires Holds(src, i, EncodeExtension(n))
    ensures ReadExtension(src, i) == Length(n, i + |EncodeExtension(n)|)
    decreases n
  {
    var e := EncodeExtension(n);
    assert src[i] == e[0];
    if n >= 255 {
      HoldsParts(src, i, [255], EncodeExtension(n - 255));
      ReadEncodedExtension(src, i + 1, n - 255);
    }
  }

  lemma ReadEncodedLength(src: seq<byte>, i: nat, n: nat)
    requires Holds(src, i, EncodeLength(n))
    ensures ReadLength(src, i, Nibble(n)) == Length(n, i + |EncodeLength(n)|)
  {
    if n >= 15 {
      ReadEncodedExtension(src, i, n - 15);
    }
  }

  lemma MatchIsCopy(data: seq<byte>, p: nat, offset: nat, len: nat)
    requires IsMatch(data, p, offset, len)
    ensures offset <= p && p + len <= |data| && CopyMatch(data[..p], offset, len) == data[..p + len]
  {
    forall k | p <= k < p + len ensures data[k] == data[k - offset] {
      assert data[p..p + len][k - p] == data[p - offset..p - offset + len][k - p];
    }
    CopyMatchUnique(data[..p], offset, len, data[..p + len]);
  }

  /** A written token, literal length and literals lead to the bytes after them. */
  lemma DecodeWrittenLiterals(src: seq<byte>, i: nat, ll: nat, mc: nat, lits: seq<byte>, out: seq<byte>)
    requires |lits| == ll && Holds(src, i, [Token(ll, mc)] + EncodeLength(ll) + lits)
    ensures var p := i + 1 + |EncodeLength(ll)|;
      p + ll <= |src| && src[p..p + ll] == lits
      && Decode(src, i, out) == DecodeLiterals(src, p, ll, Nibble(mc), out)
  {
    HoldsParts(src, i, [Token(ll, mc)] + EncodeLength(ll), lits);
    HoldsParts(src, i, [Token(ll, mc)], EncodeLength(ll));
    assert src[i] == [Token(ll, mc)][0];
    ReadEncodedLength(src, i + 1, ll);
  }

  /** What decoding one more written sequence does. */
  lemma DecodeOne(src: seq<byte>, i: nat, s: Sequence, out: seq<byte>)
    requires s.Valid() && Holds(src, i, EncodeSequence(s))
    ensures Decode(src, i, out) == DecodeCopy(src, i + |EncodeSequence(s)|, s.offset, s.matchLen, out + s.lits)
  {
    hide Decode, DecodeMatch, DecodeCopy, EncodeLength, Holds;
    var ll, mc := |s.lits|, s.matchLen - MINMATCH;
    var el, w, em := EncodeLength(ll), Write16(s.offset), EncodeLength(mc);
    var head := [Token(ll, mc)] + el + s.lits;
    HoldsParts(src, i, head + w, em);
    HoldsParts(src, i, head, w);
    DecodeWrittenLiterals(src, i, ll, mc, s.lits, out);
    HoldsWrite16(src, i + |head|, s.offset);
    DecodeWrittenMatch(src, i + |head| + 2, s.offset, mc, out + s.lits);
  }

  lemma HoldsWrite16(src: seq<byte>, i: nat, v: nat)
    requires v < 65536 && Holds(src, i, Write16(v))
    ensures Read16(src, i) == v
  {
    assert src[i] == src[i..i + 2][0] && src[i + 1] == src[i..i + 2][1];
  }

  lemma DecodeWrittenMatch(src: seq<byte>, i: nat, offset: nat, mc: nat, out: seq<byte>)
    requires Holds(src, i, EncodeLength(mc))
    ensures DecodeMatch(src, i, offset, Nibble(mc), out)
      == DecodeCopy(src, i + |EncodeLength(mc)|, offset, mc + MINMATCH, out)
  {
    ReadEncodedLength(src, i, mc);
  }

  /** A match that leaves enough room keeps the meaning of what follows. */
  lemma ConformingCopy(src: seq<byte>, q: nat, offset: nat, ml: nat, out: seq<byte>, end: nat)
    requires offset <= |out| && |out| + MFLIMIT <= end && |out| + ml + LASTLITERALS <= end
    requires var r := Decode(src, q, CopyMatch(out, offset, ml)); r.Decoded? && |r.out| == end
    ensures DecodeCopy(src, q, offset, ml, out) == Decode(src, q, CopyMatch(out, offset, ml))
  {}

  /** Decoding written sequences comes to the byte after them with exactly the covered data. */
  lemma {:induction false} DecodeWritten(src: seq<byte>, data: seq<byte>, from: nat, seqs: seq<Sequence>, to: nat,
                                         end: nat)
    requires Covers(data, from, seqs, to) && from <= to && forall s :: s in seqs ==> s.Valid()
    requires Holds(src, 0, Encode(seqs)) && LeavesRoom(seqs, to, end)
    requires var r := Decode(src, |Encode(seqs)|, data[..to]); r.Decoded? && |r.out| == end
    ensures Decode(src, 0, data[..from]) == Decode(src, |Encode(seqs)|, data[..to])
    decreases |seqs|
  {
    hide Decode, DecodeCopy, EncodeSequence, CopyMatch, Holds, IsMatch;
    if seqs != [] {
      var n := |seqs| - 1;
      var s, seqs' := seqs[n], seqs[..n];
      var pos := to - |s.lits| - s.matchLen;
      CoversAll(data, from, seqs', pos);
      HoldsParts(src, 0, Encode(seqs'), EncodeSequence(s));
      assert data[..pos] + s.lits == data[..pos + |s.lits|];
      DecodeOne(src, |Encode(seqs')|, s, data[..pos]);
      MatchIsCopy(data, pos + |s.lits|, s.offset, s.matchLen);
      assert s.offset <= pos + |s.lits| by {
        MatchInside(data, pos + |s.lits|, s.offset, s.matchLen);
      }
      ConformingCopy(src, |Encode(seqs)|, s.offset, s.matchLen, data[..pos + |s.lits|], end);
      DecodeWritten(src, data, from, seqs', pos, end);
    }
  }

  /** The block written for a cover and last literals means exactly the data. */
  lemma WrittenBlockDecodes(data: seq<byte>, from: nat, seqs: seq<Sequence>, to: nat, end: nat)
    requires Covers(data, from, seqs, to) && from <= to && forall s :: s in seqs ==> s.Valid()
    requires to <= end <= |data| && LeavesRoom(seqs, to, end)
    ensures Decode(Encode(seqs) + EncodeLast(data[to..end]), 0, data[..from]) == Decoded(data[..end], true)
  {
    hide Decode, Encode, Covers;
    var e, lits := Encode(seqs), data[to..end];
    var src := e + EncodeLast(lits);
    HoldsParts(src, 0, e, EncodeLast(lits));
    DecodeWrittenLiterals(src, |e|, |lits|, 0, lits, data[..to]);
    assert data[..to] + lits == data[..end];
    DecodeWritten(src, data, from, seqs, to, end);
  }
}
