/**
 The LZ4 block format: what a block means, sequence by sequence, and which blocks
 respect the format's end-of-block restrictions. Every decoder and every compressor
 of the project is related to `Decode`.
 */
module BlockFormat {
  import opened Bytes

  /** A variable-length field: its value and the position after it. */
  datatype Length = NoLength | Length(value: nat, next: nat)

  /** The meaning of a block. `conforming` says that every match starts at least
      MFLIMIT bytes, and ends at least LASTLITERALS bytes, before the end. */
  datatype Decoded = Corrupt | Decoded(out: seq<byte>, conforming: bool)

  /** A run of 255 bytes closed by a smaller one; the value is their sum. */
  function ReadExtension(src: seq<byte>, i: nat): (r: Length)
    ensures r.Length? ==> i < r.next <= |src|
    decreases |src| - i
  {
    if i >= |src| then NoLength
    else if src[i] != 255 then Length(src[i] as int, i + 1)
    else match ReadExtension(src, i + 1)
      case NoLength => NoLength
      case Length(v, n) => Length(255 + v, n)
  }

  function ReadLength(src: seq<byte>, i: nat, nibble: nat): (r: Length)
    ensures r.Length? ==> i <= r.next && (i <= |src| ==> r.next <= |src|)
  {
    if nibble < 15 then Length(nibble, i)
    else match ReadExtension(src, i)
      case NoLength => NoLength
      case Length(v, n) => Length(15 + v, n)
  }

  /** One byte at a time, each copied from `offset` bytes back. The decoders turn
      offset 0, which the format forbids, into zero bytes. */
  function CopyMatch(out: seq<byte>, offset: nat, len: nat): (r: seq<byte>)
    requires offset <= |out|
    ensures |r| == |out| + len && out <= r
    decreases len
  {
    if len == 0 then out
    else CopyMatch(out + [if offset == 0 then 0 else out[|out| - offset]], offset, len - 1)
  }

  /** Decodes from the token at `i`; `out` is the history plus what is decoded so far. */
  function Decode(src: seq<byte>, i: nat, out: seq<byte>): (r: Decoded)
    ensures r.Decoded? ==> out <= r.out
    decreases |src| - i, 0
  {
    if i >= |src| then Corrupt
    else match ReadLength(src, i + 1, src[i] as int / 16)
      case NoLength => Corrupt
      case Length(ll, p) => DecodeLiterals(src, p, ll, src[i] as int % 16, out)
  }

  function DecodeLiterals(src: seq<byte>, p: nat, ll: nat, nibble: nat, out: seq<byte>): (r: Decoded)
    ensures r.Decoded? ==> out <= r.out && |r.out| >= |out| + ll && p + ll <= |src|
    decreases |src| - p, 0
  {
    if p + ll > |src| then Corrupt
    else if p + ll == |src| then Decoded(out + src[p..], true)
    else if p + ll + 2 > |src| then Corrupt
    else DecodeMatch(src, p + ll + 2, Read16(src, p + ll), nibble, out + src[p..p + ll])
  }

  function DecodeMatch(src: seq<byte>, p: nat, offset: nat, nibble: nat, out: seq<byte>): (r: Decoded)
    ensures r.Decoded? ==> out <= r.out
    decreases |src| - p, 2
  {
    match ReadLength(src, p, nibble)
    case NoLength => Corrupt
    case Length(mc, q) => DecodeCopy(src, q, offset, mc + MINMATCH, out)
  }

  function DecodeCopy(src: seq<byte>, q: nat, offset: nat, ml: nat, out: seq<byte>): (r: Decoded)
    ensures r.Decoded? ==> out <= r.out && |r.out| >= |out| + ml
    decreases |src| - q, 1
  {
    if offset > |out| then Corrupt
    else match Decode(src, q, CopyMatch(out, offset, ml))
      case Corrupt => Corrupt
      case Decoded(o, c) =>
        Decoded(o, c && |out| + MFLIMIT <= |o| && |out| + ml + LASTLITERALS <= |o|)
  }

  /** `Decode` up to the first match: the lengths announced from the token at `i` on. */
  ghost function OneSequence(src: seq<byte>, i: nat, out: seq<byte>): Decoded {
    if i >= |src| then Corrupt
    else match ReadLength(src, i + 1, src[i] as int / 16)
      case NoLength => Corrupt
      case Length(ll, p) =>
        if p + ll == |src| then Decoded(out + src[p..], true)
        else if p + ll + 2 > |src| then Corrupt
        else match ReadLength(src, p + ll + 2, src[i] as int % 16)
          case NoLength => Corrupt
          case Length(mc, q) => DecodeCopy(src, q, Read16(src, p + ll), mc + MINMATCH, out + src[p..p + ll])
  }

  lemma SequenceRead(src: seq<byte>, i: nat, out: seq<byte>)
    ensures Decode(src, i, out) == OneSequence(src, i, out)
  {
    hide DecodeCopy, ReadExtension;
    if i < |src| && ReadLength(src, i + 1, src[i] as int / 16).Length? {
      var Length(ll, p) := ReadLength(src, i + 1, src[i] as int / 16);
      var nibble := src[i] as int % 16;
      assert Decode(src, i, out) == DecodeLiterals(src, p, ll, nibble, out);
      if p + ll != |src| && p + ll + 2 <= |src| {
        assert DecodeLiterals(src, p, ll, nibble, out)
            == DecodeMatch(src, p + ll + 2, Read16(src, p + ll), nibble, out + src[p..p + ll]);
      }
    }
  }

  lemma EmptyBlock(src: seq<byte>, h: seq<byte>)
    requires src == [0]
    ensures Decode(src, 0, h) == Decoded(h, true)
  {
    assert h + src[1..] == h;
    assert Decode(src, 0, h) == DecodeLiterals(src, 1, 0, 0, h);
  }

  /** A conforming tail that still produces LASTLITERALS bytes has a token and that many bytes. */
  lemma {:induction false} TailRoom(src: seq<byte>, i: nat, out: seq<byte>)
    requires Decode(src, i, out).Decoded? && Decode(src, i, out).conforming
    requires |Decode(src, i, out).out| >= |out| + LASTLITERALS
    ensures i + 1 + LASTLITERALS <= |src|
    decreases |src| - i
  {
    hide CopyMatch, ReadExtension, Decode;
    SequenceRead(src, i, out);
    var Length(ll, p) := ReadLength(src, i + 1, src[i] as int / 16);
    if p + ll != |src| {
      var Length(mc, q) := ReadLength(src, p + ll + 2, src[i] as int % 16);
      TailRoom(src, q, CopyMatch(out + src[p..p + ll], Read16(src, p + ll), mc + MINMATCH));
    }
  }

  /** `CopyMatch` is the only extension in which every new byte repeats the one `offset` back. */
  lemma {:induction false} CopyMatchUnique(out: seq<byte>, offset: nat, len: nat, r: seq<byte>)
    requires 1 <= offset <= |out| && |r| == |out| + len && out <= r
    requires forall k :: |out| <= k < |r| ==> r[k] == r[k - offset]
    ensures r == CopyMatch(out, offset, len)
    decreases len
  {
    if len > 0 {
      var out' := out + [out[|out| - offset]];
      assert r[|out|] == r[|out| - offset];
      CopyMatchUnique(out', offset, len - 1, r);
    }
  }

  lemma {:induction false} CopyMatchZero(out: seq<byte>, len: nat, r: seq<byte>)
    requires |r| == |out| + len && out <= r
    requires forall k :: |out| <= k < |r| ==> r[k] == 0
    ensures r == CopyMatch(out, 0, len)
    decreases len
  {
    if len > 0 {
      CopyMatchZero(out + [0], len - 1, r);
    }
  }
}
