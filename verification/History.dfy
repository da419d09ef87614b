/** How much history a block needs: more never changes its meaning, and 65535 bytes are always enough. */
module History {
  import opened Bytes
  import opened BlockFormat

  function Last(s: seq<byte>, k: nat): (r: seq<byte>)
    requires k <= |s|
    ensures |r| == k
  {
    s[|s| - k..]
  }

  /** `d` is how the history ends. */
  ghost predicate EndsWith(h: seq<byte>, d: seq<byte>) {
    |d| <= |h| && Last(h, |d|) == d
  }

  lemma EndsWithLast(h: seq<byte>, k: nat)
    requires k <= |h|
    ensures EndsWith(h, Last(h, k))
  {}

  lemma LastOfLast(a: seq<byte>, k: nat, w: nat)
    requires w <= k <= |a|
    ensures Last(Last(a, k), w) == Last(a, w)
  {}

  lemma LastJoined(h: seq<byte>, b: seq<byte>, k: nat)
    requires k <= |h|
    ensures Last(h + b, k + |b|) == Last(h, k) + b
  {}

  lemma LastInside(h: seq<byte>, b: seq<byte>, k: nat)
    requires k <= |b|
    ensures Last(h + b, k) == Last(b, k)
  {}

  /** Memory that ends as `h` does, and goes on with `n` bytes, ends as `h` and those bytes. */
  lemma LastGrows(m: seq<byte>, at: nat, n: nat, k: nat, h: seq<byte>)
    requires k <= at && k <= |h| && at + n <= |m| && m[at - k..at] == Last(h, k)
    ensures m[at - k..at + n] == Last(h + m[at..at + n], k + n)
  {
    hide Last;
    LastJoined(h, m[at..at + n], k);
    assert m[at - k..at + n] == m[at - k..at] + m[at..at + n];
  }

  /** The same meaning, behind `x` more bytes of history. */
  ghost predicate Shifted(x: seq<byte>, r: Decoded, r': Decoded) {
    match r
    case Corrupt => r'.Corrupt?
    case Decoded(o, c) => r' == Decoded(x + o, c)
  }

  lemma {:induction false} CopyShifted(x: seq<byte>, out: seq<byte>, offset: nat, len: nat)
    requires offset <= |out|
    ensures CopyMatch(x + out, offset, len) == x + CopyMatch(out, offset, len)
    decreases len
  {
    if len > 0 {
      var b := if offset == 0 then 0 else out[|out| - offset];
      assert x + out + [b] == x + (out + [b]);
      CopyShifted(x, out + [b], offset, len - 1);
    }
  }

  /** History in front of what is reachable does not matter. */
  lemma {:induction false} DecodeShifted(src: seq<byte>, i: nat, x: seq<byte>, out: seq<byte>)
    requires |out| >= DISTANCE_MAX || Decode(src, i, out).Decoded?
    ensures Shifted(x, Decode(src, i, out), Decode(src, i, x + out))
    decreases |src| - i, 0
  {
    hide CopyMatch, ReadLength;
    if i < |src| {
      var lit := ReadLength(src, i + 1, src[i] as int / 16);
      if lit.Length? {
        LiteralsShifted(src, lit.next, lit.value, src[i] as int % 16, x, out);
      }
    }
  }

  lemma {:induction false} LiteralsShifted(src: seq<byte>, p: nat, ll: nat, nibble: nat, x: seq<byte>, out: seq<byte>)
    requires |out| >= DISTANCE_MAX || DecodeLiterals(src, p, ll, nibble, out).Decoded?
    ensures Shifted(x, DecodeLiterals(src, p, ll, nibble, out), DecodeLiterals(src, p, ll, nibble, x + out))
    decreases |src| - p, 0
  {
    hide Decode, CopyMatch, DecodeCopy;
    if p + ll == |src| {
      assert x + out + src[p..] == x + (out + src[p..]);
    } else if p + ll + 2 <= |src| {
      var out', offset := out + src[p..p + ll], Read16(src, p + ll);
      assert x + out + src[p..p + ll] == x + out';
      var ml := ReadLength(src, p + ll + 2, nibble);
      if ml.Length? {
        assert DecodeLiterals(src, p, ll, nibble, out) == DecodeMatch(src, p + ll + 2, offset, nibble, out')
            == DecodeCopy(src, ml.next, offset, ml.value + MINMATCH, out');
        assert DecodeLiterals(src, p, ll, nibble, x + out) == DecodeMatch(src, p + ll + 2, offset, nibble, x + out')
            == DecodeCopy(src, ml.next, offset, ml.value + MINMATCH, x + out');
        MatchShifted(src, ml.next, offset, ml.value + MINMATCH, x, out');
      }
    }
  }

  lemma {:induction false} MatchShifted(src: seq<byte>, q: nat, offset: nat, ml: nat, x: seq<byte>, out: seq<byte>)
    requires offset <= DISTANCE_MAX && (|out| >= DISTANCE_MAX || DecodeCopy(src, q, offset, ml, out).Decoded?)
    ensures Shifted(x, DecodeCopy(src, q, offset, ml, out), DecodeCopy(src, q, offset, ml, x + out))
    decreases |src| - q, 1
  {
    hide Decode, CopyMatch;
    CopyShifted(x, out, offset, ml);
    DecodeShifted(src, q, x, CopyMatch(out, offset, ml));
  }

  /** A block that decodes behind `d` decodes the same behind any history that ends with `d`. */
  lemma MoreHistory(src: seq<byte>, h: seq<byte>, d: seq<byte>, blk: seq<byte>)
    requires Decode(src, 0, d) == Decoded(d + blk, true) && EndsWith(h, d)
    ensures Decode(src, 0, h) == Decoded(h + blk, true)
  {
    hide Decode;
    var x := h[..|h| - |d|];
    assert h == x + d;
    DecodeShifted(src, 0, x, d);
    assert x + (d + blk) == h + blk;
  }

  /** A block that decodes behind `h` decodes the same behind the end of `h`, if all offsets stay inside that. */
  lemma LessHistory(src: seq<byte>, h: seq<byte>, k: nat, blk: seq<byte>)
    requires DISTANCE_MAX <= k <= |h| && Decode(src, 0, h) == Decoded(h + blk, true)
    ensures Decode(src, 0, Last(h, k)) == Decoded(Last(h, k) + blk, true)
  {
    hide Decode;
    var x, d := h[..|h| - k], Last(h, k);
    assert h == x + d;
    DecodeShifted(src, 0, x, d);
    var o := Decode(src, 0, d).out;
    assert (x + o)[|x|..] == o && (h + blk)[|x|..] == d + blk;
  }

  lemma Regrouped(a: seq<byte>, b: seq<byte>, c: seq<byte>)
    ensures (a + b) + c == a + (b + c)
  {}
}
