/** The byte-writing steps shared by the fast and the high-compression encoders. */
module BlockWriter {
  import opened Bytes
  import opened BlockEncoding
  import opened MemCopy

  ghost predicate SameOn(b: seq<byte>, b': seq<byte>, from: nat, to: nat) {
    to <= |b| == |b'| && forall k :: from <= k < to ==> b'[k] == b[k]
  }

  /** What a token, a literal length and literals look like before the match length is known. */
  function LiteralHead(lits: seq<byte>): (r: seq<byte>)
    ensures |r| == 1 + (|lits| + 240) / 255 + |lits|
  {
    [Token(|lits|, 0)] + EncodeLength(|lits|) + lits
  }

  /** The 255-bytes-then-rest loop. */
  method PutExtension(dst: array<byte>, op0: nat, n: nat) returns (op: nat)
    requires op0 + n / 255 + 1 <= dst.Length
    modifies dst
    ensures op == op0 + n / 255 + 1
    ensures Holds(dst[..], op0, EncodeExtension(n))
    ensures SameOutside(old(dst[..]), dst[..], op0, op)
  {
    var len := n;
    op := op0;
    while len >= 255
      invariant op0 <= op && op + len / 255 == op0 + n / 255
      invariant SameOutside(old(dst[..]), dst[..], op0, op)
      invariant forall k :: op0 <= k < op ==> dst[k] == 255
      invariant len == n - 255 * (op - op0)
    {
      dst[op] := 255;
      op := op + 1;
      len := len - 255;
    }
    dst[op] := len as byte;
    op := op + 1;
    ExtensionBytes(dst[..], op0, n, op - 1 - op0);
  }

  lemma {:induction false} ExtensionBytes(b: seq<byte>, i: nat, n: nat, runs: nat)
    requires 0 <= n - 255 * runs < 255 && i + runs < |b|
    requires forall k :: i <= k < i + runs ==> b[k] == 255
    requires b[i + runs] as int == n - 255 * runs
    ensures Holds(b, i, EncodeExtension(n))
    decreases runs
  {
    if runs > 0 {
      ExtensionBytes(b, i + 1, n - 255, runs - 1);
      HoldsJoin(b, i, [255], EncodeExtension(n - 255));
    }
  }

  /** The match-length writer of the fast encoder: four bytes of 255 at a time, overrunning by up to 3 bytes. */
  method PutExtensionByFours(dst: array<byte>, op0: nat, n: nat) returns (op: nat)
    requires op0 + n / 255 + 4 <= dst.Length
    modifies dst
    ensures op == op0 + n / 255 + 1
    ensures Holds(dst[..], op0, EncodeExtension(n))
    ensures SameOutside(old(dst[..]), dst[..], op0, op + 3)
  {
    var len := n;
    op := op0;
    dst[op], dst[op + 1], dst[op + 2], dst[op + 3] := 255, 255, 255, 255;
    while len >= 4 * 255
      invariant op0 <= op && op + len / 255 == op0 + n / 255
      invariant SameOutside(old(dst[..]), dst[..], op0, op + 4)
      invariant forall k :: op0 <= k < op + 4 ==> dst[k] == 255
      invariant len == n - 255 * (op - op0)
    {
      op := op + 4;
      dst[op], dst[op + 1], dst[op + 2], dst[op + 3] := 255, 255, 255, 255;
      len := len - 4 * 255;
    }
    op := op + len / 255;
    dst[op] := (len % 255) as byte;
    op := op + 1;
    ExtensionBytes(dst[..], op0, n, op - 1 - op0);
  }

  /** The match-length writer of the high-compression encoder: two bytes of 255 at a time. */
  method PutExtensionByTwos(dst: array<byte>, op0: nat, n: nat) returns (op: nat)
    requires op0 + n / 255 + 1 <= dst.Length
    modifies dst
    ensures op == op0 + n / 255 + 1
    ensures Holds(dst[..], op0, EncodeExtension(n))
    ensures SameOutside(old(dst[..]), dst[..], op0, op)
  {
    var len := n;
    op := op0;
    while len >= 510
      invariant op0 <= op && op + len / 255 == op0 + n / 255
      invariant SameOutside(old(dst[..]), dst[..], op0, op)
      invariant forall k :: op0 <= k < op ==> dst[k] == 255
      invariant len == n - 255 * (op - op0)
    {
      dst[op], dst[op + 1] := 255, 255;
      op := op + 2;
      len := len - 510;
    }
    if len >= 255 {
      len := len - 255;
      dst[op] := 255;
      op := op + 1;
    }
    dst[op] := len as byte;
    op := op + 1;
    ExtensionBytes(dst[..], op0, n, op - 1 - op0);
  }

  /** Writes token, literal length and literals; the wild copy overruns by up to 8 bytes. */
  method PutLiterals(dst: array<byte>, token: nat, data: seq<byte>, anchor: nat, ll: nat) returns (op: nat)
    requires token + 1 + (ll + 240) / 255 + Max(ll + 7, 8) <= dst.Length
    requires anchor + ll + 8 <= |data|
    modifies dst
    ensures op == token + 1 + (ll + 240) / 255 + ll
    ensures Holds(dst[..], token, LiteralHead(data[anchor..anchor + ll]))
    ensures SameOutside(old(dst[..]), dst[..], token, Max(op + 7, op - ll + 8))
  {
    op := PutLiteralLength(dst, token, ll);
    ghost var b := dst[..];
    ghost var w := WildCopy8From(dst, op, data, anchor, op + ll);
    HeadWritten(b, dst[..], token, op, data[anchor..anchor + ll]);
    op := op + ll;
  }

  method PutLiteralLength(dst: array<byte>, token: nat, ll: nat) returns (op: nat)
    requires token + 1 + (ll + 240) / 255 <= dst.Length
    modifies dst
    ensures op == token + 1 + (ll + 240) / 255
    ensures Holds(dst[..], token, [Token(ll, 0)] + EncodeLength(ll))
    ensures SameOutside(old(dst[..]), dst[..], token, op)
  {
    op := token + 1;
    if ll >= RUN_MASK {
      dst[token] := (RUN_MASK * 16) as byte;
      op := PutExtension(dst, op, ll - RUN_MASK);
    } else {
      dst[token] := (ll * 16) as byte;
    }
    HoldsJoin(dst[..], token, [Token(ll, 0)], EncodeLength(ll));
  }

  lemma HeadWritten(b: seq<byte>, b': seq<byte>, token: nat, op: nat, lits: seq<byte>)
    requires op == token + 1 + |EncodeLength(|lits|)| && op + |lits| <= |b|
    requires Holds(b, token, [Token(|lits|, 0)] + EncodeLength(|lits|))
    requires SameOutside(b, b', op, |b|)
    requires forall k :: op <= k < op + |lits| ==> b'[k] == lits[k - op]
    ensures Holds(b', token, LiteralHead(lits))
  {
    hide EncodeLength;
    Transfer(b, b', token, op, token, [Token(|lits|, 0)] + EncodeLength(|lits|));
    HoldsJoin(b', token, [Token(|lits|, 0)] + EncodeLength(|lits|), lits);
  }

  /** The last literals, copied exactly. */
  method PutLastLiterals(dst: array<byte>, token: nat, data: seq<byte>, anchor: nat, ll: nat) returns (op: nat)
    requires token + 1 + (ll + 240) / 255 + ll <= dst.Length
    requires anchor + ll <= |data|
    modifies dst
    ensures op == token + 1 + (ll + 240) / 255 + ll
    ensures Holds(dst[..], token, EncodeLast(data[anchor..anchor + ll]))
    ensures SameOutside(old(dst[..]), dst[..], token, op)
  {
    op := PutLiteralLength(dst, token, ll);
    ghost var b := dst[..];
    CopyFrom(dst, op, data, anchor, ll);
    HeadWritten(b, dst[..], token, op, data[anchor..anchor + ll]);
    op := op + ll;
  }

  method PutOffset(dst: array<byte>, op: nat, offset: nat)
    requires op + 2 <= dst.Length && offset < 65536
    modifies dst
    ensures Holds(dst[..], op, Write16(offset))
    ensures SameOutside(old(dst[..]), dst[..], op, op + 2)
  {
    dst[op], dst[op + 1] := (offset % 256) as byte, (offset / 256) as byte;
  }

  /** Token, literals, offset and match length, once written, are the sequence. */
  lemma SequenceWritten(b: seq<byte>, b': seq<byte>, token: nat, op: nat, s: Sequence)
    requires s.Valid() && token + |LiteralHead(s.lits)| + 2 == op
    requires Holds(b, token, LiteralHead(s.lits)) && Holds(b, op - 2, Write16(s.offset))
    requires SameOn(b, b', token + 1, op)
    requires b'[token] as int == b[token] as int + Nibble(s.matchLen - MINMATCH)
    requires Holds(b', op, EncodeLength(s.matchLen - MINMATCH))
    ensures Holds(b', token, EncodeSequence(s))
  {
    hide EncodeLength, Write16, Token;
    var el, em, w := EncodeLength(|s.lits|), EncodeLength(s.matchLen - MINMATCH), Write16(s.offset);
    var t, t' := [Token(|s.lits|, 0)], [Token(|s.lits|, s.matchLen - MINMATCH)];
    HoldsParts(b, token, t + el, s.lits);
    HoldsParts(b, token, t, el);
    assert b[token] == t[0];
    Transfer(b, b', token + 1, op, token + 1, el);
    Transfer(b, b', token + 1, op, token + 1 + |el|, s.lits);
    Transfer(b, b', token + 1, op, op - 2, w);
    assert Holds(b', token, t') by {
      TokenSum(|s.lits|, s.matchLen - MINMATCH);
    }
    HoldsJoin(b', token, t', el);
    HoldsJoin(b', token, t' + el, s.lits);
    HoldsJoin(b', token, t' + el + s.lits, w);
    HoldsJoin(b', token, t' + el + s.lits + w, em);
  }

  lemma HeadToken(b: seq<byte>, token: nat, lits: seq<byte>)
    requires Holds(b, token, LiteralHead(lits))
    ensures b[token] % 16 == 0
  {
    assert b[token] == LiteralHead(lits)[0];
  }

  lemma TokenSum(ll: nat, mc: nat)
    ensures Token(ll, mc) as int == Token(ll, 0) as int + Nibble(mc)
  {}

  lemma Transfer(b: seq<byte>, b': seq<byte>, from: nat, to: nat, i: nat, e: seq<byte>)
    requires SameOn(b, b', from, to)
    requires from <= i && i + |e| <= to && Holds(b, i, e)
    ensures Holds(b', i, e)
  {}
}
