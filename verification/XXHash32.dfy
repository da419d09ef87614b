/** XXH32: the one-shot hash and the streaming hash compute the same function of the input. */
module XXHash32 {
  import opened Bytes
  import opened HashInput

  const PRIME1: bv32 := 2654435761
  const PRIME2: bv32 := 2246822519
  const PRIME3: bv32 := 3266489917
  const PRIME4: bv32 := 668265263
  const PRIME5: bv32 := 374761393

  function Rotl(x: bv32, r: nat): bv32
    requires r < 32
  {
    (x << r) | (x >> (32 - r))
  }

  function Word(n: nat): bv32
    requires n < 0x1_0000_0000
  {
    n as bv32
  }

  function Read(s: seq<byte>, i: nat): bv32
    requires i + 4 <= |s|
  {
    Word(ReadLE32(s, i))
  }

  /** XXH32_round. */
  function Round(acc: bv32, input: bv32): bv32 {
    Rotl(acc + input * PRIME2, 13) * PRIME1
  }

  /** XXH32_avalanche. */
  function Avalanche(h: bv32): bv32 {
    var a := (h ^ (h >> 15)) * PRIME2;
    var b := (a ^ (a >> 13)) * PRIME3;
    b ^ (b >> 16)
  }

  // --- The algorithm of the specification ---

  datatype Acc = Acc(v1: bv32, v2: bv32, v3: bv32, v4: bv32)

  function Init(seed: bv32): Acc {
    Acc(seed + PRIME1 + PRIME2, seed + PRIME2, seed, seed - PRIME1)
  }

  function Stripe(a: Acc, s: seq<byte>, i: nat): Acc
    requires i + 16 <= |s|
  {
    Acc(Round(a.v1, Read(s, i)), Round(a.v2, Read(s, i + 4)), Round(a.v3, Read(s, i + 8)), Round(a.v4, Read(s, i + 12)))
  }

  /** After the first `k` stripes. */
  function Stripes(a: Acc, s: seq<byte>, k: nat): Acc
    requires 16 * k <= |s|
  {
    if k == 0 then a else Stripe(Stripes(a, s, k - 1), s, 16 * (k - 1))
  }

  function Converge(a: Acc): bv32 {
    Rotl(a.v1, 1) + Rotl(a.v2, 7) + Rotl(a.v3, 12) + Rotl(a.v4, 18)
  }

  function Mix4(h: bv32, input: bv32): bv32 {
    Rotl(h + input * PRIME3, 17) * PRIME4
  }

  function MixWord(h: bv32, input: bv32): bv32 {
    Rotl(h + input * PRIME5, 11) * PRIME1
  }

  function Mix1(h: bv32, input: byte): bv32 {
    MixWord(h, Word(input as int))
  }

  function Step4(h: bv32, s: seq<byte>, i: nat): bv32
    requires i + 4 <= |s|
  {
    Mix4(h, Read(s, i))
  }

  function Step1(h: bv32, s: seq<byte>, i: nat): bv32
    requires i < |s|
  {
    Mix1(h, s[i])
  }

  /** What is left: 4-byte steps, then 1-byte steps. */
  function Tail(h: bv32, s: seq<byte>, i: nat): bv32
    requires i <= |s|
    decreases |s| - i
  {
    if i + 4 <= |s| then Tail(Step4(h, s, i), s, i + 4)
    else if i < |s| then Tail(Step1(h, s, i), s, i + 1)
    else h
  }

  function Length(n: nat): bv32 {
    Word(n % 0x1_0000_0000)
  }

  function Short(seed: bv32): bv32 {
    seed + PRIME5
  }

  function WithLength(h: bv32, length: bv32): bv32 {
    h + length
  }

  function Body(s: seq<byte>, seed: bv32): bv32 {
    if |s| >= 16 then Converge(Stripes(Init(seed), s, |s| / 16)) else Short(seed)
  }

  function Hash(s: seq<byte>, seed: bv32): bv32 {
    Avalanche(Tail(WithLength(Body(s, seed), Length(|s|)), s, |s| - |s| % 16))
  }

  // --- The code ---

  method Process4(h: bv32, s: seq<byte>, p: nat) returns (h': bv32, p': nat)
    requires p + 4 <= |s|
    ensures p' == p + 4 && Tail(h', s, p') == Tail(h, s, p)
  {
    hide Step1, Step4;
    h', p' := Step4(h, s, p), p + 4;
  }

  method Process1(h: bv32, s: seq<byte>, p: nat) returns (h': bv32, p': nat)
    requires p < |s| < p + 4
    ensures p' == p + 1 && Tail(h', s, p') == Tail(h, s, p)
  {
    hide Step1, Step4;
    h', p' := Step1(h, s, p), p + 1;
  }

  lemma Nothing(h: bv32, s: seq<byte>)
    ensures Tail(h, s, |s|) == h
  {}

  /** XXH32_finalize: a switch on the length, whose cases fall through. */
  method Finalize(h: bv32, s: seq<byte>, p: nat, len: nat) returns (r: bv32)
    requires p + len % 16 == |s|
    ensures r == Avalanche(Tail(h, s, p))
  {
    hide Avalanche, Tail;
    var x, q, k := h, p, len % 16;
    if k == 12 || k == 8 || k == 4 {
      if k == 12 { x, q := Process4(x, s, q); }
      if k != 4 { x, q := Process4(x, s, q); }
      x, q := Process4(x, s, q);
    } else if k == 13 || k == 9 || k == 5 {
      if k == 13 { x, q := Process4(x, s, q); }
      if k != 5 { x, q := Process4(x, s, q); }
      x, q := Process4(x, s, q);
      x, q := Process1(x, s, q);
    } else if k == 14 || k == 10 || k == 6 {
      if k == 14 { x, q := Process4(x, s, q); }
      if k != 6 { x, q := Process4(x, s, q); }
      x, q := Process4(x, s, q);
      x, q := Process1(x, s, q);
      x, q := Process1(x, s, q);
    } else {
      if k == 15 { x, q := Process4(x, s, q); }
      if k >= 11 { x, q := Process4(x, s, q); }
      if k >= 7 { x, q := Process4(x, s, q); }
      if k >= 3 { x, q := Process1(x, s, q); }
      if k >= 2 { x, q := Process1(x, s, q); }
      if k >= 1 { x, q := Process1(x, s, q); }
    }
    r := Avalanche(x);
    Nothing(x, s);
  }

  /** XXH32_endian_align: the one-shot hash. */
  method OneShot(s: seq<byte>, seed: bv32) returns (r: bv32)
    ensures r == Hash(s, seed)
  {
    hide Round, Converge, Avalanche, Tail, Stripe, Init, Length, Short, WithLength;
    var h, p := Short(seed), 0;
    if |s| >= 16 {
      var limit := |s| - 15;
      var a := Init(seed);
      ghost var k := 0;
      while p < limit
        invariant p == 16 * k && 16 * k <= |s| && a == Stripes(Init(seed), s, k)
        decreases |s| - p
      {
        a := Stripe(a, s, p);
        p := p + 16;
        k := k + 1;
      }
      h := Converge(a);
    }
    r := Finalize(WithLength(h, Length(|s|)), s, p, |s|);
  }

  // --- Streaming ---

  lemma {:induction false} StripesPrefix(a: Acc, s: seq<byte>, t: seq<byte>, k: nat)
    requires 16 * k <= |s|
    ensures Stripes(a, s + t, k) == Stripes(a, s, k)
  {
    hide Stripe;
    if k > 0 {
      StripesPrefix(a, s, t, k - 1);
      StripeSame(Stripes(a, s, k - 1), s + t, 16 * (k - 1), s, 16 * (k - 1));
    }
  }

  lemma StripeSame(a: Acc, s: seq<byte>, i: nat, t: seq<byte>, j: nat)
    requires i + 16 <= |s| && j + 16 <= |t| && s[i..i + 16] == t[j..j + 16]
    ensures Stripe(a, s, i) == Stripe(a, t, j)
  {
    hide Round, Read;
    ReadSame(s, i, t, j, 0);
    ReadSame(s, i, t, j, 4);
    ReadSame(s, i, t, j, 8);
    ReadSame(s, i, t, j, 12);
  }

  lemma ReadSame(s: seq<byte>, i: nat, t: seq<byte>, j: nat, d: nat)
    requires d <= 12 && i + 16 <= |s| && j + 16 <= |t| && s[i..i + 16] == t[j..j + 16]
    ensures Read(s, i + d) == Read(t, j + d)
  {
    var w, x := s[i..i + 16], t[j..j + 16];
    assert w[d] == s[i + d] && w[d + 1] == s[i + d + 1] && w[d + 2] == s[i + d + 2] && w[d + 3] == s[i + d + 3];
    assert x[d] == t[j + d] && x[d + 1] == t[j + d + 1] && x[d + 2] == t[j + d + 2] && x[d + 3] == t[j + d + 3];
    assert ReadLE32(s, i + d) == ReadLE32(t, j + d);
  }

  /** The tail is read the same from its own buffer. */
  lemma TailSame(h: bv32, s: seq<byte>, i: nat, t: seq<byte>)
    requires i <= |s| && s[i..] == t
    ensures Tail(h, s, i) == Tail(h, t, 0)
  {
    TailMoved(h, s, i, t, 0);
  }

  lemma {:induction false} TailMoved(h: bv32, s: seq<byte>, i: nat, t: seq<byte>, j: nat)
    requires i <= |s| && j <= |t| && s[i..] == t[j..]
    ensures Tail(h, s, i) == Tail(h, t, j)
    decreases |s| - i
  {
    hide Step1, Step4;
    assert |s| - i == |t| - j;
    if i + 4 <= |s| {
      FourSame(h, s, i, t, j);
      TailMoved(Step4(h, s, i), s, i + 4, t, j + 4);
    } else if i < |s| {
      OneSame(h, s, i, t, j);
      TailMoved(Step1(h, s, i), s, i + 1, t, j + 1);
    }
  }

  lemma FourSame(h: bv32, s: seq<byte>, i: nat, t: seq<byte>, j: nat)
    requires i + 4 <= |s| && j + 4 <= |t| && s[i..] == t[j..]
    ensures Step4(h, s, i) == Step4(h, t, j) && s[i + 4..] == t[j + 4..]
  {
    hide Mix4, ReadLE32;
    FieldInSlice(s, i);
    FieldInSlice(t, j);
    assert s[i..i + 4] == s[i..][..4] == t[j..][..4] == t[j..j + 4];
    assert s[i + 4..] == s[i..][4..] == t[j..][4..] == t[j + 4..];
  }

  lemma OneSame(h: bv32, s: seq<byte>, i: nat, t: seq<byte>, j: nat)
    requires i < |s| && j < |t| && s[i..] == t[j..]
    ensures Step1(h, s, i) == Step1(h, t, j) && s[i + 1..] == t[j + 1..]
  {
    hide Mix1;
    assert s[i] == s[i..][0] == t[j..][0] == t[j];
    assert s[i + 1..] == s[i..][1..] == t[j..][1..] == t[j + 1..];
  }

  class State {
    var totalLen: nat
    var largeLen: bool
    var acc: Acc
    var mem: seq<byte>
    var memsize: nat

    /** What the state was given since it was reset, and the seed. */
    ghost var input: seq<byte>
    ghost var seed: bv32

    /** The accumulators cover the whole stripes of `s`, the buffer holds the rest. */
    ghost predicate Filled(s: seq<byte>)
      reads `mem, `memsize, `acc, `seed
    {
      && |mem| == 16 && memsize == |s| % 16 && mem[..memsize] == s[|s| - memsize..]
      && acc == Stripes(Init(seed), s, |s| / 16)
    }

    ghost predicate Counted(n: nat)
      reads `totalLen, `largeLen
    {
      totalLen == n % 0x1_0000_0000 && (largeLen <==> n >= 16)
    }

    ghost predicate Valid()
      reads this
    {
      Filled(input) && Counted(|input|)
    }

    /** XXH32_reset. */
    constructor (seed: bv32)
      ensures Valid() && input == [] && this.seed == seed
    {
      hide Init, Stripes;
      totalLen, largeLen, acc, memsize := 0, false, Init(seed), 0;
      mem := seq(16, _ => 0);
      this.input, this.seed := [], seed;
      NoStripes(Init(seed), []);
      assert 0 % 16 == 0 && 0 / 16 == 0;
    }

    /** XXH32_update. */
    method Update(bytes: seq<byte>)
      requires Valid()
      modifies this
      ensures Valid() && input == old(input) + bytes && seed == old(seed)
    {
      hide Counted, Filled;
      Count(|bytes|, |input|);
      Absorb(bytes);
      input := input + bytes;
    }

    method Count(len: nat, ghost n: nat)
      requires Counted(n)
      modifies `totalLen, `largeLen
      ensures Counted(n + len)
    {
      LargeEnough(n, len, totalLen, largeLen);
      totalLen := (totalLen + len) % 0x1_0000_0000;
      largeLen := largeLen || len >= 16 || totalLen >= 16;
    }

    method Absorb(bytes: seq<byte>)
      requires Filled(input)
      modifies `mem, `acc, `memsize
      ensures Filled(input + bytes)
    {
      hide Stripes, Stripe, Init, Patch;
      ghost var s, full := input, input + bytes;
      StripesPrefix(Init(seed), s, bytes, |s| / 16);
      if memsize + |bytes| < 16 {
        SameStripe(|s|, |bytes|);
        Stored(s, bytes, mem, memsize);
        mem := Patch(mem, memsize, bytes);
        memsize := memsize + |bytes|;
        return;
      }
      var p := 0;
      ghost var k := |s| / 16;
      if memsize > 0 {
        p := FillStripe(bytes, s);
        NextStripe(|s|);
        k := k + 1;
      }
      assert full[|s|..] == bytes;
      Consume(bytes, p, |s|, k, full);
    }

    /** The buffered bytes are completed to a stripe. */
    method FillStripe(bytes: seq<byte>, ghost s: seq<byte>) returns (p: nat)
      requires |mem| == 16 && 0 < memsize == |s| % 16 && mem[..memsize] == s[|s| - memsize..] && memsize + |bytes| >= 16
      requires acc == Stripes(Init(seed), s + bytes, |s| / 16)
      modifies `mem, `acc, `memsize
      ensures p == 16 - old(memsize) && memsize == 0 && |mem| == 16 && (|s| + p) % 16 == 0
      ensures acc == Stripes(Init(seed), s + bytes, (|s| + p) / 16)
    {
      hide Stripe, Init, Patch;
      p := 16 - memsize;
      Stored(s, bytes[..p], mem, memsize);
      mem := Patch(mem, memsize, bytes[..p]);
      ghost var at, full := |s| - memsize, s + bytes;
      assert mem == mem[..16] == (s + bytes[..p])[at..] == full[at..at + 16];
      StripeSame(acc, mem, 0, full, at);
      NextStripe(|s|);
      acc := Stripe(acc, mem, 0);
      memsize := 0;
    }

    /** Whole stripes from the input; the rest is buffered. `k` stripes are done before. */
    method Consume(bytes: seq<byte>, p0: nat, ghost n: nat, ghost k: nat, ghost full: seq<byte>)
      requires p0 <= |bytes| && n + p0 == 16 * k && |mem| == 16 && memsize == 0 && n + |bytes| == |full|
      requires full[n..] == bytes && acc == Stripes(Init(seed), full, k)
      modifies `mem, `acc, `memsize
      ensures Filled(full)
    {
      hide Stripes, Stripe, Init, Patch, Filled;
      var p := p0;
      ghost var m := k;
      while p + 16 <= |bytes|
        invariant p0 <= p <= |bytes| && n + p == 16 * m && acc == Stripes(Init(seed), full, m)
        invariant |mem| == 16 && memsize == 0
      {
        Inside(full, n, bytes, p, 16);
        StripeSame(acc, bytes, p, full, n + p);
        OneMore(Init(seed), full, m);
        acc := Stripe(acc, bytes, p);
        p, m := p + 16, m + 1;
      }
      Inside(full, n, bytes, p, 0);
      if p < |bytes| {
        Stored([], bytes[p..], mem, 0);
        mem := Patch(mem, 0, bytes[p..]);
        memsize := |bytes| - p;
      }
      NowFilled(full, m, bytes[p..]);
    }

    lemma NowFilled(full: seq<byte>, m: nat, rest: seq<byte>)
      requires |mem| == 16 && memsize == |rest| < 16 && |full| == 16 * m + |rest| && full[16 * m..] == rest
      requires mem[..memsize] == rest && acc == Stripes(Init(seed), full, m)
      ensures Filled(full)
    {
      hide Stripes, Init;
      LastStripe(m, |rest|);
    }

    /** XXH32_digest: the hash of all that was given, in whatever pieces. */
    method Digest() returns (r: bv32)
      requires Valid()
      ensures r == Hash(input, seed)
    {
      hide Converge, Avalanche, Tail, Stripes, WithLength, Length, Short, Init;
      SeedLane(seed);
      var h := if largeLen then Converge(acc) else Short(acc.v3);
      SameLength(|input|);
      h := WithLength(h, Length(totalLen));
      assert !largeLen ==> acc == Init(seed) by { NoStripes(Init(seed), input); }
      TailSame(h, input, |input| - memsize, mem[..memsize]);
      r := Finalize(h, mem[..memsize], 0, memsize);
    }
  }

  lemma SameStripe(n: nat, len: nat)
    requires n % 16 + len < 16
    ensures (n + len) % 16 == n % 16 + len && (n + len) / 16 == n / 16
  {}

  lemma NextStripe(n: nat)
    requires n % 16 > 0
    ensures (n + 16 - n % 16) / 16 == n / 16 + 1 && (n + 16 - n % 16) % 16 == 0 && 16 * (n / 16) == n - n % 16
  {}

  lemma OneMore(a: Acc, s: seq<byte>, k: nat)
    requires 16 * k + 16 <= |s|
    ensures Stripes(a, s, k + 1) == Stripe(Stripes(a, s, k), s, 16 * k)
  {
    hide Stripe;
  }

  lemma LastStripe(k: nat, left: nat)
    requires left < 16
    ensures (16 * k + left) / 16 == k && (16 * k + left) % 16 == left
  {}

  lemma SeedLane(seed: bv32)
    ensures Init(seed).v3 == seed
  {}

  lemma NoStripes(a: Acc, s: seq<byte>)
    ensures Stripes(a, s, 0) == a
  {}

  lemma SameLength(n: nat)
    ensures Length(n % 0x1_0000_0000) == Length(n)
  {}

  /** The sticky flag knows whether 16 bytes were ever reached, although the length wraps around. */
  lemma LargeEnough(n: nat, len: nat, total: nat, large: bool)
    requires total == n % 0x1_0000_0000 && (large <==> n >= 16)
    ensures (large || len >= 16 || (total + len) % 0x1_0000_0000 >= 16) <==> n + len >= 16
    ensures (total + len) % 0x1_0000_0000 == (n + len) % 0x1_0000_0000
  {}

  /** However the input is split into updates, the digest is the one-shot hash of the whole. */
  method Streamed(pieces: seq<seq<byte>>, seed: bv32) returns (digest: bv32)
    ensures digest == Hash(Concat(pieces), seed)
  {
    hide Hash, State.Valid;
    var state := new State(seed);
    assert pieces[..0] == [];
    for i := 0 to |pieces|
      invariant state.Valid() && state.seed == seed && state.input == Concat(pieces[..i])
      invariant fresh(state)
    {
      assert pieces[..i + 1][..i] == pieces[..i];
      state.Update(pieces[i]);
    }
    assert pieces[..|pieces|] == pieces;
    digest := state.Digest();
  }
}
