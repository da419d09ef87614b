/** XXH64: the one-shot hash and the streaming hash compute the same function of the input. */
module XXHash64 {
  import opened Bytes
  import opened HashInput

  const PRIME1: bv64 := 11400714785074694791
  const PRIME2: bv64 := 14029467366897019727
  const PRIME3: bv64 := 1609587929392839161
  const PRIME4: bv64 := 9650029242287828579
  const PRIME5: bv64 := 2870177450012600261

  function Rotl(x: bv64, r: nat): bv64
    requires r < 64
  {
    (x << r) | (x >> (64 - r))
  }

  function Word(n: nat): bv64
    requires n < TWO64
  {
    n as bv64
  }

  function Read(s: seq<byte>, i: nat): bv64
    requires i + 8 <= |s|
  {
    Word(ReadLE64(s, i))
  }

  /** XXH64_round. */
  function Round(acc: bv64, input: bv64): bv64 {
    Rotl(acc + input * PRIME2, 31) * PRIME1
  }

  /** XXH64_mergeRound. */
  function MergeRound(acc: bv64, val: bv64): bv64 {
    (acc ^ Round(0, val)) * PRIME1 + PRIME4
  }

  /** XXH64_avalanche. */
  function Avalanche(h: bv64): bv64 {
    var a := (h ^ (h >> 33)) * PRIME2;
    var b := (a ^ (a >> 29)) * PRIME3;
    b ^ (b >> 32)
  }

  // --- The algorithm of the specification ---

  datatype Acc = Acc(v1: bv64, v2: bv64, v3: bv64, v4: bv64)

  function Init(seed: bv64): Acc {
    Acc(seed + PRIME1 + PRIME2, seed + PRIME2, seed, seed - PRIME1)
  }

  function Stripe(a: Acc, s: seq<byte>, i: nat): Acc
    requires i + 32 <= |s|
  {
    Acc(Round(a.v1, Read(s, i)), Round(a.v2, Read(s, i + 8)),
        Round(a.v3, Read(s, i + 16)), Round(a.v4, Read(s, i + 24)))
  }

  /** After the first `k` stripes. */
  function Stripes(a: Acc, s: seq<byte>, k: nat): Acc
    requires 32 * k <= |s|
  {
    if k == 0 then a else Stripe(Stripes(a, s, k - 1), s, 32 * (k - 1))
  }

  function Converge(a: Acc): bv64 {
    var h := Rotl(a.v1, 1) + Rotl(a.v2, 7) + Rotl(a.v3, 12) + Rotl(a.v4, 18);
    MergeRound(MergeRound(MergeRound(MergeRound(h, a.v1), a.v2), a.v3), a.v4)
  }

  function Mix8(h: bv64, input: bv64): bv64 {
    Rotl(h ^ Round(0, input), 27) * PRIME1 + PRIME4
  }

  function Mix4(h: bv64, input: bv64): bv64 {
    Rotl(h ^ (input * PRIME1), 23) * PRIME2 + PRIME3
  }

  function MixWord(h: bv64, input: bv64): bv64 {
    Rotl(h ^ (input * PRIME5), 11) * PRIME1
  }

  function Mix1(h: bv64, input: byte): bv64 {
    MixWord(h, Word(input as int))
  }

  function Step8(h: bv64, s: seq<byte>, i: nat): bv64
    requires i + 8 <= |s|
  {
    Mix8(h, Read(s, i))
  }

  function Step4(h: bv64, s: seq<byte>, i: nat): bv64
    requires i + 4 <= |s|
  {
    Mix4(h, Word(ReadLE32(s, i)))
  }

  function Step1(h: bv64, s: seq<byte>, i: nat): bv64
    requires i < |s|
  {
    Mix1(h, s[i])
  }

  /** What is left: 8-byte steps, then 4-byte steps, then 1-byte steps. */
  function Tail(h: bv64, s: seq<byte>, i: nat): bv64
    requires i <= |s|
    decreases |s| - i
  {
    if i + 8 <= |s| then Tail(Step8(h, s, i), s, i + 8)
    else if i + 4 <= |s| then Tail(Step4(h, s, i), s, i + 4)
    else if i < |s| then Tail(Step1(h, s, i), s, i + 1)
    else h
  }

  function Length(n: nat): bv64 {
    Word(n % TWO64)
  }

  function Short(seed: bv64): bv64 {
    seed + PRIME5
  }

  function WithLength(h: bv64, length: bv64): bv64 {
    h + length
  }

  function Body(s: seq<byte>, seed: bv64): bv64 {
    if |s| >= 32 then Converge(Stripes(Init(seed), s, |s| / 32)) else Short(seed)
  }

  function Hash(s: seq<byte>, seed: bv64): bv64 {
    Avalanche(Tail(WithLength(Body(s, seed), Length(|s|)), s, |s| - |s| % 32))
  }

  /** The streamed digest of an input whose 64-bit length has come round to less than a stripe: of all
      the stripes only one lane is left. */
  function HashAfterWrap(s: seq<byte>, seed: bv64): bv64 {
    Avalanche(Tail(WithLength(Short(Stripes(Init(seed), s, |s| / 32).v3), Length(|s|)), s, |s| - |s| % 32))
  }

  /** The code compares the length modulo 2^64 with the size of a stripe. */
  predicate LengthKept(n: nat) {
    n < 32 || n % TWO64 >= 32
  }

  // --- The code ---

  method Process8(h: bv64, s: seq<byte>, p: nat) returns (h': bv64, p': nat)
    requires p + 8 <= |s|
    ensures p' == p + 8 && Tail(h', s, p') == Tail(h, s, p)
  {
    hide Step1, Step4, Step8;
    h', p' := Step8(h, s, p), p + 8;
  }

  method Process4(h: bv64, s: seq<byte>, p: nat) returns (h': bv64, p': nat)
    requires p + 4 <= |s| < p + 8
    ensures p' == p + 4 && Tail(h', s, p') == Tail(h, s, p)
  {
    hide Step1, Step4, Step8;
    h', p' := Step4(h, s, p), p + 4;
  }

  method Process1(h: bv64, s: seq<byte>, p: nat) returns (h': bv64, p': nat)
    requires p < |s| < p + 4
    ensures p' == p + 1 && Tail(h', s, p') == Tail(h, s, p)
  {
    hide Step1, Step4, Step8;
    h', p' := Step1(h, s, p), p + 1;
  }

  lemma Nothing(h: bv64, s: seq<byte>)
    ensures Tail(h, s, |s|) == h
  {}

  /** XXH64_finalize: a switch on the length, whose cases fall through. */
  method Finalize(h: bv64, s: seq<byte>, p: nat, len: nat) returns (r: bv64)
    requires p + len % 32 == |s|
    ensures r == Avalanche(Tail(h, s, p))
  {
    hide Avalanche, Tail;
    var x, q, k := h, p, len % 32;
    if k == 24 || k == 16 || k == 8 {
      if k == 24 { x, q := Process8(x, s, q); }
      if k >= 16 { x, q := Process8(x, s, q); }
      x, q := Process8(x, s, q);
    } else if k == 28 || k == 20 || k == 12 || k == 4 {
      if k == 28 { x, q := Process8(x, s, q); }
      if k >= 20 { x, q := Process8(x, s, q); }
      if k >= 12 { x, q := Process8(x, s, q); }
      x, q := Process4(x, s, q);
    } else if k == 25 || k == 17 || k == 9 {
      if k == 25 { x, q := Process8(x, s, q); }
      if k >= 17 { x, q := Process8(x, s, q); }
      x, q := Process8(x, s, q);
      x, q := Process1(x, s, q);
    } else if k == 29 || k == 21 || k == 13 || k == 5 {
      if k == 29 { x, q := Process8(x, s, q); }
      if k >= 21 { x, q := Process8(x, s, q); }
      if k >= 13 { x, q := Process8(x, s, q); }
      x, q := Process4(x, s, q);
      x, q := Process1(x, s, q);
    } else if k == 26 || k == 18 || k == 10 {
      if k == 26 { x, q := Process8(x, s, q); }
      if k >= 18 { x, q := Process8(x, s, q); }
      x, q := Process8(x, s, q);
      x, q := Process1(x, s, q);
      x, q := Process1(x, s, q);
    } else if k == 30 || k == 22 || k == 14 || k == 6 {
      if k == 30 { x, q := Process8(x, s, q); }
      if k >= 22 { x, q := Process8(x, s, q); }
      if k >= 14 { x, q := Process8(x, s, q); }
      x, q := Process4(x, s, q);
      x, q := Process1(x, s, q);
      x, q := Process1(x, s, q);
    } else if k == 27 || k == 19 || k == 11 {
      if k == 27 { x, q := Process8(x, s, q); }
      if k >= 19 { x, q := Process8(x, s, q); }
      x, q := Process8(x, s, q);
      x, q := Process1(x, s, q);
      x, q := Process1(x, s, q);
      x, q := Process1(x, s, q);
    } else {
      if k == 31 { x, q := Process8(x, s, q); }
      if k >= 23 { x, q := Process8(x, s, q); }
      if k >= 15 { x, q := Process8(x, s, q); }
      if k >= 7 { x, q := Process4(x, s, q); }
      if k >= 3 { x, q := Process1(x, s, q); }
      if k >= 2 { x, q := Process1(x, s, q); }
      if k >= 1 { x, q := Process1(x, s, q); }
    }
    r := Avalanche(x);
    Nothing(x, s);
  }

  /** XXH64_endian_align: the one-shot hash. */
  method OneShot(s: seq<byte>, seed: bv64) returns (r: bv64)
    ensures r == Hash(s, seed)
  {
    hide Round, Converge, Avalanche, Tail, Stripe, Init, Length, Short, WithLength;
    var h, p := Short(seed), 0;
    if |s| >= 32 {
      var limit := |s| - 31;
      var a := Init(seed);
      ghost var k := 0;
      while p < limit
        invariant p == 32 * k && 32 * k <= |s| && a == Stripes(Init(seed), s, k)
        decreases |s| - p
      {
        a := Stripe(a, s, p);
        p := p + 32;
        k := k + 1;
      }
      h := Converge(a);
    }
    r := Finalize(WithLength(h, Length(|s|)), s, p, |s|);
  }

  // --- Streaming ---

  lemma {:induction false} StripesPrefix(a: Acc, s: seq<byte>, t: seq<byte>, k: nat)
    requires 32 * k <= |s|
    ensures Stripes(a, s + t, k) == Stripes(a, s, k)
  {
    hide Stripe;
    if k > 0 {
      StripesPrefix(a, s, t, k - 1);
      StripeSame(Stripes(a, s, k - 1), s + t, 32 * (k - 1), s, 32 * (k - 1));
    }
  }

  lemma StripeSame(a: Acc, s: seq<byte>, i: nat, t: seq<byte>, j: nat)
    requires i + 32 <= |s| && j + 32 <= |t| && s[i..i + 32] == t[j..j + 32]
    ensures Stripe(a, s, i) == Stripe(a, t, j)
  {
    hide Round, Read;
    ReadSame(s, i, t, j, 0);
    ReadSame(s, i, t, j, 8);
    ReadSame(s, i, t, j, 16);
    ReadSame(s, i, t, j, 24);
  }

  lemma ReadSame(s: seq<byte>, i: nat, t: seq<byte>, j: nat, d: nat)
    requires d <= 24 && i + 32 <= |s| && j + 32 <= |t| && s[i..i + 32] == t[j..j + 32]
    ensures Read(s, i + d) == Read(t, j + d)
  {
    hide ReadLE32;
    SubSlice(s, i, 32, d, d + 8);
    SubSlice(t, j, 32, d, d + 8);
    SameWord(s, i + d, t, j + d);
  }

  lemma SameWord(s: seq<byte>, i: nat, t: seq<byte>, j: nat)
    requires i + 8 <= |s| && j + 8 <= |t| && s[i..i + 8] == t[j..j + 8]
    ensures Read(s, i) == Read(t, j)
  {
    hide ReadLE32;
    HalvesAgree(s, i, t, j);
    FieldsAgree(s, i, t, j);
    FieldsAgree(s, i + 4, t, j + 4);
  }

  lemma HalvesAgree(s: seq<byte>, i: nat, t: seq<byte>, j: nat)
    requires i + 8 <= |s| && j + 8 <= |t| && s[i..i + 8] == t[j..j + 8]
    ensures s[i..i + 4] == t[j..j + 4] && s[i + 4..i + 8] == t[j + 4..j + 8]
  {
    SubSlice(s, i, 8, 0, 4);
    SubSlice(t, j, 8, 0, 4);
    SubSlice(s, i, 8, 4, 8);
    SubSlice(t, j, 8, 4, 8);
  }

  /** The tail is read the same from its own buffer. */
  lemma TailSame(h: bv64, s: seq<byte>, i: nat, t: seq<byte>)
    requires i <= |s| && s[i..] == t
    ensures Tail(h, s, i) == Tail(h, t, 0)
  {
    TailMoved(h, s, i, t, 0);
  }

  lemma {:induction false} TailMoved(h: bv64, s: seq<byte>, i: nat, t: seq<byte>, j: nat)
    requires i <= |s| && j <= |t| && s[i..] == t[j..]
    ensures Tail(h, s, i) == Tail(h, t, j)
    decreases |s| - i
  {
    hide Step1, Step4, Step8;
    assert |s| - i == |t| - j;
    if i + 8 <= |s| {
      EightSame(h, s, i, t, j);
      TailMoved(Step8(h, s, i), s, i + 8, t, j + 8);
    } else if i + 4 <= |s| {
      FourSame(h, s, i, t, j);
      TailMoved(Step4(h, s, i), s, i + 4, t, j + 4);
    } else if i < |s| {
      OneSame(h, s, i, t, j);
      TailMoved(Step1(h, s, i), s, i + 1, t, j + 1);
    }
  }

  lemma EightSame(h: bv64, s: seq<byte>, i: nat, t: seq<byte>, j: nat)
    requires i + 8 <= |s| && j + 8 <= |t| && s[i..] == t[j..]
    ensures Step8(h, s, i) == Step8(h, t, j) && s[i + 8..] == t[j + 8..]
  {
    hide Mix8, Read;
    assert s[i..i + 8] == s[i..][..8] == t[j..][..8] == t[j..j + 8];
    SameWord(s, i, t, j);
    assert s[i + 8..] == s[i..][8..] == t[j..][8..] == t[j + 8..];
  }

  lemma FourSame(h: bv64, s: seq<byte>, i: nat, t: seq<byte>, j: nat)
    requires i + 4 <= |s| && j + 4 <= |t| && s[i..] == t[j..]
    ensures Step4(h, s, i) == Step4(h, t, j) && s[i + 4..] == t[j + 4..]
  {
    hide Mix4, ReadLE32;
    FieldInSlice(s, i);
    FieldInSlice(t, j);
    assert s[i..i + 4] == s[i..][..4] == t[j..][..4] == t[j..j + 4];
    assert s[i + 4..] == s[i..][4..] == t[j..][4..] == t[j + 4..];
  }

  lemma OneSame(h: bv64, s: seq<byte>, i: nat, t: seq<byte>, j: nat)
    requires i < |s| && j < |t| && s[i..] == t[j..]
    ensures Step1(h, s, i) == Step1(h, t, j) && s[i + 1..] == t[j + 1..]
  {
    hide Mix1;
    assert s[i] == s[i..][0] == t[j..][0] == t[j];
    assert s[i + 1..] == s[i..][1..] == t[j..][1..] == t[j + 1..];
  }

  class State {
    var totalLen: nat
    var acc: Acc
    var mem: seq<byte>
    var memsize: nat

    /** What the state was given since it was reset, and the seed. */
    ghost var input: seq<byte>
    ghost var seed: bv64

    /** The accumulators cover the whole stripes of `s`, the buffer holds the rest. */
    ghost predicate Filled(s: seq<byte>)
      reads `mem, `memsize, `acc, `seed
    {
      && |mem| == 32 && memsize == |s| % 32 && mem[..memsize] == s[|s| - memsize..]
      && acc == Stripes(Init(seed), s, |s| / 32)
    }

    ghost predicate Counted(n: nat)
      reads `totalLen
    {
      totalLen == n % TWO64
    }

    ghost predicate Valid()
      reads this
    {
      Filled(input) && Counted(|input|)
    }

    /** XXH64_reset. */
    constructor (seed: bv64)
      ensures Valid() && input == [] && this.seed == seed
    {
      hide Init, Stripes;
      totalLen, acc, memsize := 0, Init(seed), 0;
      mem := seq(32, _ => 0);
      this.input, this.seed := [], seed;
      NoStripes(Init(seed), []);
      assert 0 % 32 == 0 && 0 / 32 == 0;
    }

    /** XXH64_update. */
    method Update(bytes: seq<byte>)
      requires Valid()
      modifies this
      ensures Valid() && input == old(input) + bytes && seed == old(seed)
    {
      hide Counted, Filled;
      Count(|bytes|, |input|);
      Absorb(bytes);
      input := input + bytes;
    }

    method Count(len: nat, ghost n: nat)
      requires Counted(n)
      modifies `totalLen
      ensures Counted(n + len)
    {
      totalLen := (totalLen + len) % TWO64;
    }

    method Absorb(bytes: seq<byte>)
      requires Filled(input)
      modifies `mem, `acc, `memsize
      ensures Filled(input + bytes)
    {
      hide Stripes, Stripe, Init, Patch;
      ghost var s, full := input, input + bytes;
      StripesPrefix(Init(seed), s, bytes, |s| / 32);
      if memsize + |bytes| < 32 {
        SameStripe(|s|, |bytes|);
        Stored(s, bytes, mem, memsize);
        mem := Patch(mem, memsize, bytes);
        memsize := memsize + |bytes|;
        return;
      }
      var p := 0;
      ghost var k := |s| / 32;
      if memsize > 0 {
        p := FillStripe(bytes, s);
        NextStripe(|s|);
        k := k + 1;
      }
      assert full[|s|..] == bytes;
      Consume(bytes, p, |s|, k, full);
    }

    /** The buffered bytes are completed to a stripe. */
    method FillStripe(bytes: seq<byte>, ghost s: seq<byte>) returns (p: nat)
      requires |mem| == 32 && 0 < memsize == |s| % 32 && mem[..memsize] == s[|s| - memsize..] && memsize + |bytes| >= 32
      requires acc == Stripes(Init(seed), s + bytes, |s| / 32)
      modifies `mem, `acc, `memsize
      ensures p == 32 - old(memsize) && memsize == 0 && |mem| == 32 && (|s| + p) % 32 == 0
      ensures acc == Stripes(Init(seed), s + bytes, (|s| + p) / 32)
    {
      hide Stripe, Init, Patch;
      p := 32 - memsize;
      Stored(s, bytes[..p], mem, memsize);
      mem := Patch(mem, memsize, bytes[..p]);
      ghost var at, full := |s| - memsize, s + bytes;
      assert mem == mem[..32] == (s + bytes[..p])[at..] == full[at..at + 32];
      StripeSame(acc, mem, 0, full, at);
      NextStripe(|s|);
      acc := Stripe(acc, mem, 0);
      memsize := 0;
    }

    /** Whole stripes from the input; the rest is buffered. `k` stripes are done before. */
    method Consume(bytes: seq<byte>, p0: nat, ghost n: nat, ghost k: nat, ghost full: seq<byte>)
      requires p0 <= |bytes| && n + p0 == 32 * k && |mem| == 32 && memsize == 0 && n + |bytes| == |full|
      requires full[n..] == bytes && acc == Stripes(Init(seed), full, k)
      modifies `mem, `acc, `memsize
      ensures Filled(full)
    {
      hide Stripes, Stripe, Init, Patch, Filled;
      var p := p0;
      ghost var m := k;
      while p + 32 <= |bytes|
        invariant p0 <= p <= |bytes| && n + p == 32 * m && acc == Stripes(Init(seed), full, m)
        invariant |mem| == 32 && memsize == 0
      {
        Inside(full, n, bytes, p, 32);
        StripeSame(acc, bytes, p, full, n + p);
        OneMore(Init(seed), full, m);
        acc := Stripe(acc, bytes, p);
        p, m := p + 32, m + 1;
      }
      Inside(full, n, bytes, p, 0);
      if p < |bytes| {
        Stored([], bytes[p..], mem, 0);
        mem := Patch(mem, 0, bytes[p..]);
        memsize := |bytes| - p;
      }
      NowFilled(full, m, bytes[p..]);
    }

    lemma NowFilled(full: seq<byte>, m: nat, rest: seq<byte>)
      requires |mem| == 32 && memsize == |rest| < 32 && |full| == 32 * m + |rest| && full[32 * m..] == rest
      requires mem[..memsize] == rest && acc == Stripes(Init(seed), full, m)
      ensures Filled(full)
    {
      hide Stripes, Init;
      LastStripe(m, |rest|);
    }

    /** XXH64_digest: the hash of all that was given, in whatever pieces, as long as the 64-bit length
        has not come round to less than a stripe. */
    method Digest() returns (r: bv64)
      requires Valid()
      ensures r == if LengthKept(|input|) then Hash(input, seed) else HashAfterWrap(input, seed)
    {
      hide Converge, Avalanche, Tail, Stripes, WithLength, Length, Short, Init;
      SeedLane(seed);
      var h := if totalLen >= 32 then Converge(acc) else Short(acc.v3);
      SameLength(|input|);
      h := WithLength(h, Length(totalLen));
      assert |input| < 32 ==> acc == Init(seed) by { NoStripes(Init(seed), input); }
      TailSame(h, input, |input| - memsize, mem[..memsize]);
      r := Finalize(h, mem[..memsize], 0, memsize);
    }
  }

  lemma SameStripe(n: nat, len: nat)
    requires n % 32 + len < 32
    ensures (n + len) % 32 == n % 32 + len && (n + len) / 32 == n / 32
  {}

  lemma NextStripe(n: nat)
    requires n % 32 > 0
    ensures (n + 32 - n % 32) / 32 == n / 32 + 1 && (n + 32 - n % 32) % 32 == 0 && 32 * (n / 32) == n - n % 32
  {}

  lemma OneMore(a: Acc, s: seq<byte>, k: nat)
    requires 32 * k + 32 <= |s|
    ensures Stripes(a, s, k + 1) == Stripe(Stripes(a, s, k), s, 32 * k)
  {
    hide Stripe;
  }

  lemma LastStripe(k: nat, left: nat)
    requires left < 32
    ensures (32 * k + left) / 32 == k && (32 * k + left) % 32 == left
  {}

  lemma SeedLane(seed: bv64)
    ensures Init(seed).v3 == seed
  {}

  lemma NoStripes(a: Acc, s: seq<byte>)
    ensures Stripes(a, s, 0) == a
  {}

  lemma SameLength(n: nat)
    ensures Length(n % TWO64) == Length(n)
  {}

  /** However the input is split into updates, the digest is the one-shot hash of the whole; only an input of
      2^64 bytes and more can tell the two apart. */
  method Streamed(pieces: seq<seq<byte>>, seed: bv64) returns (digest: bv64)
    ensures var all := Concat(pieces);
      digest == if LengthKept(|all|) then Hash(all, seed) else HashAfterWrap(all, seed)
    ensures |Concat(pieces)| < TWO64 ==> digest == Hash(Concat(pieces), seed)
  {
    hide Hash, HashAfterWrap, State.Valid;
    var state := new State(seed);
    assert pieces[..0] == [];
    for i := 0 to |pieces|
      invariant state.Valid() && state.seed == seed && state.input == Concat(pieces[..i])
      invariant fresh(state)
    {
      assert pieces[..i + 1][..i] == pieces[..i];
      state.Update(pieces[i]);
    }
    assert pieces[..|pieces|] == pieces;
    digest := state.Digest();
  }
}
