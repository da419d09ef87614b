/**
 What LZ4_compress_generic_validated chooses: the positions its search probes, the match it
 takes, how far the match reaches, and where it looks next. There is no output here and no
 room, so each source, table and acceleration has one block.

 Positions are indices into `data`, the dictionary followed by the source. The hash is any
 function of the bytes at a position, so every result holds whatever the hash.
 */
module FastParse {
  import opened Bytes
  import opened BlockFormat
  import opened BlockEncoding
  import opened MatchLength

  datatype TableType = ByU32 | ByU16
  datatype DictDirective = NoDict | WithPrefix64k | UsingExtDict

  /** One call: `data[..ds]` is the dictionary, `startIndex` the table index of the first source byte. */
  datatype Input = Input(
    data: seq<byte>, ds: nat, startIndex: nat, tableType: TableType,
    dict: DictDirective, dictSmall: bool, hash: seq<byte> -> nat, slots: nat)
  {
    ghost predicate Valid() {
      && ds < |data|
      && (dict == NoDict ==> ds == 0)
      && (dict != NoDict ==> tableType == ByU32)
      && (dictSmall ==> ds <= startIndex)
      && (tableType == ByU16 ==> startIndex + (|data| - ds) < KB64 + MFLIMIT - 1)
      && startIndex + (|data| - ds) < 0x1_0000_0000
      && forall s :: hash(s) < slots
    }

    function End(): int { |data| }

    function Index(p: int): int {
      startIndex - ds + p
    }

    function Position(index: int): int {
      index - startIndex + ds
    }

    /** LZ4_hashPosition reads 8 bytes. */
    function Slot(p: nat): nat
      requires p + 8 <= |data|
    {
      hash(data[p..p + 8])
    }

    /** What an entry left by earlier calls may be: if the tests of the search can accept it,
        it names a byte of the dictionary. */
    ghost predicate Stale(e: int) {
      && 0 <= e && (e + MFLIMIT <= startIndex || e == 0)
      && (!dictSmall ==> Position(e) >= 0 || (tableType == ByU32 && e + DISTANCE_MAX < startIndex))
      && (dict == UsingExtDict && e < startIndex && Position(e) >= 0 ==> MINMATCH <= startIndex)
    }

    ghost predicate TableReady(t: seq<int>) {
      |t| == slots && forall h :: 0 <= h < |t| ==> Stale(t[h])
    }

    /** Entry `e` of slot `h` was made by this call, for a position before `ip`. */
    ghost predicate Fresh(e: int, h: int, ip: int) {
      && startIndex <= e < Index(ip)
      && Position(e) + MFLIMIT <= |data|
      && Slot(Position(e)) == h
    }

    ghost predicate TableInv(t: seq<int>, ip: int) {
      |t| == slots && forall h :: 0 <= h < |t| ==> Stale(t[h]) || Fresh(t[h], h, ip)
    }

    /** A match candidate for `ip`: `m` is a readable earlier position, 4 bytes agree. */
    ghost predicate Candidate(ip: int, m: int, low: int) {
      && 0 <= low <= m < ip && ip - m <= DISTANCE_MAX && ip + MFLIMIT <= |data|
      && data[m..m + 4] == data[ip..ip + 4]
      && (dict == UsingExtDict ==> low == (if m < ds then 0 else ds) && (m < ds ==> m + MINMATCH <= ds))
      && (dict != UsingExtDict ==> low == 0)
    }
  }

  lemma TableSize(inp: Input, t: seq<int>, ip: int)
    requires inp.TableInv(t, ip)
    ensures |t| == inp.slots
  {}

  lemma TableInvGrows(inp: Input, t: seq<int>, ip: int, ip': int)
    requires inp.Valid() && inp.TableInv(t, ip) && ip <= ip'
    ensures inp.TableInv(t, ip')
  {}

  // --- Search ---

  /** The tests a table entry must pass before its bytes are read. */
  predicate InReach(inp: Input, matchIndex: int, current: int) {
    && !(inp.dictSmall && matchIndex < inp.startIndex - inp.ds)
    && !(inp.tableType != ByU16 && matchIndex + DISTANCE_MAX < current)
  }

  /** Every entry that passes the tests names a readable byte of the window. */
  lemma AcceptedEntryIsInWindow(inp: Input, t: seq<int>, h: nat, ip: nat)
    requires inp.Valid() && inp.TableInv(t, ip) && h < |t|
    requires inp.ds < ip && ip + MFLIMIT <= |inp.data|
    requires InReach(inp, t[h], inp.Index(ip))
    ensures var m := inp.Position(t[h]);
      0 <= m < ip && ip - m <= DISTANCE_MAX
      && (inp.dict == UsingExtDict && t[h] < inp.startIndex ==> m + MINMATCH <= inp.ds)
  {}

  /** How far back a match may be extended: not across the border between dictionary and source. */
  function LowLimit(inp: Input, matchIndex: int): nat {
    if inp.dict == UsingExtDict && matchIndex >= inp.startIndex then inp.ds else 0
  }

  /** Entry `e` leads to four bytes that agree with those at `p`. */
  ghost predicate Agrees(inp: Input, e: int, p: nat) {
    var m := inp.Position(e);
    && InReach(inp, e, inp.Index(p)) && 0 <= m < p && p - m <= DISTANCE_MAX && p + MINMATCH <= |inp.data|
    && inp.data[m..m + MINMATCH] == inp.data[p..p + MINMATCH]
  }

  /** How far the search moves on after its probe number `k`. */
  function Stride(acceleration: nat, k: nat): (r: nat)
    ensures acceleration >= 1 ==> r >= 1
  {
    if k == 0 then 1 else (64 * acceleration + k - 1) / 64
  }

  datatype Found = Hit(ip: nat, m: nat, low: nat, table: seq<int>) | Miss(table: seq<int>)

  /** The search from its probe number `k`, at `p`, with what the table holds there. */
  ghost function Search(inp: Input, t: seq<int>, p: nat, acceleration: nat, k: nat): (r: Found)
    requires inp.Valid() && |t| == inp.slots && acceleration >= 1 && p + MFLIMIT <= |inp.data| + 1
    ensures |r.table| == inp.slots
    ensures r.Hit? ==>
      && p <= r.ip && r.ip + MFLIMIT <= |inp.data| && r.low <= r.m < r.ip && r.ip - r.m <= DISTANCE_MAX
      && inp.data[r.m..r.m + MINMATCH] == inp.data[r.ip..r.ip + MINMATCH]
    decreases |inp.data| - p
  {
    if p + Stride(acceleration, k) + MFLIMIT > |inp.data| + 1 then Miss(t)
    else
      var h := inp.Slot(p);
      var t' := t[h := inp.Index(p)];
      if Agrees(inp, t[h], p) then Hit(p, inp.Position(t[h]), LowLimit(inp, t[h]), t')
      else Search(inp, t', p + Stride(acceleration, k), acceleration, k + 1)
  }

  /** One step of the search. */
  lemma SearchStep(inp: Input, t: seq<int>, p: nat, acceleration: nat, k: nat)
    requires inp.Valid() && |t| == inp.slots && acceleration >= 1 && p + MFLIMIT <= |inp.data| + 1
    ensures var next := p + Stride(acceleration, k);
      Search(inp, t, p, acceleration, k) ==
        if next + MFLIMIT > |inp.data| + 1 then Miss(t)
        else
          var e := t[inp.Slot(p)];
          var t' := t[inp.Slot(p) := inp.Index(p)];
          if Agrees(inp, e, p) then Hit(p, inp.Position(e), LowLimit(inp, e), t')
          else Search(inp, t', next, acceleration, k + 1)
  {}

  // --- What the search finds, without the table ---

  /** The position of probe number `k`. */
  function Probe(ip0: nat, acceleration: nat, k: nat): nat {
    if k == 0 then ip0 else Probe(ip0, acceleration, k - 1) + Stride(acceleration, k - 1)
  }

  /** The search gets to probe number `k`, and past it: there is room for a match at the next one. */
  ghost predicate Probed(inp: Input, ip0: nat, acceleration: nat, k: nat) {
    Probe(ip0, acceleration, k + 1) + MFLIMIT <= |inp.data| + 1
  }

  /** The entry probe number `k` meets in slot `h`: the last earlier probe of that slot, or what was there before. */
  ghost function Met(inp: Input, t: seq<int>, ip0: nat, acceleration: nat, h: nat, k: nat): int
    requires inp.Valid() && h < |t| == inp.slots && acceleration >= 1
    requires k > 0 ==> Probed(inp, ip0, acceleration, k - 1)
  {
    if k == 0 then t[h]
    else
      var p := Probe(ip0, acceleration, k - 1);
      if inp.Slot(p) == h then inp.Index(p) else Met(inp, t, ip0, acceleration, h, k - 1)
  }

  /** Probe number `k` finds four bytes that agree. */
  ghost predicate Finds(inp: Input, t: seq<int>, ip0: nat, acceleration: nat, k: nat)
    requires inp.Valid() && |t| == inp.slots && acceleration >= 1
  {
    && Probed(inp, ip0, acceleration, k)
    && var p := Probe(ip0, acceleration, k);
       Agrees(inp, Met(inp, t, ip0, acceleration, inp.Slot(p), k), p)
  }

  /** A search that ends with `r` makes its last probe with number `k`. */
  ghost predicate EndsAt(inp: Input, t: seq<int>, ip0: nat, acceleration: nat, r: Found, k: nat)
    requires inp.Valid() && |t| == inp.slots && acceleration >= 1
  {
    if r.Miss? then !Probed(inp, ip0, acceleration, k)
    else
      && Finds(inp, t, ip0, acceleration, k) && r.ip == Probe(ip0, acceleration, k)
      && inp.Index(r.m) == Met(inp, t, ip0, acceleration, inp.Slot(r.ip), k)
  }

  /** The search stops at the first of its probes that finds four bytes, or after the last one. */
  lemma FirstOfItsProbes(inp: Input, t: seq<int>, ip0: nat, acceleration: nat) returns (k: nat)
    requires inp.Valid() && |t| == inp.slots && acceleration >= 1 && ip0 + MFLIMIT <= |inp.data| + 1
    ensures EndsAt(inp, t, ip0, acceleration, Search(inp, t, ip0, acceleration, 0), k)
    ensures forall j: nat :: j < k ==> !Finds(inp, t, ip0, acceleration, j)
  {
    k := FirstFrom(inp, t, ip0, acceleration, t, 0);
  }

  /** `t'` is the table probe number `i` meets. */
  ghost predicate Meets(inp: Input, t: seq<int>, ip0: nat, acceleration: nat, t': seq<int>, i: nat)
    requires inp.Valid() && |t| == inp.slots && acceleration >= 1
    requires i > 0 ==> Probed(inp, ip0, acceleration, i - 1)
  {
    |t'| == inp.slots && forall h :: 0 <= h < |t'| ==> t'[h] == Met(inp, t, ip0, acceleration, h, i)
  }

  lemma MeetsNext(inp: Input, t: seq<int>, ip0: nat, acceleration: nat, t': seq<int>, i: nat)
    requires inp.Valid() && |t| == inp.slots && acceleration >= 1
    requires Probed(inp, ip0, acceleration, i) && (i > 0 ==> Probed(inp, ip0, acceleration, i - 1))
    requires Meets(inp, t, ip0, acceleration, t', i)
    ensures var p := Probe(ip0, acceleration, i);
      Meets(inp, t, ip0, acceleration, t'[inp.Slot(p) := inp.Index(p)], i + 1)
  {}

  lemma {:induction false} FirstFrom(inp: Input, t: seq<int>, ip0: nat, acceleration: nat, t': seq<int>, i: nat)
    returns (k: nat)
    requires inp.Valid() && |t| == inp.slots && acceleration >= 1
    requires Probe(ip0, acceleration, i) + MFLIMIT <= |inp.data| + 1
    requires Meets(inp, t, ip0, acceleration, t', i)
    ensures EndsAt(inp, t, ip0, acceleration, Search(inp, t', Probe(ip0, acceleration, i), acceleration, i), k)
    ensures i <= k && forall j: nat :: i <= j < k ==> !Finds(inp, t, ip0, acceleration, j)
    decreases |inp.data| - Probe(ip0, acceleration, i)
  {
    hide Agrees, Stride, Met;
    var p := Probe(ip0, acceleration, i);
    k := i;
    if Probed(inp, ip0, acceleration, i) {
      if !Agrees(inp, t'[inp.Slot(p)], p) {
        MeetsNext(inp, t, ip0, acceleration, t', i);
        k := FirstFrom(inp, t, ip0, acceleration, t'[inp.Slot(p) := inp.Index(p)], i + 1);
      }
    }
  }

  // --- The parse ---

  /** How many bytes before d[i] and d[k] agree, up to `limit`. */
  ghost function Behind(d: seq<byte>, i: nat, k: nat, limit: nat): (n: nat)
    requires limit <= i <= |d| && limit <= k <= |d|
    ensures IsCommonSuffix(d, i, d, k, limit, n)
    decreases limit
  {
    if limit > 0 && d[i - 1] == d[k - 1] then 1 + Behind(d, i - 1, k - 1, limit - 1) else 0
  }

  lemma BehindStep(d: seq<byte>, i: nat, k: nat, limit: nat)
    requires limit <= i <= |d| && limit <= k <= |d|
    ensures Behind(d, i, k, limit) ==
      if limit > 0 && d[i - 1] == d[k - 1] then 1 + Behind(d, i - 1, k - 1, limit - 1) else 0
  {}

  /** The match length code of the longest match at `ip` with what `m` starts. */
  ghost function FullCode(inp: Input, ip: nat, m: nat): (n: nat)
    requires m < ip && ip + MFLIMIT <= |inp.data|
    ensures ip + MINMATCH + n + LASTLITERALS <= |inp.data|
  {
    CommonPrefix(inp.data, ip + MINMATCH, inp.data, m + MINMATCH, |inp.data| - LASTLITERALS)
  }

  /** The literals since `anchor`, and the match at `ip` with what `m` starts, as long as it gets. */
  ghost function Chosen(inp: Input, anchor: nat, ip: nat, m: nat): (s: Sequence)
    requires anchor <= ip && m < ip && ip - m <= DISTANCE_MAX && ip + MFLIMIT <= |inp.data|
    ensures s.Valid() && ip + s.matchLen + LASTLITERALS <= |inp.data|
  {
    Sequence(inp.data[anchor..ip], ip - m, MINMATCH + FullCode(inp, ip, m))
  }

  /** Sequences, and where the last literals begin. */
  datatype Plan = Plan(seqs: seq<Sequence>, anchor: nat)

  ghost predicate Sound(inp: Input, anchor: nat, plan: Plan) {
    && (forall s :: s in plan.seqs ==> s.Valid())
    && anchor <= plan.anchor <= |inp.data| && (plan.seqs != [] ==> plan.anchor + LASTLITERALS <= |inp.data|)
  }

  /** What follows `anchor` when the search goes on at `ip`. */
  ghost function AtSearch(inp: Input, t: seq<int>, anchor: nat, ip: nat, acceleration: nat): (plan: Plan)
    requires inp.Valid() && |t| == inp.slots && acceleration >= 1
    requires inp.ds <= anchor < ip && ip + MFLIMIT <= |inp.data| + 1
    ensures Sound(inp, anchor, plan) && plan.anchor + LASTLITERALS <= |inp.data|
    decreases |inp.data| - anchor, 1
  {
    var r := Search(inp, t, ip, acceleration, 0);
    if r.Miss? then Plan([], anchor)
    else
      var back := Behind(inp.data, r.ip, r.m, Min(r.ip - anchor, r.m - r.low));
      AtMatch(inp, r.table, anchor, r.ip - back, r.m - back, acceleration)
  }

  /** What follows `anchor` when a match at `ip` is taken. */
  ghost function AtMatch(inp: Input, t: seq<int>, anchor: nat, ip: nat, m: nat, acceleration: nat): (plan: Plan)
    requires inp.Valid() && |t| == inp.slots && acceleration >= 1
    requires inp.ds <= anchor <= ip && m < ip && ip - m <= DISTANCE_MAX && ip + MFLIMIT <= |inp.data|
    ensures Sound(inp, anchor, plan) && plan.seqs != [] && plan.seqs[0] == Chosen(inp, anchor, ip, m)
    decreases |inp.data| - anchor, 0
  {
    var s := Chosen(inp, anchor, ip, m);
    var e := ip + s.matchLen;
    if e + MFLIMIT > |inp.data| then Plan([s], e)
    else
      var rest := AtTest(inp, t, e, acceleration);
      Plan([s] + rest.seqs, rest.anchor)
  }

  /** What follows a match that ends at `e`: another match there, without literals, or another search. */
  ghost function AtTest(inp: Input, t: seq<int>, e: nat, acceleration: nat): (plan: Plan)
    requires inp.Valid() && |t| == inp.slots && acceleration >= 1 && inp.ds + 2 <= e && e + MFLIMIT <= |inp.data|
    ensures Sound(inp, e, plan) && plan.anchor + LASTLITERALS <= |inp.data|
    decreases |inp.data| - e, 2
  {
    var t1 := t[inp.Slot(e - 2) := inp.Index(e - 2)];
    var found := t1[inp.Slot(e)];
    var t2 := t1[inp.Slot(e) := inp.Index(e)];
    if Agrees(inp, found, e) then AtMatch(inp, t2, e, e, inp.Position(found), acceleration)
    else AtSearch(inp, t2, e, e + 1, acceleration)
  }

  /** The whole source. */
  ghost function Parse(inp: Input, t: seq<int>, acceleration: nat): (plan: Plan)
    requires inp.Valid() && |t| == inp.slots && acceleration >= 1
    ensures Sound(inp, inp.ds, plan)
  {
    if |inp.data| - inp.ds < MIN_LENGTH then Plan([], inp.ds)
    else AtSearch(inp, t[inp.Slot(inp.ds) := inp.Index(inp.ds)], inp.ds, inp.ds + 1, acceleration)
  }

  ghost function Written(inp: Input, plan: Plan): (b: seq<byte>)
    requires Sound(inp, inp.ds, plan)
  {
    Encode(plan.seqs) + EncodeLast(inp.data[plan.anchor..])
  }

  /** The plan is `seqs`, and then `rest`. */
  ghost predicate GoesOn(plan: Plan, seqs: seq<Sequence>, rest: Plan) {
    plan == Plan(seqs + rest.seqs, rest.anchor)
  }

  /** Taking a match leaves what follows it. */
  lemma TakesMatch(inp: Input, t: seq<int>, anchor: nat, ip: nat, m: nat, acceleration: nat, plan: Plan,
                   seqs: seq<Sequence>)
    requires inp.Valid() && |t| == inp.slots && acceleration >= 1
    requires inp.ds <= anchor <= ip && m < ip && ip - m <= DISTANCE_MAX && ip + MFLIMIT <= |inp.data|
    requires GoesOn(plan, seqs, AtMatch(inp, t, anchor, ip, m, acceleration))
    ensures var s := Chosen(inp, anchor, ip, m);
      var e := ip + s.matchLen;
      if e + MFLIMIT > |inp.data| then plan == Plan(seqs + [s], e)
      else GoesOn(plan, seqs + [s], AtTest(inp, t, e, acceleration))
  {
    hide Chosen, AtTest, AtSearch;
    var s := Chosen(inp, anchor, ip, m);
    var e := ip + s.matchLen;
    if e + MFLIMIT <= |inp.data| {
      var rest := AtTest(inp, t, e, acceleration);
      assert seqs + ([s] + rest.seqs) == (seqs + [s]) + rest.seqs;
    }
  }

  /** A search leads to the match it finds, extended backwards. */
  lemma MatchOfSearch(inp: Input, t: seq<int>, anchor: nat, ip0: nat, acceleration: nat, r: Found, ip: nat, m: nat)
    requires inp.Valid() && |t| == inp.slots && acceleration >= 1
    requires inp.ds <= anchor < ip0 && ip0 + MFLIMIT <= |inp.data| + 1
    requires r.Hit? && r == Search(inp, t, ip0, acceleration, 0)
    requires r.ip - ip == r.m - m == Behind(inp.data, r.ip, r.m, Min(r.ip - anchor, r.m - r.low))
    ensures AtSearch(inp, t, anchor, ip0, acceleration) == AtMatch(inp, r.table, anchor, ip, m, acceleration)
  {
    hide Search, AtMatch, Behind, Sound, IsCommonSuffix, Chosen, AtTest;
  }

  lemma NothingFound(inp: Input, t: seq<int>, anchor: nat, ip0: nat, acceleration: nat)
    requires inp.Valid() && |t| == inp.slots && acceleration >= 1
    requires inp.ds <= anchor < ip0 && ip0 + MFLIMIT <= |inp.data| + 1
    requires Search(inp, t, ip0, acceleration, 0).Miss?
    ensures AtSearch(inp, t, anchor, ip0, acceleration) == Plan([], anchor)
  {}

  lemma TestStep(inp: Input, t: seq<int>, e: nat, acceleration: nat)
    requires inp.Valid() && |t| == inp.slots && acceleration >= 1 && inp.ds + 2 <= e && e + MFLIMIT <= |inp.data|
    ensures var t1 := t[inp.Slot(e - 2) := inp.Index(e - 2)];
      var found := t1[inp.Slot(e)];
      var t2 := t1[inp.Slot(e) := inp.Index(e)];
      AtTest(inp, t, e, acceleration) ==
        if Agrees(inp, found, e) then AtMatch(inp, t2, e, e, inp.Position(found), acceleration)
        else AtSearch(inp, t2, e, e + 1, acceleration)
  {}

  lemma {:induction false} EncodeGrows(a: seq<Sequence>, b: seq<Sequence>)
    requires forall s :: s in a + b ==> s.Valid()
    ensures (forall s :: s in a ==> s.Valid()) && |Encode(a)| <= |Encode(a + b)|
    decreases |b|
  {
    hide Encode, Sequence.Valid;
    assert forall s :: s in a ==> s in a + b;
    if b == [] {
      assert a + b == a;
    } else {
      var n := |b| - 1;
      assert (a + b)[..|a| + n] == a + b[..n];
      assert forall s :: s in a + b[..n] ==> s in a + b;
      EncodeGrows(a, b[..n]);
      OneMore(a + b);
    }
  }

  lemma OneMore(s: seq<Sequence>)
    requires s != [] && forall x :: x in s ==> x.Valid()
    ensures var t := s[..|s| - 1]; (forall x :: x in t ==> x.Valid()) && |Encode(t)| <= |Encode(s)|
  {
    hide EncodeSequence;
  }

  /** A block is at least as long as some of its sequences and the smallest end. */
  lemma LongerThanItsStart(inp: Input, plan: Plan, seqs: seq<Sequence>, s: Sequence, rest: Plan)
    requires Sound(inp, inp.ds, plan) && GoesOn(plan, seqs, rest) && rest.seqs != [] && rest.seqs[0] == s
    ensures (forall x :: x in seqs ==> x.Valid()) && s.Valid()
    ensures |Encode(seqs)| + |EncodeSequence(s)| + 1 + LASTLITERALS <= |Written(inp, plan)|
  {
    hide EncodeSequence;
    assert plan.seqs == (seqs + [s]) + rest.seqs[1..];
    EncodeGrows(seqs + [s], rest.seqs[1..]);
    EncodeGrows(seqs, [s]);
    assert s in seqs + [s] && (seqs + [s])[..|seqs|] == seqs;
  }

  // --- Equal bytes ---

  ghost predicate AllEqual(s: seq<byte>) {
    forall i :: 0 <= i < |s| ==> s[i] == s[0]
  }

  /** The size of a block for `n` equal bytes. */
  function EqualSize(n: nat): nat {
    10 + (n + 230) / 255
  }

  lemma {:induction false} EqualPrefix(d: seq<byte>, i: nat, k: nat, limit: nat)
    requires i <= limit <= |d| && k + (limit - i) <= |d| && AllEqual(d)
    ensures CommonPrefix(d, i, d, k, limit) == limit - i
    decreases limit - i
  {
    if i < limit {
      EqualPrefix(d, i + 1, k + 1, limit);
    }
  }

  /** A source of equal bytes without history is one literal, one match, and the last five literals: whatever the
      hash, the acceleration and what earlier calls left in the table. */
  lemma EqualBytes(inp: Input, t: seq<int>, acceleration: nat)
    requires inp.Valid() && |t| == inp.slots && acceleration >= 1 && inp.ds == 0 && |inp.data| >= MIN_LENGTH
    requires AllEqual(inp.data)
    ensures var n := |inp.data|;
      Parse(inp, t, acceleration) == Plan([Sequence([inp.data[0]], 1, n - 6)], n - 5)
      && |Written(inp, Parse(inp, t, acceleration))| == EqualSize(n)
  {
    var n, t' := |inp.data|, t[inp.Slot(0) := inp.Index(0)];
    var s := Sequence([inp.data[0]], 1, n - 6);
    SecondByteHits(inp, t, acceleration);
    EqualPrefix(inp.data, 5, 4, n - 5);
    assert inp.data[0..1] == [inp.data[0]];
    assert Chosen(inp, 0, 1, 0) == s;
    var r := Search(inp, t', 1, acceleration, 0);
    assert Behind(inp.data, 1, 0, 0) == 0;
    assert AtMatch(inp, r.table, 0, 1, 0, acceleration) == Plan([s], n - 5);
    assert AtSearch(inp, t', 0, 1, acceleration) == Plan([s], n - 5);
    assert [s][..0] == [];
    assert Encode([s]) == Encode([]) + EncodeSequence(s);
  }

  lemma SecondByteHits(inp: Input, t: seq<int>, acceleration: nat)
    requires inp.Valid() && |t| == inp.slots && acceleration >= 1 && inp.ds == 0 && |inp.data| >= MIN_LENGTH
    requires AllEqual(inp.data)
    ensures var r := Search(inp, t[inp.Slot(0) := inp.Index(0)], 1, acceleration, 0);
      r.Hit? && r.ip == 1 && r.m == r.low == 0
  {
    var t' := t[inp.Slot(0) := inp.Index(0)];
    assert inp.data[1..9] == inp.data[0..8];
    assert inp.data[1..5] == inp.data[0..4];
    assert Agrees(inp, t'[inp.Slot(1)], 1);
  }
}
