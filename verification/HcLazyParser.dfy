/**
 LZ4HC_compress_hashChain: up to three overlapping matches are weighed against each other before the first one is
 written. The gotos of the source become the labels below, its local variables the fields of Vars.
 */
module HcLazyParser {
  import opened Bytes
  import opened BlockEncoding
  import opened MemCopy
  import opened HcMatchFinder
  import opened HcWriter
  import opened HcParsing
  import FC = FastCompressor
  import FP = FastParse

  const OPTIMAL_ML := 18

  datatype Label = Main | Search2 | Search3

  datatype Vars = Vars(at: Label, op: nat, anchor: nat, ip: nat, m1: Match, start0: nat, m0: Match,
                       start2: nat, m2: Match)

  // --- What holds at each label; `next` is the first position not yet in the tables ---

  ghost predicate AtMain(o: Out, v: Vars, next: int) {
    v.anchor <= v.ip && next <= v.ip
  }

  /** m1 is at ip; m0 at start0 is the match it displaced, if any. */
  ghost predicate AtSearch2(o: Out, found: set<Span>, v: Vars, next: int) {
    && Usable(o, found, v.ip, v.m1.off, v.m1.len) && Usable(o, found, v.start0, v.m0.off, v.m0.len)
    && v.anchor <= v.start0 <= v.ip <= v.start0 + 2 && next + 2 <= v.ip + v.m1.len
    && ((v.start0 == v.ip && v.m0 == v.m1) || v.start0 + v.m0.len + MFLIMIT <= |o.data|)
  }

  /** m1 is at ip, m2 at start2, and there is room for both. */
  ghost predicate AtSearch3(o: Out, found: set<Span>, v: Vars, next: int) {
    && Usable(o, found, v.ip, v.m1.off, v.m1.len) && Usable(o, found, v.start2, v.m2.off, v.m2.len)
    && v.anchor <= v.ip <= v.start2 <= v.ip + v.m1.len + 1 && v.ip + v.m1.len + MFLIMIT <= |o.data|
    && v.m2.len >= 5 && v.start2 - v.ip + v.m2.len >= 8 && next + 3 <= v.start2 + v.m2.len
  }

  /** After the correction: m1 keeps at least four bytes before m2. */
  ghost predicate Corrected(o: Out, found: set<Span>, v: Vars, next: int) {
    && Usable(o, found, v.ip, v.m1.off, v.m1.len) && Usable(o, found, v.start2, v.m2.off, v.m2.len)
    && v.anchor <= v.ip && v.ip + 4 <= v.start2 <= v.ip + v.m1.len + 1 && v.ip + v.m1.len + MFLIMIT <= |o.data|
    && (v.m2.len == 4 ==> v.start2 <= v.ip + v.m1.len) && next + 3 <= v.start2 + v.m2.len
  }

  ghost predicate Inv(o: Out, found: set<Span>, v: Vars, next: int) {
    match v.at
    case Main => AtMain(o, v, next)
    case Search2 => AtSearch2(o, found, v, next)
    case Search3 => AtSearch3(o, found, v, next)
  }

  /** A run of equal bytes: nothing is found at the first byte, and at the second the match that is written. */
  ghost predicate InRun(o: Out, c: Search, v: Vars, seqs: seq<Sequence>, next: int) {
    EqualRun(o) && c.Tries() ==>
      match v.at
      case Main => RunSoFar(o, v.ip, v.anchor, seqs) && (v.ip <= 1 ==> next == 0)
      case Search2 => v.ip == 1 && v.anchor == 0 && seqs == [] && v.m1 == Match(1, |o.data| - 6, 0)
      case Search3 => false
  }

  /** The same after a step, which may have found no room for the match. */
  ghost predicate RunOn(o: Out, c: Search, overflow: bool, v: Vars, seqs: seq<Sequence>, next: int) {
    EqualRun(o) && c.Tries() ==>
      if overflow then o.Oend() < FP.EqualSize(|o.data|) else InRun(o, c, v, seqs, next)
  }

  // --- The decisions ---

  /** The start of m2 moves right where it would leave m1 too short, or m1 longer than is worth it. */
  function Correction(v: Vars): Vars
    requires v.ip <= v.start2
  {
    if v.start2 - v.ip < OPTIMAL_ML then
      var ml := Min(v.m1.len, OPTIMAL_ML);
      var ml' := if v.ip + ml > v.start2 + v.m2.len - MINMATCH then v.start2 - v.ip + v.m2.len - MINMATCH else ml;
      var correction := ml' - (v.start2 - v.ip);
      if correction > 0 then MoveSecond(v, correction) else v
    else
      v
  }

  function MoveSecond(v: Vars, shift: int): Vars
    requires shift >= 0
  {
    v.(start2 := v.start2 + shift, m2 := v.m2.(len := Max(v.m2.len - shift, 0)))
  }

  lemma CorrectionKeeps(o: Out, found: set<Span>, v: Vars, next: int)
    requires AtSearch3(o, found, v, next)
    ensures Corrected(o, found, Correction(v), next)
    ensures Correction(v).start2 + Correction(v).m2.len == v.start2 + v.m2.len
    ensures Correction(v) == v.(start2 := Correction(v).start2, m2 := Correction(v).m2)
  {
    hide Usable;
    var v' := Correction(v);
    Sizes(o, found, v.ip, v.m1);
    Sizes(o, found, v.start2, v.m2);
    if v'.start2 != v.start2 {
      Narrowed(o, found, v.start2, v.m2.off, v.m2.len, v'.start2, v'.m2.len);
    }
  }

  lemma Sizes(o: Out, found: set<Span>, start: nat, m: Match)
    requires Usable(o, found, start, m.off, m.len)
    ensures m.len >= MINMATCH && start + MFLIMIT <= |o.data| && start + m.len + LASTLITERALS <= |o.data|
  {
    hide IsMatch, PartOfFound;
  }

  /** Search2 found a longer m2: keep both, drop m1, or go back to the match m1 displaced. */
  function Weigh(v: Vars, start2: nat, m2: Match): Vars {
    var v1 := if v.start0 < v.ip && start2 < v.ip + v.m0.len then v.(ip := v.start0, m1 := v.m0) else v;
    if start2 - v1.ip < 3 then v1.(ip := start2, m1 := m2) else v1.(start2 := start2, m2 := m2, at := Search3)
  }

  lemma WeighKeeps(o: Out, found: set<Span>, v: Vars, start2: nat, m2: Match, next: int)
    requires v.at == Search2 && AtSearch2(o, found, v, next) && Usable(o, found, start2, m2.off, m2.len)
    requires m2.len > v.m1.len
    requires v.ip <= start2 && v.ip + v.m1.len + MFLIMIT <= |o.data|
    requires next == v.ip + v.m1.len - 2 && start2 <= next && next + MINMATCH <= start2 + m2.len
    ensures Inv(o, found, Weigh(v, start2, m2), next) && Weigh(v, start2, m2).anchor == v.anchor
    ensures Weigh(v, start2, m2).at == Search2 ==> Weigh(v, start2, m2).m1.len > v.m1.len
    ensures Weigh(v, start2, m2).at != Main && Weigh(v, start2, m2).op == v.op
  {
    hide Usable;
    Sizes(o, found, v.ip, v.m1);
    Sizes(o, found, v.start0, v.m0);
  }

  /** Search3 found m3 right behind m1: m1 is written, m3 takes its place, what is left of m2 is kept aside. */
  function Aside(v: Vars, start3: nat, m3: Match): Vars
    requires start3 >= v.ip + v.m1.len
  {
    if v.start2 < v.ip + v.m1.len then
      var v1 := MoveSecond(v, v.ip + v.m1.len - v.start2);
      if v1.m2.len < MINMATCH then v1.(start2 := start3, m2 := m3) else v1
    else
      v
  }

  lemma AsideKeeps(o: Out, found: set<Span>, v: Vars, start3: nat, m3: Match, next: int)
    requires Corrected(o, found, v, next) && Usable(o, found, start3, m3.off, m3.len) && v.start2 <= start3
    requires v.ip + v.m1.len <= start3 < v.ip + v.m1.len + 3 && v.start2 + v.m2.len + MFLIMIT <= |o.data|
    requires next + MINMATCH <= start3 + m3.len
    ensures var v' := Aside(v, start3, m3); v' == v.(start2 := v'.start2, m2 := v'.m2)
    ensures var v', end := Aside(v, start3, m3), v.ip + v.m1.len;
      AtSearch2(o, found, v'.(anchor := end, ip := start3, m1 := m3, start0 := v'.start2, m0 := v'.m2), next)
  {
    hide Usable;
    var v' := Aside(v, start3, m3);
    Sizes(o, found, v.start2, v.m2);
    if v.start2 < v.ip + v.m1.len && v.start2 + v.m2.len >= v.ip + v.m1.len + MINMATCH {
      Narrowed(o, found, v.start2, v.m2.off, v.m2.len, v'.start2, v'.m2.len);
    }
  }

  /** Three ascending matches: m1 gives way to m2 where they overlap. */
  function Ascending(v: Vars): Vars
    requires v.ip <= v.start2
  {
    if v.start2 < v.ip + v.m1.len then
      if v.start2 - v.ip < OPTIMAL_ML then
        var ml := Min(v.m1.len, OPTIMAL_ML);
        var ml' := if v.ip + ml > v.start2 + v.m2.len - MINMATCH then v.start2 - v.ip + v.m2.len - MINMATCH else ml;
        var v1 := v.(m1 := v.m1.(len := Max(ml', 0)));
        if ml' - (v.start2 - v.ip) > 0 then MoveSecond(v1, ml' - (v.start2 - v.ip)) else v1
      else
        v.(m1 := v.m1.(len := v.start2 - v.ip))
    else
      v
  }

  lemma AscendingKeeps(o: Out, found: set<Span>, v: Vars, start3: nat, m3: Match, next: int)
    requires Corrected(o, found, v, next) && Usable(o, found, start3, m3.off, m3.len) && m3.len > v.m2.len
    requires v.ip + v.m1.len + 3 <= start3 <= next && v.start2 <= start3 && v.start2 + v.m2.len + MFLIMIT <= |o.data|
    requires next + 3 == v.start2 + v.m2.len && next + MINMATCH <= start3 + m3.len
    ensures var v' := Ascending(v);
      && v' == v.(m1 := v'.m1, start2 := v'.start2, m2 := v'.m2) && Usable(o, found, v.ip, v'.m1.off, v'.m1.len)
      && var u := v'.(anchor := v.ip + v'.m1.len, ip := v'.start2, m1 := v'.m2, start2 := start3, m2 := m3);
         AtSearch3(o, found, u, next)
  {
    hide Usable;
    var v' := Ascending(v);
    Sizes(o, found, v.ip, v.m1);
    Sizes(o, found, v.start2, v.m2);
    Narrowed(o, found, v.ip, v.m1.off, v.m1.len, v.ip, v'.m1.len);
    Narrowed(o, found, v.start2, v.m2.off, v.m2.len, v'.start2, v'.m2.len);
  }

  // --- The run ---

  ghost function Phase(v: Vars): nat {
    match v.at
    case Main => 2
    case Search2 => 1
    case Search3 => 0
  }

  ghost function Left(o: Out, v: Vars): int {
    match v.at
    case Main => |o.data| - v.ip
    case Search2 => |o.data| - v.m1.len
    case Search3 => |o.data| - (v.start2 + v.m2.len)
  }

  /** The run came closer to its end. */
  ghost predicate Further(o: Out, v: Vars, v': Vars) {
    || v.anchor < v'.anchor <= |o.data|
    || (v.anchor == v'.anchor && (Phase(v') < Phase(v) || (Phase(v') == Phase(v) && Left(o, v') < Left(o, v))))
  }

  /** m1 did not fit into the output. */
  ghost predicate Pending(o: Out, found: set<Span>, v: Vars) {
    v.anchor <= v.ip && Usable(o, found, v.ip, v.m1.off, v.m1.len) && NoRoom(o)
  }

  method StepMain(o: Out, c: Search, f: Finder, v: Vars, ghost t: Trace, ghost b: seq<byte>)
    returns (v': Vars, ghost t': Trace)
    requires c.Fits(o) && f.Valid(c.w) && Written(o, b, v.op, v.anchor, t)
    requires v.at == Main && AtMain(o, v, f.nextToUpdate - c.w.low) && v.ip + MFLIMIT <= |o.data|
    requires InRun(o, c, v, t.seqs, f.nextToUpdate - c.w.low)
    modifies f, f.hashTable, f.chainTable
    ensures f.Valid(c.w) && Written(o, b, v'.op, v'.anchor, t')
    ensures Inv(o, t'.found, v', f.nextToUpdate - c.w.low) && Further(o, v, v')
    ensures InRun(o, c, v', t'.seqs, f.nextToUpdate - c.w.low)
    ensures Joined(old(f.returned), f.returned, t.found, t'.found)
  {
    hide Usable, Emitted, Chosen, Genuine, Joined, FP.AllEqual;
    AnchorInside(o, b, v.op, v.anchor, t);
    ghost var found;
    var m, start;
    m, start, found := Find(o, c, f, v.ip, v.ip, MINMATCH - 1, t.found);
    StillWritten(o, b, v.op, v.anchor, t, found);
    t' := t.(found := found);
    if m.len < MINMATCH {
      v' := v.(ip := v.ip + 1);
    } else {
      v' := v.(m1 := m, start0 := v.ip, m0 := m, at := Search2);
    }
  }

  /** Writes m1 and moves behind it. */
  method WriteFirst(o: Out, dst: array<byte>, v: Vars, ghost t: Trace)
    returns (overflow: bool, v': Vars, ghost t': Trace)
    requires o.Valid(dst.Length) && Written(o, dst[..], v.op, v.anchor, t)
    requires v.anchor <= v.ip && Usable(o, t.found, v.ip, v.m1.off, v.m1.len)
    modifies dst
    ensures Written(o, dst[..], v'.op, v'.anchor, t') && t'.found == t.found
    ensures SameOutside(old(dst[..]), dst[..], 0, o.cap)
    ensures if overflow then v' == v && Pending(o, t'.found, v')
            else v' == v.(op := v'.op, ip := v.ip + v.m1.len, anchor := v.ip + v.m1.len)
    ensures if overflow then
              v.m1.len >= MINMATCH && o.Oend() < v.op + SequenceSize(v.ip - v.anchor, v.m1.len) + 1 + LASTLITERALS
            else t'.seqs == t.seqs + [Sequence(o.data[v.anchor..v.ip], v.m1.off, v.m1.len)]
  {
    hide Usable, Emitted, Chosen, Genuine;
    var op;
    overflow, op, t' := Emit(o, dst, v.op, v.anchor, v.ip, v.m1.off, v.m1.len, t);
    v' := if overflow then v else v.(op := op, ip := v.ip + v.m1.len, anchor := v.ip + v.m1.len);
  }

  method StepSearch2(o: Out, c: Search, f: Finder, dst: array<byte>, v: Vars, ghost t: Trace)
    returns (overflow: bool, v': Vars, ghost t': Trace)
    requires c.Fits(o) && f.Valid(c.w) && o.Valid(dst.Length) && Written(o, dst[..], v.op, v.anchor, t)
    requires v.at == Search2 && AtSearch2(o, t.found, v, f.nextToUpdate - c.w.low)
    requires InRun(o, c, v, t.seqs, f.nextToUpdate - c.w.low)
    modifies f, f.hashTable, f.chainTable, dst
    ensures f.Valid(c.w) && Written(o, dst[..], v'.op, v'.anchor, t') && SameOutside(old(dst[..]), dst[..], 0, o.cap)
    ensures if overflow then Pending(o, t'.found, v')
            else Inv(o, t'.found, v', f.nextToUpdate - c.w.low) && Further(o, v, v')
    ensures RunOn(o, c, overflow, v', t'.seqs, f.nextToUpdate - c.w.low)
    ensures Joined(old(f.returned), f.returned, t.found, t'.found)
  {
    hide Joined, Usable, Emitted, Chosen, Genuine, SameOutside, FP.AllEqual;
    if EqualRun(o) {
      RunMatches(o);
      assert [] + [TheMatch(o)] == [TheMatch(o)];
    }
    AnchorInside(o, dst[..], v.op, v.anchor, t);
    Sizes(o, t.found, v.ip, v.m1);
    Unwritten(dst[..], o.cap);
    ghost var found := t.found;
    JoinedNone(f.returned, found);
    var m2, start2 := Match(0, 0, 0), v.start2;
    if v.ip + v.m1.len + MFLIMIT <= |o.data| {
      m2, start2, found := Find(o, c, f, v.ip + v.m1.len - 2, v.ip, v.m1.len, t.found);
      StillUsable(o, t.found, found, v.ip, v.m1.off, v.m1.len);
      StillUsable(o, t.found, found, v.start0, v.m0.off, v.m0.len);
    }
    StillWritten(o, dst[..], v.op, v.anchor, t, found);
    t' := t.(found := found);
    if m2.len <= v.m1.len {
      overflow, v', t' := WriteFirst(o, dst, v, t');
      v' := v'.(at := Main);
      AnchorInside(o, dst[..], v'.op, v'.anchor, t');
    } else {
      WeighKeeps(o, found, v, start2, m2, f.nextToUpdate - c.w.low);
      overflow, v' := false, Weigh(v, start2, m2);
    }
  }

  method StepSearch3(o: Out, c: Search, f: Finder, dst: array<byte>, v: Vars, ghost t: Trace)
    returns (overflow: bool, v': Vars, ghost t': Trace)
    requires c.Fits(o) && f.Valid(c.w) && o.Valid(dst.Length) && Written(o, dst[..], v.op, v.anchor, t)
    requires v.at == Search3 && AtSearch3(o, t.found, v, f.nextToUpdate - c.w.low)
    modifies f, f.hashTable, f.chainTable, dst
    ensures f.Valid(c.w) && Written(o, dst[..], v'.op, v'.anchor, t') && SameOutside(old(dst[..]), dst[..], 0, o.cap)
    ensures if overflow then Pending(o, t'.found, v')
            else Inv(o, t'.found, v', f.nextToUpdate - c.w.low) && Further(o, v, v')
    ensures Joined(old(f.returned), f.returned, t.found, t'.found)
  {
    hide Joined, Usable, Emitted, Chosen, Genuine, SameOutside, Correction, Aside, Ascending;
    AnchorInside(o, dst[..], v.op, v.anchor, t);
    Unwritten(dst[..], o.cap);
    CorrectionKeeps(o, t.found, v, f.nextToUpdate - c.w.low);
    var v1 := Correction(v);
    Sizes(o, t.found, v1.start2, v1.m2);
    ghost var found := t.found;
    JoinedNone(f.returned, found);
    var m3, start3 := Match(0, 0, 0), v1.start2;
    if v1.start2 + v1.m2.len + MFLIMIT <= |o.data| {
      m3, start3, found := Find(o, c, f, v1.start2 + v1.m2.len - 3, v1.start2, v1.m2.len, t.found);
      StillUsable(o, t.found, found, v1.ip, v1.m1.off, v1.m1.len);
      StillUsable(o, t.found, found, v1.start2, v1.m2.off, v1.m2.len);
    }
    StillWritten(o, dst[..], v.op, v.anchor, t, found);
    t' := t.(found := found);
    if m3.len <= v1.m2.len {
      overflow, v', t' := WriteBoth(o, dst, v1, t', f.nextToUpdate - c.w.low);
    } else {
      overflow, v', t' := WithThird(o, dst, v1, start3, m3, t', f.nextToUpdate - c.w.low);
    }
  }

  /** No better match: m1, cut where m2 starts, and m2 are written. */
  method WriteBoth(o: Out, dst: array<byte>, v: Vars, ghost t: Trace, ghost next: int)
    returns (overflow: bool, v': Vars, ghost t': Trace)
    requires o.Valid(dst.Length) && Written(o, dst[..], v.op, v.anchor, t) && Corrected(o, t.found, v, next)
    modifies dst
    ensures Written(o, dst[..], v'.op, v'.anchor, t') && SameOutside(old(dst[..]), dst[..], 0, o.cap)
    ensures if overflow then Pending(o, t'.found, v')
            else v'.at == Main && AtMain(o, v', next) && v.anchor < v'.anchor <= |o.data|
    ensures t'.found == t.found
  {
    hide Usable, Emitted, Chosen, Genuine, SameOutside;
    var v1 := if v.start2 < v.ip + v.m1.len then v.(m1 := v.m1.(len := v.start2 - v.ip)) else v;
    Sizes(o, t.found, v.ip, v.m1);
    Narrowed(o, t.found, v.ip, v.m1.off, v.m1.len, v.ip, v1.m1.len);
    ghost var b := dst[..];
    overflow, v', t' := WriteFirst(o, dst, v1, t);
    if overflow {
      return;
    }
    ghost var b1 := dst[..];
    v' := v'.(ip := v.start2, m1 := v.m2);
    overflow, v', t' := WriteFirst(o, dst, v', t');
    OutsideTwice(b, b1, dst[..], 0, o.cap);
    v' := v'.(at := Main);
    AnchorInside(o, dst[..], v'.op, v'.anchor, t');
    Sizes(o, t.found, v.start2, v.m2);
  }

  /** Search3 found a longer m3. */
  method WithThird(o: Out, dst: array<byte>, v: Vars, start3: nat, m3: Match, ghost t: Trace, ghost next: int)
    returns (overflow: bool, v': Vars, ghost t': Trace)
    requires o.Valid(dst.Length) && Written(o, dst[..], v.op, v.anchor, t) && v.at == Search3
    requires Corrected(o, t.found, v, next)
    requires Usable(o, t.found, start3, m3.off, m3.len) && m3.len > v.m2.len
    requires next == v.start2 + v.m2.len - 3 && v.start2 <= start3 <= next && next + MINMATCH <= start3 + m3.len
    requires v.start2 + v.m2.len + MFLIMIT <= |o.data|
    modifies dst
    ensures Written(o, dst[..], v'.op, v'.anchor, t') && SameOutside(old(dst[..]), dst[..], 0, o.cap)
    ensures if overflow then Pending(o, t'.found, v') else Inv(o, t'.found, v', next) && Further(o, v, v')
    ensures t'.found == t.found
  {
    hide Usable, Emitted, Chosen, Genuine, SameOutside, Aside, Ascending;
    Sizes(o, t.found, v.ip, v.m1);
    Sizes(o, t.found, v.start2, v.m2);
    if start3 < v.ip + v.m1.len {
      Unwritten(dst[..], o.cap);
      overflow, v', t' := false, v.(start2 := start3, m2 := m3), t;
    } else if start3 < v.ip + v.m1.len + 3 {
      AsideKeeps(o, t.found, v, start3, m3, next);
      var v1 := Aside(v, start3, m3);
      overflow, v', t' := WriteFirst(o, dst, v1, t);
      if !overflow {
        v' := v'.(ip := start3, m1 := m3, start0 := v1.start2, m0 := v1.m2, at := Search2);
        AnchorInside(o, dst[..], v'.op, v'.anchor, t');
      }
    } else {
      AscendingKeeps(o, t.found, v, start3, m3, next);
      var v1 := Ascending(v);
      Sizes(o, t.found, v.ip, v1.m1);
      overflow, v', t' := WriteFirst(o, dst, v1, t);
      if !overflow {
        v' := v'.(ip := v1.start2, m1 := v1.m2, start2 := start3, m2 := m3);
        AnchorInside(o, dst[..], v'.op, v'.anchor, t');
      }
    }
  }

  method Step(o: Out, c: Search, f: Finder, dst: array<byte>, v: Vars, ghost t: Trace)
    returns (overflow: bool, v': Vars, ghost t': Trace)
    requires c.Fits(o) && f.Valid(c.w) && o.Valid(dst.Length) && Written(o, dst[..], v.op, v.anchor, t)
    requires Inv(o, t.found, v, f.nextToUpdate - c.w.low) && (v.at == Main ==> v.ip + MFLIMIT <= |o.data|)
    requires InRun(o, c, v, t.seqs, f.nextToUpdate - c.w.low)
    modifies f, f.hashTable, f.chainTable, dst
    ensures f.Valid(c.w) && Written(o, dst[..], v'.op, v'.anchor, t') && SameOutside(old(dst[..]), dst[..], 0, o.cap)
    ensures if overflow then Pending(o, t'.found, v')
            else Inv(o, t'.found, v', f.nextToUpdate - c.w.low) && Further(o, v, v')
    ensures RunOn(o, c, overflow, v', t'.seqs, f.nextToUpdate - c.w.low)
    ensures Joined(old(f.returned), f.returned, t.found, t'.found)
  {
    hide Joined, Written, Usable, SameOutside, AtMain, AtSearch2, AtSearch3, Further, Pending, EqualRun;
    match v.at {
      case Main =>
        Unwritten(dst[..], o.cap);
        overflow := false;
        v', t' := StepMain(o, c, f, v, t, dst[..]);
      case Search2 =>
        overflow, v', t' := StepSearch2(o, c, f, dst, v, t);
      case Search3 =>
        overflow, v', t' := StepSearch3(o, c, f, dst, v, t);
    }
  }

  /** LZ4HC_compress_hashChain, for any hash and any number of attempts. */
  method CompressHashChain(o: Out, w: Window, f: Finder, dst: array<byte>, maxNbAttempts: nat)
    returns (result: nat, anchor: nat, end: nat, ghost t: Trace)
    requires o.Valid(dst.Length) && o.cap >= 1 && f.Valid(w) && f.nextToUpdate <= w.low + o.ds
    requires w.Valid() && w.data == o.data && w.dl <= o.ds
    modifies f, f.hashTable, f.chainTable, dst
    ensures f.Valid(w)
    ensures result == 0 ==> o.directive == FC.LimitedOutput && o.cap < FC.CompressBound(|o.data| - o.ds)
    ensures result > 0 ==> result <= o.cap && Compressed(o, dst[..result], anchor, end, t)
    ensures EqualRun(o) && maxNbAttempts >= 1 && o.directive != FC.FillOutput ==> Shrunk(o, dst[..], result)
    ensures Joined(old(f.returned), f.returned, {}, t.found)
    ensures SameOutside(old(dst[..]), dst[..], 0, o.cap)
  {
    hide Joined, Written, Usable, SameOutside, Further, Compressed, FP.AllEqual, Shrunk;
    var c := Search(w, maxNbAttempts, maxNbAttempts > 128, false, false);
    var none := Match(0, 0, 0);
    var v, overflow := Vars(Main, 0, o.ds, o.ds, none, o.ds, none, o.ds, none), false;
    NothingWritten(o, dst[..]);
    Unwritten(dst[..], o.cap);
    t := Trace([], {});
    JoinedNone(f.returned, {});
    if |o.data| - o.ds >= MIN_LENGTH {
      while !overflow && (v.at != Main || v.ip + MFLIMIT <= |o.data|)
        invariant f.Valid(w) && Written(o, dst[..], v.op, v.anchor, t) && SameOutside(old(dst[..]), dst[..], 0, o.cap)
        invariant if overflow then Pending(o, t.found, v) else Inv(o, t.found, v, f.nextToUpdate - w.low)
        invariant RunOn(o, c, overflow, v, t.seqs, f.nextToUpdate - w.low)
        invariant Joined(old(f.returned), f.returned, {}, t.found)
        decreases !overflow, |o.data| - v.anchor, Phase(v), Left(o, v)
      {
        InRange(o, dst[..], v, t, f.nextToUpdate - w.low);
        ghost var b, v0, log, found := dst[..], v, f.returned, t.found;
        overflow, v, t := Step(o, c, f, dst, v, t);
        JoinedTwice(old(f.returned), log, f.returned, {}, found, t.found);
        OutsideTwice(old(dst[..]), b, dst[..], 0, o.cap);
        assert overflow || Further(o, v0, v);
        FurtherMeans(o, v0, v);
      }
    }
    ghost var b := dst[..];
    result, anchor, end, t := Finish(o, dst, overflow, v.op, v.anchor, v.ip, v.m1.off, v.m1.len, t);
    if EqualRun(o) && c.Tries() && o.directive != FC.FillOutput {
      RunDone(o, dst[..], result, overflow, v.op, v.ip, anchor, end, t);
    }
    OutsideTwice(old(dst[..]), b, dst[..], 0, o.cap);
  }

  lemma InRange(o: Out, b: seq<byte>, v: Vars, t: Trace, next: int)
    requires Written(o, b, v.op, v.anchor, t) && Inv(o, t.found, v, next)
    requires v.at == Main ==> v.ip + MFLIMIT <= |o.data|
    ensures v.anchor <= |o.data| && Left(o, v) >= 0
  {
    hide IsMatch, PartOfFound, Chosen;
  }

  lemma FurtherMeans(o: Out, v: Vars, v': Vars)
    ensures Further(o, v, v') ==>
      || v.anchor < v'.anchor <= |o.data|
      || (v.anchor == v'.anchor && (Phase(v') < Phase(v) || (Phase(v') == Phase(v) && Left(o, v') < Left(o, v))))
  {}
}
