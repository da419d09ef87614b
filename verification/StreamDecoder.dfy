/**
 LZ4_streamDecode_t, and the pairing of a compressing with a decompressing stream: as long as the decoder sees the
 history the encoder refers to, every block comes back, wherever the two sides keep their data.
 */
module StreamDecoder {
  import opened Bytes
  import opened BlockFormat
  import opened MemCopy
  import opened History
  import opened HistoryWindow
  import opened BlockDecoder
  import opened Placement
  import FC = FastCompressor
  import FS = FastStream

  // --- The decoder ---

  /** Where the decoder's history lies: the current segment, and the one it left before. */
  datatype Segments = Segments(prefixEnd: int, prefixSize: nat, externalDict: int, extDictSize: nat)
  {
    /** Writing to [dest, end) touches no segment that is read. */
    predicate Apart(dest: nat, end: nat) {
      && (prefixSize > 0 ==> prefixEnd <= dest || end <= prefixEnd - prefixSize)
      && (extDictSize > 0 && prefixEnd == dest ==> externalDict + extDictSize <= dest || end <= externalDict)
    }

    /** An empty block somewhere else makes the current segment its own predecessor. */
    predicate Doubled() {
      prefixEnd - prefixSize <= externalDict < prefixEnd
    }

    /** How much of the end of the output a call that writes at `dest` can refer to. */
    function Visible(dest: nat): nat {
      if prefixSize == 0 then 0
      else if prefixEnd == dest && prefixSize < KB64 - 1 && !Doubled() then prefixSize + extDictSize
      else prefixSize
    }

    /** After a call that wrote `n` bytes at `dest`: the segment grew, or a new one began. */
    function After(dest: nat, n: nat): Segments {
      var s := if prefixSize > 0 && prefixEnd != dest then
                 this.(externalDict := prefixEnd - prefixSize, extDictSize := prefixSize)
               else this;
      if n == 0 then s
      else s.(prefixEnd := dest + n, prefixSize := n + if prefixEnd == dest then prefixSize else 0)
    }

    /** They are in memory: the current one is the end of the output, the other one what precedes it. */
    ghost predicate In(m: seq<byte>, out: seq<byte>) {
      && SegmentIn(m, prefixEnd, prefixSize, out) && (prefixSize == 0 ==> extDictSize == 0)
      && (extDictSize > 0 ==> 0 <= externalDict && externalDict + extDictSize <= |m|)
      && (!Doubled() ==> SegmentIn(m, externalDict + extDictSize, extDictSize, out[..|out| - prefixSize]))
    }

    /** They still are after a call, whether or not it succeeded. */
    lemma Wrote(m: seq<byte>, m': seq<byte>, out: seq<byte>, dest: nat, end: nat, n: nat)
      requires In(m, out) && Apart(dest, end) && SameOutside(m, m', dest, end) && dest + n <= end <= |m| == |m'|
      ensures After(dest, n).In(m', out + m'[dest..dest + n])
    {
      hide SegmentIn, SameOutside;
      var out' := out + m'[dest..dest + n];
      SegmentStays(m, m', prefixEnd, prefixSize, out, dest, end);
      if prefixSize > 0 && prefixEnd == dest {
        SegmentGrows(m', dest, n, prefixSize, out);
        assert prefixSize <= |out| by { SegmentSize(m, prefixEnd, prefixSize, out); }
        assert out'[..|out'| - n - prefixSize] == out[..|out| - prefixSize];
        if !Doubled() {
          SegmentStays(m, m', externalDict + extDictSize, extDictSize, out[..|out| - prefixSize], dest, end);
        }
      } else if n > 0 {
        NoSegment(m', dest, out);
        SegmentGrows(m', dest, n, 0, out);
        assert out'[..|out'| - n] == out;
        NoSegment(m', externalDict, out);
      } else {
        assert out' == out;
        NoSegment(m', externalDict, out);
        NoSegment(m', prefixEnd, out);
      }
      SegmentSize(m', prefixEnd, prefixSize, out);
    }
  }

  /** The `size` bytes of memory before `end` are the last ones of `h`. */
  ghost predicate SegmentIn(m: seq<byte>, end: int, size: nat, h: seq<byte>) {
    size <= |h| && (size > 0 ==> size <= end <= |m| && m[end - size..end] == Last(h, size))
  }

  lemma NoSegment(m: seq<byte>, end: int, h: seq<byte>)
    ensures SegmentIn(m, end, 0, h)
  {}

  lemma SegmentSize(m: seq<byte>, end: int, size: nat, h: seq<byte>)
    requires SegmentIn(m, end, size, h)
    ensures size <= |h| && (size > 0 ==> size <= end <= |m|)
  {}

  lemma SegmentStays(m: seq<byte>, m': seq<byte>, e: int, size: nat, h: seq<byte>, dest: nat, end: nat)
    requires |m| == |m'| && SegmentIn(m, e, size, h) && SameOutside(m, m', dest, end)
    requires size > 0 ==> e <= dest || end <= e - size
    ensures SegmentIn(m', e, size, h)
  {
    hide SameOutside, Last;
    if size > 0 {
      SegmentKept(m, m', e - size, e, dest, end);
    }
  }

  lemma SegmentGrows(m: seq<byte>, dest: nat, n: nat, k: nat, h: seq<byte>)
    requires SegmentIn(m, dest, k, h) && dest + n <= |m|
    ensures SegmentIn(m, dest + n, k + n, h + m[dest..dest + n])
  {
    hide Last;
    if k > 0 {
      LastGrows(m, dest, n, k, h);
    } else {
      LastInside(h, m[dest..dest + n], n);
      assert Last(m[dest..dest + n], n) == m[dest..dest + n] by { AllOfIt(m[dest..dest + n]); }
    }
  }

  class StreamDecode {
    var prefixEnd: int
    var prefixSize: nat
    var externalDict: int
    var extDictSize: nat

    /** Everything decoded since the start. */
    ghost var out: seq<byte>

    constructor ()
      ensures Segs() == NoSegments() && out == []
    {
      prefixEnd, prefixSize, externalDict, extDictSize := FS.NULL, 0, FS.NULL, 0;
      out := [];
    }

    function Segs(): Segments
      reads `prefixEnd, `prefixSize, `externalDict, `extDictSize
    {
      Segments(prefixEnd, prefixSize, externalDict, extDictSize)
    }

    ghost predicate Intact(mem: array<byte>)
      reads this, mem
    {
      Segs().In(mem[..], out)
    }

    /** The history a call that writes at `dest` can refer to. */
    ghost function Available(mem: array<byte>, dest: nat): seq<byte>
      requires Intact(mem)
      reads this, mem
    {
      if prefixSize == 0 then []
      else if prefixEnd == dest && (prefixSize >= KB64 - 1 || extDictSize == 0) then Last(out, prefixSize)
      else if prefixEnd == dest then mem[externalDict..externalDict + extDictSize] + Last(out, prefixSize)
      else Last(out, prefixSize)
    }

    /** LZ4_decompress_safe_continue. */
    method DecompressSafeContinue(mem: array<byte>, src: seq<byte>, dest: nat, maxOutputSize: nat) returns (result: int)
      requires Intact(mem) && dest + maxOutputSize <= mem.Length && Segs().Apart(dest, dest + maxOutputSize)
      modifies this, mem
      ensures result <= maxOutputSize && SameOutside(old(mem[..]), mem[..], dest, dest + maxOutputSize)
      ensures result >= 0 ==>
        var r := Decode(src, 0, old(Available(mem, dest)));
        r.Decoded? && r.out == old(Available(mem, dest)) + mem[dest..dest + result]
      ensures result < 0 && maxOutputSize > 0 ==>
        var r := Decode(src, 0, old(Available(mem, dest)));
        !(r.Decoded? && r.conforming && |r.out| <= |old(Available(mem, dest))| + maxOutputSize)
      ensures maxOutputSize > 0 ==>
        var h := old(Available(mem, dest));
        if result < 0 then !TakenAlways(src, h, maxOutputSize) else TakenEver(src, h, maxOutputSize)
      ensures maxOutputSize == 0 ==> (result >= 0 <==> src == [0])
      ensures Intact(mem) && Segs() == old(Segs()).After(dest, Max(result, 0))
      ensures out == old(out) + mem[dest..dest + Max(result, 0)]
    {
      hide Decode, Available, SameOutside, Last, Segments.In, Segments.After, Takes, TakenAlways, TakenEver;
      ghost var m, s, h := mem[..], Segs(), Available(mem, dest);
      var j := ChooseHistory(mem, src, dest, dest + maxOutputSize);
      assert Window(h, h) by { WholeWindow(h); }
      InAnyPlace(j, h, h);
      result := Decompress(mem, j);
      if result >= 0 {
        OutputFollows(j, m, mem[..], dest + result);
      }
      s.Wrote(m, mem[..], out, dest, dest + maxOutputSize, Max(result, 0));
      assert mem[..][dest..dest + Max(result, 0)] == mem[dest..dest + Max(result, 0)];
      Advance(dest, result, mem[dest..dest + Max(result, 0)], s);
    }

    /** A block that decodes behind the last `k` bytes of the output comes back, if the call can refer to those. */
    method Receive(mem: array<byte>, src: seq<byte>, dest: nat, n: nat, ghost k: nat, ghost block: seq<byte>)
      returns (result: int)
      requires Intact(mem) && dest + n <= mem.Length && Segs().Apart(dest, dest + n)
      requires k <= |out| && k <= Segs().Visible(dest) && |block| == n && (n == 0 ==> src == [0])
      requires Decode(src, 0, Last(out, k)) == Decoded(Last(out, k) + block, true)
      modifies this, mem
      ensures result == n && mem[..] == Patch(old(mem[..]), dest, block)
      ensures Intact(mem) && out == old(out) + block && Segs() == old(Segs()).After(dest, n)
    {
      hide Decode, Last, EndsWith, SameOutside, Segments.In, Segments.After, Segments.Apart, Segments.Visible;
      ghost var h := Available(mem, dest);
      AvailableEndsWith(mem, dest, k);
      MoreHistory(src, h, Last(out, k), block);
      result := DecompressSafeContinue(mem, src, dest, n);
      assert (h + block)[|h|..] == block;
      assert mem[..][dest..dest + n] == mem[dest..dest + n];
      Patched(old(mem[..]), mem[..], dest, n, block);
    }

    /** Records `result` new bytes at `dest` as part of the current segment, or as a new one. */
    method Advance(dest: nat, result: int, ghost b: seq<byte>, ghost s: Segments)
      requires Segs() == s.After(dest, 0)
      modifies `prefixEnd, `prefixSize, `out
      ensures Segs() == s.After(dest, Max(result, 0)) && out == old(out) + b
    {
      out := out + b;
      if result > 0 {
        prefixSize := if prefixSize > 0 && prefixEnd == dest then prefixSize + result else result;
        prefixEnd := dest + result;
      }
    }

    /** Which of the segments are prefix and external dictionary for output at `dest`. */
    method ChooseHistory(mem: array<byte>, src: seq<byte>, dest: nat, oend: nat) returns (j: Job)
      requires Intact(mem) && dest <= oend <= mem.Length && Segs().Apart(dest, oend)
      modifies `externalDict, `extDictSize
      ensures j.Valid(mem.Length) && j.src == src && j.dst == dest && j.oend == oend
      ensures j.View(mem[..], dest) == old(Available(mem, dest)) && Segs() == old(Segs()).After(dest, 0)
    {
      hide Last;
      if prefixSize == 0 {
        j := Job(src, dest, oend, NoDict, dest, []);
      } else if prefixEnd == dest {
        if prefixSize >= KB64 - 1 {
          j := Job(src, dest, oend, WithPrefix64k, dest - prefixSize, []);
        } else if extDictSize == 0 {
          j := Job(src, dest, oend, NoDict, dest - prefixSize, []);
        } else {
          j := Job(src, dest, oend, UsingExtDict, dest - prefixSize, mem[externalDict..externalDict + extDictSize]);
        }
      } else {
        extDictSize := prefixSize;
        externalDict := prefixEnd - extDictSize;
        j := Job(src, dest, oend, UsingExtDict, dest, mem[externalDict..externalDict + extDictSize]);
      }
    }

    /** Whatever the segments, the end of the output is available as far as it is visible. */
    lemma AvailableEndsWith(mem: array<byte>, dest: nat, k: nat)
      requires Intact(mem) && k <= |out| && k <= Segs().Visible(dest)
      ensures EndsWith(Available(mem, dest), Last(out, k))
    {
      hide Last, Segments.In, Segments.Visible;
      var h, v := Available(mem, dest), Segs().Visible(dest);
      VisibleIsLast(mem, dest);
      EndsWithLast(h, k);
      if prefixSize > 0 {
        LastOfLast(h, v, k);
        LastOfLast(out, v, k);
      }
    }

    /** After an empty block somewhere else the decoder takes its segment to be preceded by itself. */
    lemma EmptyBlockElsewhere(mem: array<byte>, dest: nat, s: Segments)
      requires Intact(mem) && Segs() == s.After(dest, 0) && 0 < s.prefixSize < KB64 - 1 && s.prefixEnd != dest
      ensures Segs().Doubled() && Segs().Visible(prefixEnd) == s.prefixSize
      ensures Available(mem, prefixEnd) == Last(out, s.prefixSize) + Last(out, s.prefixSize)
    {
      assert mem[externalDict..externalDict + extDictSize] == mem[..][externalDict..externalDict + extDictSize];
    }

    lemma VisibleIsLast(mem: array<byte>, dest: nat)
      requires Intact(mem)
      ensures var v := Segs().Visible(dest);
        v <= |out| && v <= |Available(mem, dest)| && Last(Available(mem, dest), v) == Last(out, v)
    {
      var p, e := prefixSize, extDictSize;
      var h := Available(mem, dest);
      if 0 < e && Segs().Visible(dest) == p + e {
        assert mem[externalDict..externalDict + e] == mem[..][externalDict..externalDict + e];
        assert Last(out, p + e) == Last(out[..|out| - p], e) + Last(out, p);
      } else if p > 0 {
        assert Last(h, p) == Last(out, p);
      }
    }
  }

  function NoSegments(): Segments {
    Segments(FS.NULL, 0, FS.NULL, 0)
  }

  lemma Patched(m: seq<byte>, m': seq<byte>, at: nat, n: nat, piece: seq<byte>)
    requires at + n <= |m| && |piece| == n && SameOutside(m, m', at, at + n) && (n > 0 ==> m'[at..at + n] == piece)
    ensures m' == Patch(m, at, piece)
  {}

  // --- Both sides, as values ---

  /** What the encoder may refer to: the `kept` last bytes it was given, at most 64 KB, which lie before `end`. */
  datatype Reach = Reach(end: int, kept: nat)
  {
    /** How much of it a call on [source, source + n) keeps: none of a tiny history, nothing the source overwrote. */
    function Keeps(source: nat, n: nat): nat {
      if kept < 4 && end != source && n > 0 then 0
      else if kept > 0 && end - kept < source + n < end then if end - (source + n) < 4 then 0 else end - (source + n)
      else kept
    }

    function After(source: nat, n: nat): Reach {
      Before(source + n, Min(KB64, n + if end == source then Keeps(source, n) else 0))
    }
  }

  function Before(end: nat, kept: nat): Reach {
    Reach(if kept > 0 then end else FS.NULL, kept)
  }

  ghost function ReachOf(enc: FS.Stream): Reach
    reads enc
  {
    Reach(enc.DictEnd(), Min(enc.dictSize, KB64))
  }

  /** Renormalisation and the true size of the dictionary make no difference. */
  lemma KeepsIsKept(enc: FS.Stream, source: nat, n: nat)
    ensures ReachOf(enc).Keeps(source, n) == Min(enc.Kept(source, n), KB64)
  {}

  /** What can happen: the producer writes into its memory, a block is sent, the encoder's history is saved. */
  datatype Event =
    | Write(at: nat, data: seq<byte>)
    | Send(source: nat, n: nat, dest: nat)
    | Save(safeBuffer: nat, size: nat)

  /** Both memories, everything sent, and what each side may refer to; `safe` bytes of the encoder's history are not
      overwritten yet. */
  datatype World = World(memE: seq<byte>, memD: seq<byte>, sent: seq<byte>, reach: Reach, safe: nat, segs: Segments)
  {
    /** The event stays inside memory, history that is referred to is not overwritten, and the decoder can see it. */
    ghost predicate Allows(e: Event) {
      match e
      case Write(at, data) => at + |data| <= |memE|
      case Send(source, n, dest) =>
        && source + n <= |memE| && n <= FS.MAX_INPUT_SIZE && dest + n <= |memD| && segs.Apart(dest, dest + n)
        && reach.Keeps(source, n) <= safe && Min(reach.Keeps(source, n), DISTANCE_MAX) <= segs.Visible(dest)
      case Save(safeBuffer, size) =>
        Min(size, reach.kept) <= safe <= |sent| && safeBuffer + Min(size, reach.kept) <= |memE|
    }

    ghost function After(e: Event): World
      requires Allows(e)
    {
      match e
      case Write(at, data) => this.(memE := Patch(memE, at, data), safe := Spared(at, at + |data|))
      case Send(source, n, dest) =>
        var block, r := memE[source..source + n], reach.After(source, n);
        World(memE, Patch(memD, dest, block), sent + block, r, r.kept, segs.After(dest, n))
      case Save(safeBuffer, size) =>
        var k := Min(size, reach.kept);
        World(Patch(memE, safeBuffer, Last(sent, k)), memD, sent, Before(safeBuffer + k, k), k, segs)
    }

    /** What is left of the encoder's history when [from, to) is overwritten. */
    function Spared(from: nat, to: nat): nat {
      if from == to || reach.end <= from || to <= reach.end - safe then safe
      else if to <= reach.end then reach.end - to
      else 0
    }

    /** What an event returns. A packet decodes behind what was sent before it, and adds its block. */
    ghost predicate Returns(e: Event, packet: seq<byte>, result: nat) {
      match e
      case Write(_, _) => result == 0 && packet == []
      case Send(source, n, _) =>
        && result == |packet| <= FC.CompressBound(n) && source + n <= |memE|
        && Decode(packet, 0, sent) == Decoded(sent + memE[source..source + n], true)
      case Save(_, size) => result == Min(size, reach.kept) && packet == []
    }
  }

  // --- Runs ---

  /** The streams and their memories are as `w` says. */
  ghost predicate Mirrors(w: World, enc: FS.Stream, dec: StreamDecode, memE: array<byte>, memD: array<byte>)
    reads enc, enc.table, dec, memE, memD
  {
    && enc.Streaming() && dec.Intact(memD) && w.memE == memE[..] && w.memD == memD[..]
    && w.sent == enc.hist == dec.out && w.reach == ReachOf(enc) && w.segs == dec.Segs() && w.safe <= w.reach.kept
    && (enc.dictSize > 0 ==> enc.DictEnd() <= memE.Length) && enc.Intact(memE, enc.DictEnd(), w.safe)
  }

  /** The two sides have their own memories. */
  ghost predicate Separate(enc: FS.Stream, memE: array<byte>, memD: array<byte>, packet: array<byte>) {
    && memE != packet && memD != packet && memD != memE
    && enc.table != memE as object && enc.table != packet as object && enc.table != memD as object
  }

  /** One block through a pair of streams. */
  method Exchange(enc: FS.Stream, dec: StreamDecode, memE: array<byte>, source: nat, n: nat, packet: array<byte>,
                  acceleration: int, memD: array<byte>, dest: nat, ghost w: World)
    returns (sent: nat, result: int)
    requires Mirrors(w, enc, dec, memE, memD) && Separate(enc, memE, memD, packet) && w.Allows(Send(source, n, dest))
    modifies enc, enc.table, packet, dec, memD
    ensures sent > 0 ==>
      && sent <= packet.Length && w.Returns(Send(source, n, dest), packet[..sent], sent) && result == n
      && Mirrors(w.After(Send(source, n, dest)), enc, dec, memE, memD)
    ensures sent == 0 ==> memD[..] == old(memD[..]) && dec.out == old(dec.out)
    ensures FC.CompressBound(n) <= packet.Length ==> sent > 0
  {
    hide Decode, Last, EndsWith, FC.CompressBound, Segments.In, Segments.After, Segments.Apart, Segments.Visible,
      FS.Stream.Intact, FS.Stream.Recent, FS.Stream.Streaming, FS.Stream.NextBlock, Reach.Keeps, SameOutside;
    ghost var k, block := w.reach.Keeps(source, n), memE[source..source + n];
    Reachable(w, enc, dec, memE, memD, source, n);
    sent := enc.CompressFastContinue(memE, source, n, packet, packet.Length, acceleration);
    result := 0;
    if sent > 0 {
      enc.RecentBounds(memE, enc.dictSize);
      Sent(packet[..sent], w.sent, k, block);
      result := dec.Receive(memD, packet[..sent], dest, n, Min(k, DISTANCE_MAX), block);
    }
  }

  /** The encoder finds the history it keeps. */
  lemma Reachable(w: World, enc: FS.Stream, dec: StreamDecode, memE: array<byte>, memD: array<byte>, source: nat,
                  n: nat)
    requires Mirrors(w, enc, dec, memE, memD) && w.reach.Keeps(source, n) <= w.safe
    ensures enc.Recent(memE, enc.Kept(source, n))
    ensures w.reach.Keeps(source, n) == Min(enc.Kept(source, n), KB64) <= |w.sent|
  {
    hide Last, Segments.In, FS.Stream.Intact;
    KeepsIsKept(enc, source, n);
    enc.IntactLess(memE, enc.DictEnd(), w.safe, w.reach.Keeps(source, n));
  }

  /** A packet that decodes behind the history kept decodes behind as much as offsets reach, and behind everything. */
  lemma Sent(packet: seq<byte>, h: seq<byte>, k: nat, block: seq<byte>)
    requires k <= |h| && Decode(packet, 0, Last(h, k)) == Decoded(Last(h, k) + block, true)
    ensures var d := Last(h, Min(k, DISTANCE_MAX)); Decode(packet, 0, d) == Decoded(d + block, true)
    ensures Decode(packet, 0, h) == Decoded(h + block, true)
  {
    hide Decode;
    if k > DISTANCE_MAX {
      LessHistory(packet, Last(h, k), DISTANCE_MAX, block);
      assert Last(Last(h, k), DISTANCE_MAX) == Last(h, DISTANCE_MAX);
    }
    MoreHistory(packet, h, Last(h, k), block);
  }

  /** The producer may put new data anywhere; what it overwrites of the history is lost. */
  method Refill(enc: FS.Stream, dec: StreamDecode, memE: array<byte>, memD: array<byte>, at: nat, data: seq<byte>,
                ghost w: World)
    requires Mirrors(w, enc, dec, memE, memD) && w.Allows(Write(at, data))
    requires memD != memE && enc.table != memE as object
    modifies memE
    ensures Mirrors(w.After(Write(at, data)), enc, dec, memE, memD)
  {
    hide SegmentIn, SameOutside, Segments.In, FS.Stream.Streaming, FS.Stream.Intact;
    ghost var k := w.Spared(at, at + |data|);
    enc.IntactLess(memE, enc.DictEnd(), w.safe, k);
    AsSegment(enc, memE, enc.DictEnd(), k);
    CopyPiece(memE, at, data);
    Patched(w.memE, memE[..], at, |data|, data);
    if data == [] {
      assert memE[..] == w.memE;
    } else {
      SegmentStays(w.memE, memE[..], enc.DictEnd(), k, enc.hist, at, at + |data|);
    }
    AsSegment(enc, memE, enc.DictEnd(), k);
  }

  lemma AsSegment(enc: FS.Stream, mem: array<byte>, end: int, k: nat)
    ensures enc.Intact(mem, end, k) <==> SegmentIn(mem[..], end, k, enc.hist)
  {
    hide Last;
    if 0 < k <= end <= mem.Length {
      assert mem[end - k..end] == mem[..][end - k..end];
    }
  }

  /** The encoder may move its history elsewhere, also over itself, with LZ4_saveDict. */
  method SaveHistory(enc: FS.Stream, dec: StreamDecode, memE: array<byte>, memD: array<byte>, safeBuffer: nat,
                     size: nat, ghost w: World)
    returns (saved: nat)
    requires Mirrors(w, enc, dec, memE, memD) && w.Allows(Save(safeBuffer, size))
    requires memD != memE && enc.table != memE as object
    modifies enc, memE
    ensures Mirrors(w.After(Save(safeBuffer, size)), enc, dec, memE, memD)
    ensures w.Returns(Save(safeBuffer, size), [], saved)
  {
    hide Last, SegmentIn, SameOutside, Segments.In, FS.Stream.Streaming, FS.Stream.Intact, Patch;
    enc.IntactLess(memE, enc.DictEnd(), w.safe, Min(size, w.reach.kept));
    saved := enc.SaveDict(memE, safeBuffer, size);
    AsSegment(enc, memE, safeBuffer + saved, saved);
    MovedTo(w.memE, memE[..], safeBuffer, saved, w.sent);
    AsSegment(enc, memE, enc.DictEnd(), saved);
  }

  lemma MovedTo(m: seq<byte>, m': seq<byte>, at: nat, k: nat, h: seq<byte>)
    requires at + k <= |m| && SameOutside(m, m', at, at + k) && SegmentIn(m', at + k, k, h)
    ensures m' == Patch(m, at, Last(h, k)) && (k == 0 ==> SegmentIn(m', FS.NULL, 0, h))
  {
    hide Last;
    Patched(m, m', at, k, Last(h, k));
  }

  ghost function Replay(w: World, events: seq<Event>): World {
    if events == [] then w
    else
      var k := |events| - 1;
      var v := Replay(w, events[..k]);
      if v.Allows(events[k]) then v.After(events[k]) else v
  }

  /** What the two sides have to agree on: every event is allowed when it comes. */
  ghost predicate Permitted(w: World, events: seq<Event>) {
    forall k :: 0 <= k < |events| ==> Replay(w, events[..k]).Allows(events[k])
  }

  lemma ReplayNone(w: World, events: seq<Event>)
    ensures Replay(w, events[..0]) == w
  {}

  lemma ReplayOneMore(w: World, events: seq<Event>, k: nat)
    requires k < |events| && Permitted(w, events)
    ensures Replay(w, events[..k]).Allows(events[k])
    ensures Replay(w, events[..k + 1]) == Replay(w, events[..k]).After(events[k])
  {
    hide World.Allows, World.After;
    assert events[..k + 1][..k] == events[..k];
  }

  /** One event; `ok` is false when a block did not fit into the packet. */
  method Step(enc: FS.Stream, dec: StreamDecode, memE: array<byte>, memD: array<byte>, packet: array<byte>, e: Event,
              acceleration: int, ghost w: World)
    returns (ok: bool, result: nat, sent: seq<byte>)
    requires Mirrors(w, enc, dec, memE, memD) && Separate(enc, memE, memD, packet) && w.Allows(e)
    modifies enc, enc.table, dec, memE, memD, packet
    ensures ok ==> Mirrors(w.After(e), enc, dec, memE, memD) && w.Returns(e, sent, result)
    ensures !ok ==>
      && e.Send? && packet.Length < FC.CompressBound(e.n)
      && memE[..] == w.memE && memD[..] == w.memD && dec.out == w.sent
  {
    hide FC.CompressBound, Segments.In, World.After, World.Returns, World.Allows, FS.Stream.Intact, ReachOf, Decode;
    ok, result, sent := true, 0, [];
    match e
    case Write(at, data) =>
      Refill(enc, dec, memE, memD, at, data, w);
      WriteReturns(w, at, data);
    case Send(source, n, dest) =>
      var r;
      result, r := Exchange(enc, dec, memE, source, n, packet, acceleration, memD, dest, w);
      ok := result > 0;
      sent := packet[..result];
    case Save(safeBuffer, size) => result := SaveHistory(enc, dec, memE, memD, safeBuffer, size, w);
  }

  lemma WriteReturns(w: World, at: nat, data: seq<byte>)
    requires w.Allows(Write(at, data))
    ensures w.Returns(Write(at, data), [], 0)
  {}

  ghost function Start(memE: seq<byte>, memD: seq<byte>): World {
    World(memE, memD, [], Reach(FS.NULL, 0), 0, NoSegments())
  }

  /** Every run of two fresh streams: both memories are what the events say, so everything sent has arrived where the
      decoder wanted it, and each packet decodes behind what was sent before it. Only a packet without room for a
      block ends a run early. */
  method Run(memE: array<byte>, memD: array<byte>, packet: array<byte>, events: seq<Event>, acceleration: int,
             slots: nat, hash32: seq<byte> -> nat, hash16: seq<byte> -> nat)
    returns (enc: FS.Stream, dec: StreamDecode, results: seq<nat>, packets: seq<seq<byte>>)
    requires memE != packet && memD != packet && memD != memE && (forall s :: hash32(s) < slots && hash16(s) < slots)
    requires Permitted(Start(memE[..], memD[..]), events)
    modifies memE, memD, packet
    ensures |results| == |packets| <= |events|
    ensures var w := Replay(old(Start(memE[..], memD[..])), events[..|results|]);
      memE[..] == w.memE && memD[..] == w.memD && dec.out == w.sent
    ensures forall k :: 0 <= k < |results| ==>
      Replay(old(Start(memE[..], memD[..])), events[..k]).Returns(events[k], packets[k], results[k])
    ensures |results| < |events| ==>
      var e := events[|results|]; e.Send? && packet.Length < FC.CompressBound(e.n)
    ensures |results| == |events| ==>
      Mirrors(Replay(old(Start(memE[..], memD[..])), events), enc, dec, memE, memD)
  {
    hide Mirrors, Separate, FC.CompressBound, World.After, World.Returns, World.Allows, Replay, Permitted,
      FS.Stream.Streaming;
    enc := new FS.Stream(slots, hash32, hash16);
    dec := new StreamDecode();
    ghost var w0 := Start(memE[..], memD[..]);
    Fresh(enc, dec, memE, memD, packet);
    ReplayNone(w0, events);
    results, packets := [], [];
    ghost var w := w0;
    while |results| < |events|
      invariant |results| == |packets| <= |events| && fresh(enc) && fresh(enc.table) && fresh(dec)
      invariant w == Replay(w0, events[..|results|])
      invariant Mirrors(w, enc, dec, memE, memD) && Separate(enc, memE, memD, packet)
      invariant forall k :: 0 <= k < |results| ==>
        Replay(w0, events[..k]).Returns(events[k], packets[k], results[k])
      decreases |events| - |results|
    {
      var e := events[|results|];
      ReplayOneMore(w0, events, |results|);
      var ok, result, sent := Step(enc, dec, memE, memD, packet, e, acceleration, w);
      if !ok {
        return;
      }
      w := w.After(e);
      results, packets := results + [result], packets + [sent];
    }
    Seen(w, enc, dec, memE, memD);
    assert events[..|events|] == events;
  }

  lemma Seen(w: World, enc: FS.Stream, dec: StreamDecode, memE: array<byte>, memD: array<byte>)
    requires Mirrors(w, enc, dec, memE, memD)
    ensures memE[..] == w.memE && memD[..] == w.memD && dec.out == w.sent
  {}

  lemma Fresh(enc: FS.Stream, dec: StreamDecode, memE: array<byte>, memD: array<byte>, packet: array<byte>)
    requires enc.Streaming() && enc.dictSize == 0 && enc.hist == [] && dec.Segs() == NoSegments() && dec.out == []
    requires memE != packet && memD != packet && memD != memE
    requires enc.table != memE as object && enc.table != packet as object && enc.table != memD as object
    ensures Mirrors(Start(memE[..], memD[..]), enc, dec, memE, memD) && Separate(enc, memE, memD, packet)
  {}
}
