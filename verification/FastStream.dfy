/**
 LZ4_stream_t: the compressor's state across calls. Addresses are indices of one memory
 array; history is named by table indices that are moved forward, skipped over or
 renormalised, but never by a copy of the bytes.
 */
module FastStream {
  import opened Bytes
  import opened BlockFormat
  import opened FastCompressor
  import opened FastParse
  import opened MemCopy
  import opened History

  const MAX_INPUT_SIZE := 0x7E000000
  const LZ4_64KLIMIT := KB64 + MFLIMIT - 1
  const NULL := -1
  const INT_MAX := 0x7FFF_FFFF

  datatype TableState = ClearedTable | Used(tableType: TableType)

  function ClampAcceleration(acceleration: int): (a: nat)
    ensures 1 <= a <= 65537
  {
    if acceleration < 1 then 1 else if acceleration > 65537 then 65537 else acceleration
  }

  class Stream {
    const slots: nat
    const hash32: seq<byte> -> nat
    const hash16: seq<byte> -> nat
    const table: array<int>
    var currentOffset: nat
    var tableState: TableState
    var dictionary: int
    var dictSize: nat

    /** Everything given to the stream since its history was last cleared. */
    ghost var hist: seq<byte>

    /** The table may hold leftovers of any earlier call, but no index close to or beyond the
        current offset; it is all zero when cleared. */
    ghost predicate Valid()
      reads `currentOffset, `tableState, table
    {
      && table.Length == slots
      && (forall s :: hash32(s) < slots && hash16(s) < slots)
      && currentOffset <= 0x8000_0000
      && (forall h :: 0 <= h < slots ==> table[h] == 0 || 0 <= table[h] <= currentOffset - MFLIMIT)
      && (tableState == ClearedTable ==> currentOffset == 0)
      && (tableState == Used(ByU16) ==> currentOffset < LZ4_64KLIMIT)
    }

    /** The state between LZ4_compress_fast_continue calls. */
    ghost predicate Streaming()
      reads this, table
    {
      Valid() && tableState != Used(ByU16) && dictSize <= currentOffset && dictSize <= |hist|
      && (dictSize > 0 ==> dictionary >= 0)
    }

    /** A state of the right size, whatever it holds. */
    ghost predicate Shaped()
      reads this
    {
      table.Length == slots && forall s :: hash32(s) < slots && hash16(s) < slots
    }

    constructor (slots: nat, hash32: seq<byte> -> nat, hash16: seq<byte> -> nat)
      requires forall s :: hash32(s) < slots && hash16(s) < slots
      ensures Streaming() && fresh(table) && hist == [] && tableState == ClearedTable && dictSize == 0
      ensures this.slots == slots && this.hash32 == hash32 && this.hash16 == hash16
    {
      this.slots, this.hash32, this.hash16 := slots, hash32, hash16;
      table := new int[slots](_ => 0);
      currentOffset, tableState := 0, ClearedTable;
      dictionary, dictSize := NULL, 0;
      hist := [];
    }

    /** LZ4_initStream: clears the state, whatever it held. */
    method Init()
      requires Shaped()
      modifies this, table
      ensures Streaming() && hist == [] && tableState == ClearedTable && dictSize == 0
    {
      forall i | 0 <= i < slots {
        table[i] := 0;
      }
      currentOffset, tableState := 0, ClearedTable;
      dictionary, dictSize := NULL, 0;
      hist := [];
    }

    /** LZ4_prepareTable: decides whether leftovers are harmless or must be wiped. */
    method PrepareTable(inputSize: nat, tableType: TableType)
      requires Valid() && (tableType == ByU16 ==> inputSize < LZ4_64KLIMIT)
      modifies this, table
      ensures Valid() && dictSize == 0 && dictionary == NULL && hist == []
      ensures tableState == ClearedTable || tableState == Used(tableType)
      ensures tableType == ByU16 ==> currentOffset == 0 || currentOffset + inputSize < 0xFFFF
      ensures tableType == ByU32 ==>
        currentOffset == 0
        || (currentOffset <= GB + KB64 && forall h :: 0 <= h < slots ==> table[h] + DISTANCE_MAX < currentOffset)
      ensures tableType == ByU32 && inputSize >= 4096 ==> currentOffset == 0
    {
      if tableState != ClearedTable {
        if tableState != Used(tableType)
          || (tableType == ByU16 && currentOffset + inputSize >= 0xFFFF)
          || (tableType == ByU32 && currentOffset > GB)
          || inputSize >= 4096
        {
          for i := 0 to slots
            invariant table.Length == slots && forall h :: 0 <= h < i ==> table[h] == 0
          {
            table[i] := 0;
          }
          currentOffset, tableState := 0, ClearedTable;
        }
      }
      if currentOffset != 0 && tableType == ByU32 {
        currentOffset := currentOffset + KB64;
      }
      dictionary, dictSize := NULL, 0;
      hist := [];
    }

    /** LZ4_resetStream_fast. */
    method ResetFast()
      requires Valid()
      modifies this, table
      ensures Streaming() && hist == [] && dictSize == 0
    {
      PrepareTable(0, ByU32);
    }

    /** LZ4_compress_generic on `data`, whose first `ds` bytes are the dictionary. */
    method CompressGeneric(data: seq<byte>, ds: nat, dst: array<byte>, o: Output, tableType: TableType,
                           dict: DictDirective, dictSmall: bool, acceleration: nat)
      returns (result: nat)
      requires dst != table as object
      requires ds <= |data| && acceleration >= 1 && o.directive != FillOutput
      requires Valid() && (tableState == ClearedTable || tableState == Used(tableType))
      requires o.directive == NotLimited && |data| - ds <= MAX_INPUT_SIZE ==> CompressBound(|data| - ds) <= o.olimit
      requires o.olimit <= dst.Length
      requires Accepts(data, ds, tableType, dict, dictSmall)
      modifies this, table, dst
      ensures Valid()
      ensures hist == old(hist) && dictionary == old(dictionary)
      ensures |data| - ds > MAX_INPUT_SIZE ==> result == 0
      ensures |data| - ds <= MAX_INPUT_SIZE ==>
        && dictSize == old(dictSize) + (|data| - ds) && currentOffset == old(currentOffset) + (|data| - ds)
        && (tableState == Used(tableType) || tableState == old(tableState))
      ensures result > 0 ==>
        && result <= o.olimit && result <= CompressBound(|data| - ds)
        && Decode(dst[..result], 0, data[..ds]) == Decoded(data, true)
      ensures |data| == ds ==> (result > 0 <==> 1 <= o.olimit) && (result > 0 ==> dst[..result] == [0])
      ensures |data| - ds <= MAX_INPUT_SIZE && (o.directive == NotLimited || CompressBound(|data| - ds) <= o.olimit) ==>
        result > 0
      ensures 0 < |data| - ds <= MAX_INPUT_SIZE ==>
        var block := old(Block(data, ds, tableType, dict, dictSmall, acceleration));
        && (o.directive == LimitedOutput ==> (result > 0 <==> |block| <= o.olimit))
        && (result > 0 ==> dst[..result] == block)
      ensures SameOutside(old(dst[..]), dst[..], 0, o.olimit)
    {
      hide Decode, CompressBound, Parse, Written, Sound;
      BoundPositive(|data| - ds);
      var n := |data| - ds;
      if n > MAX_INPUT_SIZE {
        return 0;
      }
      if n == 0 {
        if o.directive != NotLimited && o.olimit == 0 {
          return 0;
        }
        dst[0] := 0;
        assert data[..ds] == data;
        EmptyBlock(dst[..1], data);
        return 1;
      }
      var inp := Input(data, ds, currentOffset, tableType, dict, dictSmall,
                       if tableType == ByU16 then hash16 else hash32, slots);
      ghost var consumed;
      dictSize, currentOffset, tableState := dictSize + n, currentOffset + n, Used(tableType);
      result, consumed := CompressValidated(inp, o, table, dst, acceleration);
      assert inp.data[..ds + n] == data;
    }

    /** The block LZ4_compress_generic writes, from what the table holds. */
    ghost function Block(data: seq<byte>, ds: nat, tableType: TableType, dict: DictDirective, dictSmall: bool,
                         acceleration: nat): seq<byte>
      requires ds < |data| <= ds + MAX_INPUT_SIZE && acceleration >= 1
      requires Valid() && Accepts(data, ds, tableType, dict, dictSmall)
      reads this, table
    {
      var inp := Input(data, ds, currentOffset, tableType, dict, dictSmall,
                       if tableType == ByU16 then hash16 else hash32, slots);
      Written(inp, Parse(inp, table[..], acceleration))
    }

    lemma BlockOfEqualBytes(src: seq<byte>, tableType: TableType, dictSmall: bool, acceleration: nat)
      requires acceleration >= 1 && Valid() && Accepts(src, 0, tableType, NoDict, dictSmall)
      ensures MIN_LENGTH <= |src| <= MAX_INPUT_SIZE && AllEqual(src) ==>
        |Block(src, 0, tableType, NoDict, dictSmall, acceleration)| == EqualSize(|src|) <= CompressBound(|src|)
    {
      hide Parse, Written, AllEqual, Sound;
      if MIN_LENGTH <= |src| <= MAX_INPUT_SIZE && AllEqual(src) {
        EqualBytes(Input(src, 0, currentOffset, tableType, NoDict, dictSmall,
                         if tableType == ByU16 then hash16 else hash32, slots), table[..], acceleration);
      }
    }

    /** What the caller has to know so that the table's leftovers cannot be misread. */
    ghost predicate Accepts(data: seq<byte>, ds: nat, tableType: TableType, dict: DictDirective, dictSmall: bool)
      requires ds <= |data|
      reads this, table
    {
      && (dict == NoDict ==> ds == 0)
      && (dict != NoDict ==> tableType == ByU32)
      && (dictSmall ==> ds <= currentOffset)
      && (tableType == ByU16 ==> currentOffset + (|data| - ds) < LZ4_64KLIMIT)
      && (|data| - ds <= MAX_INPUT_SIZE ==> currentOffset + (|data| - ds) <= 0x8000_0000)
      && (!dictSmall ==>
           currentOffset <= ds
           || (tableType == ByU32
               && (ds >= KB64 || forall h :: 0 <= h < table.Length ==> table[h] + DISTANCE_MAX < currentOffset)))
      && (dict == UsingExtDict && |data| > ds ==> ds == 0 || currentOffset >= MINMATCH)
    }

    /** LZ4_compress_fast_extState_fastReset: one-shot blocks on a reused, not cleared, state. */
    method CompressFastReset(src: seq<byte>, dst: array<byte>, dstCapacity: nat, acceleration: int)
      returns (result: nat)
      requires Valid() && dst != table as object && dstCapacity <= dst.Length
      modifies this, table, dst
      ensures Valid()
      ensures result > 0 ==>
        result <= dstCapacity && result <= CompressBound(|src|) && Decode(dst[..result], 0, []) == Decoded(src, true)
      ensures CompressBound(|src|) <= dstCapacity && |src| <= MAX_INPUT_SIZE ==> result > 0
      ensures MIN_LENGTH <= |src| <= MAX_INPUT_SIZE && AllEqual(src) ==>
        result == if EqualSize(|src|) <= dstCapacity then EqualSize(|src|) else 0
      ensures SameOutside(old(dst[..]), dst[..], 0, dstCapacity)
    {
      hide Decode, AllEqual, Stream.Block;
      var a := ClampAcceleration(acceleration);
      var o := Output(if dstCapacity >= BoundOrZero(|src|) then NotLimited else LimitedOutput, dstCapacity);
      assert src[..0] == [];
      if |src| < LZ4_64KLIMIT {
        PrepareTable(|src|, ByU16);
        BlockOfEqualBytes(src, ByU16, currentOffset != 0, a);
        result := CompressGeneric(src, 0, dst, o, ByU16, NoDict, currentOffset != 0, a);
      } else {
        PrepareTable(|src|, ByU32);
        BlockOfEqualBytes(src, ByU32, false, a);
        result := CompressGeneric(src, 0, dst, o, ByU32, NoDict, false, a);
      }
    }

    // --- Streaming ---

    function DictEnd(): int
      reads this
    {
      if dictSize > 0 then dictionary + dictSize else NULL
    }

    /** LZ4_renormDictT: moves all indices down so that 64 KB of history stay addressable. */
    method Renorm(nextSize: nat)
      requires Streaming() && nextSize <= INT_MAX
      modifies this, table
      ensures Streaming() && hist == old(hist) && DictEnd() == old(DictEnd())
      ensures nextSize <= MAX_INPUT_SIZE ==> currentOffset + nextSize <= 0x8000_0000
      ensures dictSize == Renormed(old(currentOffset), nextSize, old(dictSize))
      ensures currentOffset == OffsetFor(old(currentOffset), nextSize)
      ensures table[..] == TableFor(old(table[..]), old(currentOffset), nextSize)
    {
      if currentOffset + nextSize > 0x8000_0000 {
        var delta := (currentOffset - KB64) % 0x1_0000_0000;
        var dictEnd := dictionary + dictSize;
        for i := 0 to slots
          modifies table
          invariant forall h :: i <= h < slots ==> table[h] == old(table[h])
          invariant forall h :: 0 <= h < i ==> table[h] == if old(table[h]) < delta then 0 else old(table[h]) - delta
          invariant forall h :: 0 <= h < i ==> 0 <= table[h] && (table[h] == 0 || table[h] + MFLIMIT <= KB64)
        {
          if table[i] < delta {
            table[i] := 0;
          } else {
            table[i] := table[i] - delta;
          }
        }
        currentOffset := KB64;
        if dictSize > KB64 {
          dictSize := KB64;
        }
        dictionary := dictEnd - dictSize;
      }
    }

    /** How much of the history a call keeps: less after renormalisation, none of a tiny one,
        and only what the new source does not overwrite. */
    ghost function Kept(source: nat, n: nat): (k: nat)
      reads this
      ensures k <= dictSize
    {
      var ds := Renormed(currentOffset, n, dictSize);
      if ds < 4 && DictEnd() != source && n > 0 then 0
      else if ds > 0 && DictEnd() - ds < source + n < DictEnd() then
        var left := Min(DictEnd() - (source + n), KB64);
        if left < 4 then 0 else left
      else ds
    }

    /** The `k` bytes of memory before `end` are the last ones of the history. */
    ghost predicate Intact(mem: array<byte>, end: int, k: nat)
      reads `hist, mem
    {
      k <= |hist| && (k > 0 ==> k <= end <= mem.Length && mem[end - k..end] == Last(hist, k))
    }

    /** Of the last `k` bytes of the history, those that can still be referred to are in memory. */
    ghost predicate Recent(mem: array<byte>, k: nat)
      reads this, mem
    {
      (k > 0 ==> k <= DictEnd() <= mem.Length) && Intact(mem, DictEnd(), Min(k, KB64))
    }

    lemma IntactLess(mem: array<byte>, end: int, k: nat, k': nat)
      requires Intact(mem, end, k) && k' <= k
      ensures Intact(mem, end, k')
    {
      if k' > 0 {
        assert mem[end - k'..end] == mem[end - k..end][k - k'..];
        assert Last(hist, k') == Last(hist, k)[k - k'..];
      }
    }

    lemma IntactRecent(mem: array<byte>, k: nat)
      requires Intact(mem, DictEnd(), dictSize) && k <= dictSize
      ensures Recent(mem, k) && Intact(mem, DictEnd(), k)
    {
      hide Last;
      IntactLess(mem, DictEnd(), dictSize, k);
      IntactLess(mem, DictEnd(), dictSize, Min(k, KB64));
    }

    /** LZ4_compress_fast_continue. */
    method CompressFastContinue(mem: array<byte>, source: nat, inputSize: nat, dst: array<byte>, maxOutputSize: nat,
                                acceleration: int)
      returns (result: nat)
      requires Streaming() && mem != dst && table != mem as object && table != dst as object
      requires source + inputSize <= mem.Length && maxOutputSize <= dst.Length && inputSize <= INT_MAX
      requires Recent(mem, Kept(source, inputSize))
      modifies this, table, dst
      ensures inputSize <= MAX_INPUT_SIZE ==>
        && Streaming() && hist == old(hist) + mem[source..source + inputSize]
        && dictSize == inputSize + (if old(DictEnd()) == source then old(Kept(source, inputSize)) else 0)
        && (dictSize > 0 ==> DictEnd() == source + inputSize) && Recent(mem, dictSize)
        && (old(Intact(mem, DictEnd(), Kept(source, inputSize))) ==> Intact(mem, source + inputSize, dictSize))
      ensures result > 0 ==>
        && result <= maxOutputSize && result <= CompressBound(inputSize)
        && var d := old(Last(hist, Min(Kept(source, inputSize), KB64)));
           Decode(dst[..result], 0, d) == Decoded(d + mem[source..source + inputSize], true)
      ensures result > 0 && inputSize == 0 ==> dst[..result] == [0]
      ensures CompressBound(inputSize) <= maxOutputSize && inputSize <= MAX_INPUT_SIZE ==> result > 0
      ensures 0 < inputSize <= MAX_INPUT_SIZE ==>
        var b := old(NextBlock(mem, source, inputSize, acceleration));
        (result > 0 <==> |b| <= maxOutputSize) && (result > 0 ==> dst[..result] == b)
    {
      hide Decode, Kept, Last, Recent, Intact, EndsWith, CompressBound, BlockBehind, TableFor;
      RecentBounds(mem, Kept(source, inputSize));
      ghost var h0, all := hist, Intact(mem, DictEnd(), Kept(source, inputSize));
      var prefix := SelectHistory(source, inputSize);
      var d := if dictSize > 0 then mem[dictionary..dictionary + dictSize] else [];
      RecentEnd(mem, d, old(DictEnd()), dictSize);
      var block := mem[source..source + inputSize];
      result := CompressBehind(d, block, prefix, source, dst, maxOutputSize, ClampAcceleration(acceleration));
      if result > 0 {
        BehindRecent(dst[..result], d, block);
      }
      if inputSize <= MAX_INPUT_SIZE {
        StillRecent(mem, h0, d, source, inputSize, all);
      }
    }

    /** The block of a call: the parse of the source behind the history that is kept, from the table as it is. */
    ghost function NextBlock(mem: array<byte>, source: nat, n: nat, acceleration: int): seq<byte>
      requires Streaming() && 0 < n <= MAX_INPUT_SIZE && source + n <= mem.Length
      requires Recent(mem, Kept(source, n))
      reads this, mem, table
    {
      hide Recent, Intact;
      var k := Kept(source, n);
      KeptBounds(mem, source, n);
      BlockBehind(if k > 0 then mem[DictEnd() - k..DictEnd()] else [], mem[source..source + n],
                  DictEnd() == source || Renormed(currentOffset, n, dictSize) < 4, OffsetFor(currentOffset, n),
                  TableFor(table[..], currentOffset, n), hash32, ClampAcceleration(acceleration))
    }

    lemma KeptBounds(mem: array<byte>, source: nat, n: nat)
      requires Streaming() && Recent(mem, Kept(source, n)) && n <= MAX_INPUT_SIZE
      ensures var k := Kept(source, n);
        (k > 0 ==> k <= DictEnd() <= mem.Length) && k <= OffsetFor(currentOffset, n)
        && OffsetFor(currentOffset, n) + n <= 0x8000_0000 && forall s :: hash32(s) < |table[..]|
    {}

    lemma RecentBounds(mem: array<byte>, k: nat)
      requires Recent(mem, k)
      ensures Intact(mem, DictEnd(), Min(k, KB64)) && Min(k, KB64) <= |hist|
      ensures k > 0 ==> k <= DictEnd() <= mem.Length
    {}

    /** The dictionary in memory, of `k` bytes before `end`, ends as the history does. */
    lemma RecentEnd(mem: array<byte>, d: seq<byte>, end: int, k: nat)
      requires k > 0 ==> k <= end <= mem.Length && d == mem[end - k..end]
      requires |d| == k && Intact(mem, end, Min(k, KB64))
      ensures Last(d, Min(k, KB64)) == Last(hist, Min(k, KB64))
      ensures Intact(mem, end, k) ==> EndsWith(hist, d)
    {
      if k > 0 {
        SliceEnd(mem[..], end, d, Min(k, KB64));
      }
    }

    /** After a call the dictionary still is the end of the history. */
    lemma StillRecent(mem: array<byte>, h0: seq<byte>, d: seq<byte>, source: nat, n: nat, all: bool)
      requires source + n <= mem.Length && hist == h0 + mem[source..source + n]
      requires dictSize == n || (dictSize == n + |d| && |d| <= source && mem[source - |d|..source] == d)
      requires dictSize > 0 ==> dictionary == source + n - dictSize
      requires Min(|d|, KB64) <= |h0| && Last(d, Min(|d|, KB64)) == Last(h0, Min(|d|, KB64))
      requires all ==> EndsWith(h0, d)
      ensures (dictSize > 0 ==> DictEnd() == source + n) && Recent(mem, dictSize)
      ensures all ==> Intact(mem, source + n, dictSize)
    {
      hide Last, EndsWith;
      var h := Min(|d|, KB64);
      EndsWithLast(h0, h);
      if dictSize > n {
        assert mem[source - h..source] == Last(d, h) by { SliceEnd(mem[..], source, d, h); }
      }
      HistoryGrows(h0, Last(d, h), mem[..], source, n, Min(dictSize, KB64));
      if all {
        HistoryGrows(h0, d, mem[..], source, n, dictSize);
      }
    }

    /** Compresses `block` behind the selected history `d`; afterwards the block, together with a
        history that directly precedes it, is the new dictionary. */
    method CompressBehind(d: seq<byte>, block: seq<byte>, prefix: bool, source: nat, dst: array<byte>,
                          maxOutputSize: nat, acceleration: nat)
      returns (result: nat)
      requires Streaming() && table != dst as object && maxOutputSize <= dst.Length && acceleration >= 1
      requires tableState == ClearedTable || tableState == Used(ByU32)
      requires |d| == dictSize && (prefix ==> dictionary + dictSize == source)
      requires |block| <= MAX_INPUT_SIZE ==> currentOffset + |block| <= 0x8000_0000
      requires !prefix && block != [] ==> dictSize == 0 || dictSize >= 4
      modifies this, table, dst
      ensures |block| <= MAX_INPUT_SIZE ==>
        && Streaming() && hist == old(hist) + block
        && dictSize == (if prefix then |d| else 0) + |block| && dictionary == source + |block| - dictSize
      ensures result > 0 ==>
        && result <= maxOutputSize && result <= CompressBound(|block|)
        && Decode(dst[..result], 0, d) == Decoded(d + block, true)
      ensures result > 0 && block == [] ==> dst[..result] == [0]
      ensures CompressBound(|block|) <= maxOutputSize && |block| <= MAX_INPUT_SIZE ==> result > 0
      ensures 0 < |block| <= MAX_INPUT_SIZE ==>
        var b := BlockBehind(d, block, prefix, old(currentOffset), old(table[..]), hash32, acceleration);
        (result > 0 <==> |b| <= maxOutputSize) && (result > 0 ==> dst[..result] == b)
    {
      hide Decode, CompressBound, Parse, Written, Sound;
      var o := Output(LimitedOutput, maxOutputSize);
      var small := dictSize < KB64 && dictSize < currentOffset;
      assert (d + block)[..dictSize] == d;
      if prefix {
        result := CompressGeneric(d + block, dictSize, dst, o, ByU32, WithPrefix64k, small, acceleration);
      } else {
        result := CompressGeneric(d + block, dictSize, dst, o, ByU32, UsingExtDict, small, acceleration);
        dictionary, dictSize := source, |block|;
      }
      hist := hist + block;
    }

    /** LZ4_saveDict: moves the end of the history to a safer place, which may overlap the old one. */
    method SaveDict(mem: array<byte>, safeBuffer: nat, size: nat) returns (saved: nat)
      requires Streaming() && table != mem as object
      requires var k := Min(Min(size, KB64), dictSize); Intact(mem, DictEnd(), k) && safeBuffer + k <= mem.Length
      modifies this, mem
      ensures saved == old(Min(Min(size, KB64), dictSize))
      ensures Streaming() && hist == old(hist) && dictSize == saved && dictionary == safeBuffer
      ensures Intact(mem, safeBuffer + saved, saved)
      ensures SameOutside(old(mem[..]), mem[..], safeBuffer, safeBuffer + saved)
    {
      hide Last, Valid;
      saved := if size > KB64 then KB64 else size;
      if saved > dictSize {
        saved := dictSize;
      }
      if saved > 0 {
        var from := dictionary + dictSize - saved;
        CopyPiece(mem, safeBuffer, mem[from..from + saved]);
        assert mem[safeBuffer..safeBuffer + saved] == mem[..][safeBuffer..safeBuffer + saved];
      }
      dictionary, dictSize := safeBuffer, saved;
    }

    /** The opening of LZ4_compress_fast_continue: what history this call may refer to, and
        whether the source directly follows it in memory. */
    method SelectHistory(source: nat, inputSize: nat) returns (prefix: bool)
      requires Streaming() && inputSize <= INT_MAX
      modifies this, table
      ensures Streaming() && hist == old(hist) && dictSize == old(Kept(source, inputSize))
      ensures inputSize <= MAX_INPUT_SIZE ==> currentOffset + inputSize <= 0x8000_0000
      ensures tableState == ClearedTable || tableState == Used(ByU32)
      ensures dictSize > 0 ==> dictionary + dictSize == old(DictEnd())
      ensures prefix ==> dictionary + dictSize == source
      ensures prefix
        <==> old(DictEnd()) == source || (old(Renormed(currentOffset, inputSize, dictSize)) < 4 && inputSize > 0)
      ensures !prefix && inputSize > 0 ==> dictSize == 0 || dictSize >= 4
      ensures currentOffset == OffsetFor(old(currentOffset), inputSize)
      ensures table[..] == TableFor(old(table[..]), old(currentOffset), inputSize)
    {
      var dictEnd := if dictSize > 0 then dictionary + dictSize else NULL;
      Renorm(inputSize);
      assert tableState.Used? ==> tableState.tableType == ByU32;
      if dictSize < 4 && dictEnd != source && inputSize > 0 {
        dictSize, dictionary, dictEnd := 0, source, source;
      }
      var sourceEnd := source + inputSize;
      if sourceEnd > dictionary && sourceEnd < dictEnd {
        dictSize := Min(dictEnd - sourceEnd, KB64);
        if dictSize < 4 {
          dictSize := 0;
        }
        dictionary := dictEnd - dictSize;
      }
      prefix := dictEnd == source;
    }
  }

  lemma SliceEnd(m: seq<byte>, end: nat, d: seq<byte>, h: nat)
    requires h <= |d| <= end <= |m| && m[end - |d|..end] == d
    ensures m[end - h..end] == Last(d, h)
  {}

  lemma BehindRecent(src: seq<byte>, d: seq<byte>, block: seq<byte>)
    requires Decode(src, 0, d) == Decoded(d + block, true)
    ensures var l := Last(d, Min(|d|, KB64)); Decode(src, 0, l) == Decoded(l + block, true)
  {
    hide Decode;
    if |d| <= KB64 {
      assert Last(d, |d|) == d;
    } else {
      LessHistory(src, d, KB64, block);
    }
  }

  /** After a call the dictionary still is the end of the history. */
  lemma HistoryGrows(h: seq<byte>, d: seq<byte>, mem: seq<byte>, source: nat, n: nat, k: nat)
    requires EndsWith(h, d) && source + n <= |mem| && k <= |d| + n
    requires k > n ==> |d| <= source && mem[source - |d|..source] == d
    ensures k <= |h| + n && (k > 0 ==> k <= source + n)
    ensures mem[source + n - k..source + n] == Last(h + mem[source..source + n], k)
  {
    hide Last;
    var b := mem[source..source + n];
    if k > n {
      SliceEnd(mem, source, d, k - n);
      LastOfLast(h, |d|, k - n);
      LastGrows(mem, source, n, k - n, h);
    } else {
      SliceEnd(mem, source + n, b, k);
      LastInside(h, b, k);
    }
  }

  /** The block written for `block` behind the history `d`, which directly precedes it or not. */
  ghost function BlockBehind(d: seq<byte>, block: seq<byte>, prefix: bool, offset: nat, t: seq<int>,
                             hash: seq<byte> -> nat, acceleration: nat): seq<byte>
    requires block != [] && |d| <= offset && offset + |block| <= 0x8000_0000 && acceleration >= 1
    requires forall s :: hash(s) < |t|
  {
    var inp := Input(d + block, |d|, offset, ByU32, if prefix then WithPrefix64k else UsingExtDict,
                     |d| < KB64 && |d| < offset, hash, |t|);
    Written(inp, Parse(inp, t, acceleration))
  }

  /** The offset, and the table, of a call for `n` bytes: moved down where indices would get too large. */
  function OffsetFor(currentOffset: nat, n: nat): nat {
    if currentOffset + n > 0x8000_0000 then KB64 else currentOffset
  }

  ghost function TableFor(t: seq<int>, currentOffset: nat, n: nat): (r: seq<int>)
    ensures |r| == |t|
  {
    if currentOffset + n > 0x8000_0000 then
      var delta := (currentOffset - KB64) % 0x1_0000_0000;
      seq(|t|, h requires 0 <= h < |t| => if t[h] < delta then 0 else t[h] - delta)
    else t
  }

  function Renormed(currentOffset: nat, nextSize: nat, dictSize: nat): nat {
    if currentOffset + nextSize > 0x8000_0000 then Min(dictSize, KB64) else dictSize
  }

  lemma BoundPositive(n: nat)
    ensures CompressBound(n) >= 16
  {}

  /** LZ4_COMPRESSBOUND, which is 0 for unsupported sizes. */
  function BoundOrZero(n: nat): nat {
    if n > MAX_INPUT_SIZE then 0 else CompressBound(n)
  }
}
