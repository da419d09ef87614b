/** The one-shot functions of the high-compression encoder, and their round trips. */
module HcApi {
  import opened Bytes
  import opened BlockFormat
  import opened BlockEncoding
  import opened MemCopy
  import opened HcMatchFinder
  import opened HcWriter
  import opened HcParsing
  import FC = FastCompressor
  import FP = FastParse
  import FS = FastStream
  import BlockApi
  import opened HcMidParser
  import Lazy = HcLazyParser
  import Optimal = HcOptimalParser

  datatype Strategy = Mid | HashChain | Opt

  /** The position hashes, whatever they are. */
  datatype Hashes = Hashes(slots: nat, hash: seq<byte> -> nat, hash4: seq<byte> -> nat, hash8: seq<byte> -> nat)
  {
    ghost predicate Valid() {
      forall s :: hash(s) < slots && hash4(s) < slots && hash8(s) < slots
    }
  }

  datatype Params = Params(strategy: Strategy, nbSearches: nat, targetLength: nat)

  const CLEVEL_DEFAULT := 9
  const CLEVEL_MAX := 12

  /** LZ4HC_getCLevelParams. */
  function LevelParams(cLevel: int): Params {
    var level := Min(CLEVEL_MAX, if cLevel < 1 then CLEVEL_DEFAULT else cLevel);
    if level <= 2 then Params(Mid, 2, 16)
    else if level == 3 then Params(HashChain, 4, 16)
    else if level == 4 then Params(HashChain, 8, 16)
    else if level == 5 then Params(HashChain, 16, 16)
    else if level == 6 then Params(HashChain, 32, 16)
    else if level == 7 then Params(HashChain, 64, 16)
    else if level == 8 then Params(HashChain, 128, 16)
    else if level == 9 then Params(HashChain, 256, 16)
    else if level == 10 then Params(Opt, 96, 64)
    else if level == 11 then Params(Opt, 512, 128)
    else Params(Opt, 16384, Optimal.OPT_NUM)
  }

  /** The tables of a context, ready for the block behind `data[..ds]`: chains, or the two tables of levels 1 and 2. */
  ghost predicate Ready(f: Finder, mid: MidTables, w: Window, ds: nat, cLevel: int)
    reads f, f.hashTable, f.chainTable, mid, mid.table4, mid.table8
  {
    && w.Valid() && w.dl <= ds <= |w.data|
    && (if LevelParams(cLevel).strategy == Mid then mid.Valid(w.low + ds)
        else f.Valid(w) && f.nextToUpdate <= w.low + ds)
  }

  /** The levels that write a run of equal bytes as one match: all but the optimal ones, which do so for long runs. */
  predicate TakesRuns(cLevel: int, n: nat) {
    LevelParams(cLevel).strategy == Opt ==> n - 6 > Min(LevelParams(cLevel).targetLength, Optimal.OPT_NUM - 1)
  }

  /** LZ4HC_compress_generic_internal without an attached dictionary; `data[..ds]` is the history. */
  method CompressGeneric(f: Finder, mid: MidTables, w: Window, ds: nat, dst: array<byte>, capacity: nat, cLevel: int,
                         directive: FC.OutputDirective, favorDecSpeed: bool)
    returns (result: nat, consumed: nat)
    requires ds <= |w.data| && capacity <= dst.Length
    requires |w.data| - ds <= FS.MAX_INPUT_SIZE && capacity >= 1 ==> Ready(f, mid, w, ds, cLevel)
    requires directive == FC.NotLimited && |w.data| - ds <= FS.MAX_INPUT_SIZE ==>
      FC.CompressBound(|w.data| - ds) <= capacity
    modifies f, f.hashTable, f.chainTable, mid.table4, mid.table8, dst
    ensures |w.data| - ds <= FS.MAX_INPUT_SIZE && capacity >= 1 ==>
      if LevelParams(cLevel).strategy == Mid then mid.Valid(w.low + |w.data|) else f.Valid(w)
    ensures result > 0 ==>
      && result <= capacity && result <= FC.CompressBound(|w.data| - ds) && consumed <= |w.data| - ds
      && (directive != FC.FillOutput ==> consumed == |w.data| - ds)
      && Decode(dst[..result], 0, w.data[..ds]) == Decoded(w.data[..ds + consumed], true)
      && (consumed == 0 && ds == 0 ==> dst[..result] == [0])
      && (consumed < |w.data| - ds ==> FC.UsedUp(capacity, result, consumed))
    ensures |w.data| - ds > FS.MAX_INPUT_SIZE || capacity < 1 ==> result == 0
    ensures result == 0 ==>
      || |w.data| - ds > FS.MAX_INPUT_SIZE || capacity < 1
      || (directive == FC.LimitedOutput && capacity < FC.CompressBound(|w.data| - ds))
    ensures
      var n := |w.data|;
      ds == 0 && MIN_LENGTH <= n <= FS.MAX_INPUT_SIZE && FP.AllEqual(w.data) && directive != FC.FillOutput
      && TakesRuns(cLevel, n) && !favorDecSpeed ==>
        result == if FP.EqualSize(n) <= capacity then FP.EqualSize(n) else 0
    ensures SameOutside(old(dst[..]), dst[..], 0, capacity)
  {
    hide Decode, Whole, Chosen, Genuine, FP.AllEqual;
    var n := |w.data| - ds;
    if n > FS.MAX_INPUT_SIZE || capacity < 1 {
      return 0, 0;
    }
    if n == 0 {
      dst[0] := 0;
      EmptyBlock(dst[..1], w.data[..ds]);
      return 1, 0;
    }
    var o := Out(w.data, ds, directive, capacity);
    var p := LevelParams(cLevel);
    var anchor, end;
    ghost var t, seqs := Trace([], {}), [];
    if p.strategy == Mid {
      result, anchor, end, seqs := CompressMid(o, w, mid, dst);
    } else if p.strategy == HashChain {
      result, anchor, end, t := Lazy.CompressHashChain(o, w, f, dst, p.nbSearches);
      seqs := t.seqs;
    } else {
      var fullUpdate := cLevel >= CLEVEL_MAX;
      result, anchor, end, t :=
        Optimal.CompressOptimal(o, w, f, dst, p.nbSearches, p.targetLength, fullUpdate, favorDecSpeed);
      seqs := t.seqs;
    }
    consumed := 0;
    if result > 0 {
      WholeBlock(o, dst[..result], anchor, end, seqs);
      consumed := end - ds;
    }
  }

  lemma WholeBlock(o: Out, b: seq<byte>, anchor: nat, end: nat, seqs: seq<Sequence>)
    requires Whole(o, b, anchor, end, seqs)
    ensures o.ds <= end <= |o.data| && (o.directive != FC.FillOutput ==> end == |o.data|)
    ensures |b| <= FC.CompressBound(|o.data| - o.ds) && Decode(b, 0, o.data[..o.ds]) == Decoded(o.data[..end], true)
    ensures end == o.ds ==> b == [0]
    ensures end < |o.data| ==> FC.UsedUp(o.cap, |b|, end - o.ds)
  {
    hide Decode, Covers, Encode, EncodeLast;
    if end == o.ds {
      FC.NothingConsumed(o.data, o.ds, seqs, anchor);
    }
  }

  /** LZ4_compress_HC: it fails only for a source that is too long or a destination that is too small. */
  method CompressHC(src: seq<byte>, dst: array<byte>, capacity: nat, cLevel: int, hs: Hashes)
    returns (result: nat)
    requires capacity <= dst.Length && hs.Valid()
    modifies dst
    ensures result > 0 ==>
      result <= capacity && result <= FC.CompressBound(|src|) && Decode(dst[..result], 0, []) == Decoded(src, true)
    ensures result > 0 && src == [] ==> dst[..result] == [0]
    ensures |src| <= FS.MAX_INPUT_SIZE && FC.CompressBound(|src|) <= capacity ==> result > 0
    ensures MIN_LENGTH <= |src| <= FS.MAX_INPUT_SIZE && FP.AllEqual(src) && TakesRuns(cLevel, |src|) ==>
      result == if FP.EqualSize(|src|) <= capacity then FP.EqualSize(|src|) else 0
    ensures SameOutside(old(dst[..]), dst[..], 0, capacity)
  {
    hide Decode, FP.AllEqual, TakesRuns;
    if |src| > FS.MAX_INPUT_SIZE {
      return 0;
    }
    var w := Window(src, KB64, 0);
    var f := new Finder(hs.slots, hs.hash, w);
    var mid := new MidTables(hs.slots, hs.hash4, hs.hash8);
    var directive := if capacity < FS.BoundOrZero(|src|) then FC.LimitedOutput else FC.NotLimited;
    var consumed;
    result, consumed := CompressGeneric(f, mid, w, 0, dst, capacity, cLevel, directive, false);
    assert src[..0] == [] && src[..|src|] == src;
  }

  /** LZ4_compress_HC_destSize: as much of the source as fits into `target` bytes. */
  method CompressHcDestSize(src: seq<byte>, dst: array<byte>, target: nat, cLevel: int, hs: Hashes)
    returns (result: nat, consumed: nat)
    requires target <= dst.Length && hs.Valid()
    modifies dst
    ensures result > 0 ==>
      && result <= target && consumed <= |src| && Decode(dst[..result], 0, []) == Decoded(src[..consumed], true)
      && (consumed == 0 ==> dst[..result] == [0])
      && (consumed < |src| ==> FC.UsedUp(target, result, consumed))
    ensures result > 0 <==> target >= 1 && |src| <= FS.MAX_INPUT_SIZE
    ensures SameOutside(old(dst[..]), dst[..], 0, target)
  {
    hide Decode;
    if |src| > FS.MAX_INPUT_SIZE {
      return 0, 0;
    }
    var w := Window(src, KB64, 0);
    var f := new Finder(hs.slots, hs.hash, w);
    var mid := new MidTables(hs.slots, hs.hash4, hs.hash8);
    result, consumed := CompressGeneric(f, mid, w, 0, dst, target, cLevel, FC.FillOutput, false);
    assert src[..0] == [];
  }

  /** A block of any of these levels comes back, given exactly the room it needs. */
  method RoundTrip(src: seq<byte>, packet: array<byte>, cLevel: int, hs: Hashes, dst: array<byte>)
    returns (sent: nat, result: int)
    requires hs.Valid() && dst != packet && |src| <= dst.Length
    modifies packet, dst
    ensures sent > 0 ==> result == |src| && dst[..|src|] == src
    ensures FC.CompressBound(|src|) <= packet.Length && |src| <= FS.MAX_INPUT_SIZE ==> sent > 0
  {
    hide Decode;
    sent := CompressHC(src, packet, packet.Length, cLevel, hs);
    result := 0;
    if sent > 0 {
      result := BlockApi.DecompressSafe(packet[..sent], dst, |src|);
    }
  }

  /** Whatever LZ4_compress_HC_destSize says it consumed comes back, given exactly that much room. */
  method DestSizeRoundTrip(src: seq<byte>, packet: array<byte>, cLevel: int, hs: Hashes, dst: array<byte>)
    returns (sent: nat, consumed: nat, result: int)
    requires hs.Valid() && dst != packet && |src| <= dst.Length
    modifies packet, dst
    ensures sent > 0 ==> consumed <= |src| && result == consumed && dst[..consumed] == src[..consumed]
    ensures sent > 0 && consumed < |src| ==> FC.UsedUp(packet.Length, sent, consumed)
    ensures sent > 0 <==> packet.Length >= 1 && |src| <= FS.MAX_INPUT_SIZE
  {
    hide Decode;
    sent, consumed := CompressHcDestSize(src, packet, packet.Length, cLevel, hs);
    result := 0;
    if sent > 0 {
      result := BlockApi.DecompressSafe(packet[..sent], dst, consumed);
    }
  }
}
