/**
 The streaming frame encoder at the fast levels, without a dictionary. Addresses are indices
 of one memory array that holds the caller's input and the encoder's own buffer.
 */
module FrameEncoder {
  import opened Bytes
  import opened BlockFormat
  import opened MemCopy
  import opened History
  import opened FrameFormat
  import opened FrameEncoding
  import FS = FastStream
  import FP = FastParse

  datatype Prefs = Prefs(info: FrameInfo, level: int, autoFlush: bool)

  datatype Result = Error | Written(size: nat)

  /** LZ4F_compressBound_internal. */
  function BoundInternal(srcSize: nat, p: Prefs, alreadyBuffered: nat): nat {
    var flush := p.autoFlush || srcSize == 0;
    var blockSize := p.info.MaxBlockSize();
    var maxSrcSize := srcSize + Min(alreadyBuffered, blockSize - 1);
    var full, partial := maxSrcSize / blockSize, maxSrcSize % blockSize;
    var last := if flush then partial else 0;
    (4 + p.info.CrcSize()) * (full + if last > 0 then 1 else 0) + blockSize * full + last + EndSize(p)
  }

  function EndSize(p: Prefs): nat {
    4 + if p.info.contentChecksum then 4 else 0
  }

  /** LZ4F_compressBound. */
  function Bound(srcSize: nat, p: Prefs): nat {
    BoundInternal(srcSize, p, if p.autoFlush then 0 else TWO64 - 1)
  }

  /** The preferences of a fast level; block size ID 0 stands for the default, 64 KB. */
  ghost predicate ValidPrefs(p: Prefs) {
    p.level < 2 && Completed(p.info).Valid()
  }

  function Completed(info: FrameInfo): FrameInfo {
    if info.blockSizeID == 0 then info.(blockSizeID := 4) else info
  }

  /** With autoFlush only history is kept, otherwise also the input of an incomplete block. */
  function BufferSize(p: Prefs): nat {
    if p.autoFlush then if p.info.linked then KB64 else 0
    else Completed(p.info).MaxBlockSize() + if p.info.linked then KB128 else 0
  }

  /** Block `b` for `data` behind `out`, of which the compressor made `packed`: that, or the data if it is no shorter.
      Equal bytes without history are always shortened. */
  ghost predicate Made(xxh: Hash, info: FrameInfo, out: seq<byte>, data: seq<byte>, packed: seq<byte>, b: seq<byte>) {
    var stored := packed == [] || |packed| >= |data|;
    var payload := if stored then data else packed;
    && (forall s :: xxh(s) < 0x1_0000_0000) && Holds(info, stored, payload, out, data)
    && b == BlockBytes(xxh, info, stored, payload)
    && (!info.linked && |data| >= MIN_LENGTH && FP.AllEqual(data) ==> |packed| == FP.EqualSize(|data|) < |data|)
  }

  lemma IsMade(xxh: Hash, info: FrameInfo, out: seq<byte>, data: seq<byte>, packed: seq<byte>)
    requires (forall s :: xxh(s) < 0x1_0000_0000) && 1 <= |data| <= info.MaxBlockSize() && info.Valid()
    requires packed != [] ==>
      var h := if info.linked then out else [];
      Decode(packed, 0, h) == Decoded(h + data, true)
    requires !info.linked && |data| >= MIN_LENGTH && FP.AllEqual(data) ==> |packed| == FP.EqualSize(|data|)
    ensures var stored := packed == [] || |packed| >= |data|;
      var payload := if stored then data else packed;
      && Holds(info, stored, payload, out, data) && |payload| <= |data| < UNCOMPRESSED_FLAG
      && Made(xxh, info, out, data, packed, BlockBytes(xxh, info, stored, payload))
  {
    hide Decode, BlockBytes, FP.AllEqual;
  }

  class Cctx {
    const xxh: Hash
    const mem: array<byte>
    const lz4: FS.Stream
    var started: bool
    var prefs: Prefs
    var maxBufferSize: nat
    var tmpBuff: nat
    var tmpIn: nat
    var tmpInSize: nat
    var totalInSize: nat
    // The state of the content checksum: what it has been fed.
    var hashed: seq<byte>

    /** All bytes written of the current frame, all input accepted, and how much of that is in blocks. */
    ghost var emitted: seq<byte>
    ghost var content: seq<byte>
    ghost var done: seq<byte>

    function BlockSize(): (n: nat)
      reads `prefs
      ensures n >= KB64
    {
      prefs.info.MaxBlockSize()
    }

    /** What holds at all times during a frame. */
    ghost predicate Core()
      reads `prefs, `tmpBuff, `tmpIn, `maxBufferSize, `emitted, `done, lz4, lz4.table
    {
      && (forall s :: xxh(s) < 0x1_0000_0000) && lz4.Valid() && lz4.table != mem as object
      && prefs.info.Valid() && tmpBuff <= tmpIn && tmpBuff + maxBufferSize <= mem.Length
      && (if prefs.autoFlush then prefs.info.linked ==> KB64 <= maxBufferSize
          else BlockSize() + (if prefs.info.linked then KB128 else 0) <= maxBufferSize)
      && (!prefs.info.linked ==> tmpIn == tmpBuff)
      && Reaches(xxh, prefs.info, emitted, done)
    }

    /** Linked blocks: the compressor's history is the content so far, of which the end is in memory before `end`. */
    ghost predicate Linked(end: nat)
      reads `prefs, `done, mem, lz4, lz4.table
    {
      prefs.info.linked ==>
        && lz4.Streaming() && lz4.hist == done && lz4.Intact(mem, end, lz4.dictSize)
        && (lz4.dictSize > 0 ==> lz4.DictEnd() == end)
    }

    /** The state between calls: everything needed is in the encoder's own buffer. */
    ghost predicate Running()
      reads this, mem, lz4, lz4.table
    {
      && Core() && tmpInSize < BlockSize() && (prefs.autoFlush ==> tmpInSize == 0) && tmpIn <= tmpBuff + maxBufferSize
      && (!prefs.autoFlush ==> tmpIn + BlockSize() <= tmpBuff + maxBufferSize)
      && content == done + mem[tmpIn..tmpIn + tmpInSize]
      && Linked(tmpIn) && (prefs.info.linked && lz4.dictSize > 0 ==> tmpBuff <= lz4.dictionary)
      && (prefs.info.contentChecksum ==> hashed == content)
      && (prefs.info.contentSize > 0 ==> totalInSize == |content| % TWO64)
    }

    ghost predicate Valid()
      reads this, mem, lz4, lz4.table
    {
      && (forall s :: xxh(s) < 0x1_0000_0000) && lz4.Valid() && lz4.table != mem as object
      && tmpBuff + maxBufferSize <= mem.Length && (if started then Running() else tmpInSize == 0)
    }

    constructor (xxh: Hash, mem: array<byte>, lz4: FS.Stream)
      requires (forall s :: xxh(s) < 0x1_0000_0000) && lz4.Valid() && lz4.table != mem as object
      ensures Valid() && !started && this.xxh == xxh && this.mem == mem && this.lz4 == lz4
    {
      this.xxh, this.mem, this.lz4 := xxh, mem, lz4;
      started, prefs := false, Prefs(FrameInfo(true, false, false, 0, 0, 0), 0, false);
      maxBufferSize, tmpBuff, tmpIn, tmpInSize, totalInSize, hashed := 0, 0, 0, 0, 0, [];
      emitted, content, done := [], [], [];
    }

    /** The block compressor for the block mode: it continues the history, or starts afresh. */
    method CompressBlock(packet: array<byte>, source: nat, n: nat, ghost end: nat) returns (cSize: nat)
      requires lz4.Valid() && lz4.table != mem as object && Linked(end) && 1 <= n <= 4 * 1024 * 1024
      requires source + n <= mem.Length
      requires packet != mem && packet != lz4.table as object
      modifies lz4, lz4.table, packet
      ensures lz4.Valid() && cSize <= packet.Length
      ensures cSize > 0 ==>
        var h := if prefs.info.linked then done else [];
        Decode(packet[..cSize], 0, h) == Decoded(h + mem[source..source + n], true)
      ensures !prefs.info.linked && n >= MIN_LENGTH && FP.AllEqual(mem[source..source + n]) ==>
        cSize == if FP.EqualSize(n) <= packet.Length then FP.EqualSize(n) else 0
      ensures prefs.info.linked ==>
        && lz4.Streaming() && lz4.hist == done + mem[source..source + n] && lz4.Intact(mem, source + n, lz4.dictSize)
        && (lz4.dictSize > 0 ==> lz4.DictEnd() == source + n)
        && (lz4.dictSize == n || (lz4.dictSize <= old(lz4.dictSize) + n && old(lz4.DictEnd()) == source))
    {
      hide Decode, Last, EndsWith, FP.AllEqual;
      var acceleration := if prefs.level < 0 then -prefs.level + 1 else 1;
      if prefs.info.linked {
        ghost var k, h := Min(lz4.Kept(source, n), KB64), lz4.hist;
        lz4.IntactRecent(mem, lz4.Kept(source, n));
        cSize := lz4.CompressFastContinue(mem, source, n, packet, packet.Length, acceleration);
        if cSize > 0 {
          assert EndsWith(h, Last(h, k)) by { EndsWithLast(h, k); }
          MoreHistory(packet[..cSize], h, Last(h, k), mem[source..source + n]);
        }
      } else {
        cSize := lz4.CompressFastReset(mem[source..source + n], packet, packet.Length, acceleration);
        assert [] + mem[source..source + n] == mem[source..source + n];
      }
    }

    /** The space blocks of `total` bytes may take. */
    ghost function Needed(total: nat): nat
      reads `prefs
    {
      var bs, c := BlockSize(), 4 + prefs.info.CrcSize();
      var full, rest := total / bs, total % bs;
      full * (c + bs) + if prefs.autoFlush && rest > 0 then c + rest else 0
    }

    /** After `k` full blocks, with `left` bytes of input to go, at most that much space is used. */
    ghost predicate Progress(k: nat, left: nat, total: nat, dp: nat)
      reads `prefs
    {
      k * BlockSize() + left == total && dp <= k * (4 + prefs.info.CrcSize() + BlockSize())
    }

    lemma RoomForOne(k: nat, left: nat, total: nat, dp: nat)
      requires Progress(k, left, total, dp) && left >= BlockSize()
      ensures dp + 4 + BlockSize() + prefs.info.CrcSize() <= Needed(total)
    {
      var l: nat := left - BlockSize();
      Times(k, BlockSize());
      Times(k, 4 + prefs.info.CrcSize() + BlockSize());
      Quotient(k + 1, l, total, BlockSize(), 4 + prefs.info.CrcSize() + BlockSize());
    }

    lemma OneDone(k: nat, left: nat, left': nat, total: nat, dp: nat, dp': nat)
      requires Progress(k, left, total, dp) && left == left' + BlockSize()
      requires dp' <= dp + 4 + BlockSize() + prefs.info.CrcSize()
      ensures Progress(k + 1, left', total, dp')
    {
      Times(k, BlockSize());
      Times(k, 4 + prefs.info.CrcSize() + BlockSize());
    }

    lemma Finish(k: nat, left: nat, total: nat, dp: nat)
      requires Progress(k, left, total, dp) && left < BlockSize()
      ensures dp <= Needed(total)
      ensures prefs.autoFlush && left > 0 ==> dp + 4 + left + prefs.info.CrcSize() <= Needed(total)
    {
      Quotient(k, left, total, BlockSize(), 4 + prefs.info.CrcSize() + BlockSize());
    }

    /** LZ4F_makeBlock: compresses a block, or stores it if that does not shorten it; `packed` is what the compressor
        gives, [] if nothing. */
    method MakeBlock(dst: array<byte>, dp: nat, source: nat, n: nat, ghost end: nat)
      returns (written: nat, ghost packed: seq<byte>)
      requires Core() && Linked(end) && 1 <= n <= BlockSize() && source + n <= mem.Length
      requires dp + 4 + n + prefs.info.CrcSize() <= dst.Length && dst != mem && dst != lz4.table as object
      modifies lz4, lz4.table, dst, `emitted, `done
      ensures Core() && Linked(source + n) && done == old(done) + mem[source..source + n]
      ensures written <= 4 + n + prefs.info.CrcSize() && emitted == old(emitted) + dst[dp..dp + written]
      ensures Made(xxh, prefs.info, old(done), mem[source..source + n], packed, dst[dp..dp + written])
      ensures SameOutside(old(dst[..]), dst[..], dp, dp + 4 + n + prefs.info.CrcSize())
      ensures prefs.info.linked ==>
        lz4.dictSize == n || (lz4.dictSize <= old(lz4.dictSize) + n && old(lz4.DictEnd()) == source)
    {
      hide Decode, Reaches, Last, SameOutside, BlockBytes, FS.Stream.Valid, FP.AllEqual, Made, Holds;
      ghost var data := mem[source..source + n];
      var packet := new byte[if n > 1 then n - 1 else 1];
      var cSize := CompressBlock(packet, source, n, end);
      packed := packet[..cSize];
      var stored := cSize == 0 || cSize >= n;
      var payload := if stored then mem[source..source + n] else packet[..cSize];
      IsMade(xxh, prefs.info, done, data, packed);
      ReachesBlock(xxh, prefs.info, emitted, done, stored, payload, data);
      ghost var was := dst[..];
      written := PutBlock(xxh, prefs.info, dst, dp, stored, payload);
      OutsideMore(was, dst[..], dp, dp + written, dp, dp + 4 + n + prefs.info.CrcSize());
      emitted := emitted + dst[dp..dp + written];
      done := done + data;
    }

    /** LZ4F_localSaveDict: the end of the history moves to the front of the encoder's buffer. */
    method LocalSaveDict(ghost end: nat)
      requires Core() && prefs.info.linked && Linked(end)
      modifies `tmpIn, lz4, mem
      ensures Core() && Linked(tmpIn) && tmpBuff <= tmpIn <= tmpBuff + KB64
      ensures lz4.dictSize > 0 ==> lz4.dictionary == tmpBuff
      ensures SameOutside(old(mem[..]), mem[..], tmpBuff, tmpBuff + KB64)
    {
      hide Reaches, Last, SameOutside;
      ghost var k := Min(KB64, lz4.dictSize);
      assert lz4.Intact(mem, lz4.DictEnd(), k) by { lz4.IntactLess(mem, lz4.DictEnd(), lz4.dictSize, k); }
      ghost var was := mem[..];
      var saved := lz4.SaveDict(mem, tmpBuff, KB64);
      tmpIn := tmpBuff + saved;
      OutsideMore(was, mem[..], tmpBuff, tmpBuff + saved, tmpBuff, tmpBuff + KB64);
    }

    /** Blocks straight from the caller's input: full ones, and with autoFlush also the rest. */
    method FromSource(dst: array<byte>, dp0: nat, src: nat, sp0: nat, n: nat, ghost end: nat, ghost k0: nat,
                      ghost total: nat)
      returns (dp: nat, sp: nat, any: bool)
      requires Core() && Linked(end) && sp0 <= n && src + n <= mem.Length
      requires dst != mem && dst != lz4.table as object && dp0 <= dst.Length
      requires Progress(k0, n - sp0, total, dp0) && Needed(total) <= dst.Length
      modifies lz4, lz4.table, dst, `emitted, `done
      ensures Core() && dp0 <= dp && sp0 <= sp <= n && dp <= Needed(total) <= dst.Length
      ensures done == old(done) + mem[src + sp0..src + sp] && emitted == old(emitted) + dst[dp0..dp]
      ensures dst[..dp0] == old(dst[..dp0])
      ensures n - sp < BlockSize() && (prefs.autoFlush ==> sp == n)
      ensures any ==> Linked(src + sp)
      ensures !any ==> sp == sp0 && Linked(end) && OwnHistory() == old(OwnHistory())
    {
      hide Core, Linked, Progress, Needed, FrameInfo.MaxBlockSize, OwnHistory;
      dp, sp, any := dp0, sp0, false;
      ghost var k: nat, e: nat := k0, end;
      assert dst[dp0..dp0] == [] && mem[src + sp0..src + sp0] == [];
      while n - sp >= BlockSize()
        invariant Core() && Linked(e) && sp0 <= sp <= n && dp0 <= dp <= dst.Length && Progress(k, n - sp, total, dp)
        invariant done == old(done) + mem[src + sp0..src + sp] && emitted == old(emitted) + dst[dp0..dp]
        invariant dst[..dp0] == old(dst[..dp0])
        invariant any ==> e == src + sp
        invariant !any ==> sp == sp0 && e == end && OwnHistory() == old(OwnHistory())
      {
        RoomForOne(k, n - sp, total, dp);
        ghost var d, s := dp, sp;
        dp, sp := OneFromSource(dst, dp0, dp, src, sp0, sp, BlockSize(), e, old(done), old(emitted));
        OneDone(k, n - s, n - sp, total, d, dp);
        k, e, any := k + 1, src + sp, true;
      }
      Finish(k, n - sp, total, dp);
      if prefs.autoFlush && sp < n {
        dp, sp := OneFromSource(dst, dp0, dp, src, sp0, sp, n - sp, e, old(done), old(emitted));
        any := true;
      }
    }

    /** One block of `size` bytes from the caller's input. */
    method OneFromSource(dst: array<byte>, ghost dp0: nat, dp: nat, src: nat, ghost sp0: nat, sp: nat, size: nat,
                         ghost end: nat, ghost d0: seq<byte>, ghost e0: seq<byte>)
      returns (dp': nat, sp': nat)
      requires Core() && Linked(end) && 1 <= size <= BlockSize() && sp0 <= sp && src + sp + size <= mem.Length
      requires dst != mem && dst != lz4.table as object && dp0 <= dp
      requires dp + 4 + size + prefs.info.CrcSize() <= dst.Length
      requires done == d0 + mem[src + sp0..src + sp] && emitted == e0 + dst[dp0..dp]
      modifies lz4, lz4.table, dst, `emitted, `done
      ensures Core() && sp' == sp + size && Linked(src + sp') && dp <= dp' <= dp + 4 + size + prefs.info.CrcSize()
      ensures done == d0 + mem[src + sp0..src + sp'] && emitted == e0 + dst[dp0..dp'] && dst[..dp0] == old(dst[..dp0])
    {
      hide Core, Linked, SameOutside, Made;
      ghost var was := dst[..];
      var w, _ := MakeBlock(dst, dp, src + sp, size, end);
      dp', sp' := dp + w, sp + size;
      SegmentKept(was, dst[..], dp0, dp, dp, dp + 4 + size + prefs.info.CrcSize());
      SegmentKept(was, dst[..], 0, dp0, dp, dp + 4 + size + prefs.info.CrcSize());
      Extended(e0, dst[..], dp0, dp, dp');
      Extended(d0, mem[..], src + sp0, src + sp, src + sp');
    }

    /** The caller's input lies outside the encoder's buffer. */
    ghost predicate Apart(src: nat, n: nat)
      reads this
    {
      src + n <= mem.Length && (src + n <= tmpBuff || tmpBuff + maxBufferSize <= src)
    }

    /** What links to the history, of memory `m`. */
    ghost predicate LinkedIn(m: seq<byte>, end: nat)
      reads `prefs, `done, lz4, lz4.table
    {
      prefs.info.linked ==>
        && lz4.Streaming() && lz4.hist == done && lz4.dictSize <= |lz4.hist|
        && (lz4.dictSize > 0 ==>
              lz4.dictSize <= end <= |m| && m[end - lz4.dictSize..end] == Last(lz4.hist, lz4.dictSize))
        && (lz4.dictSize > 0 ==> lz4.DictEnd() == end)
    }

    lemma LinkedByValue(end: nat)
      ensures Linked(end) <==> LinkedIn(mem[..], end)
    {
      hide Last, FS.Stream.Streaming;
      if 0 < lz4.dictSize <= end <= mem.Length {
        assert mem[end - lz4.dictSize..end] == mem[..][end - lz4.dictSize..end];
      }
    }

    /** Copying behind or before the history leaves it alone. */
    lemma StillLinked(was: seq<byte>, at: nat, to: nat)
      requires |was| == mem.Length && SameOutside(was, mem[..], at, to) && LinkedIn(was, tmpIn)
      requires tmpIn <= at || (prefs.info.linked && lz4.dictSize > 0 ==> to <= tmpIn - lz4.dictSize)
      ensures Linked(tmpIn)
    {
      hide Last, SameOutside, FS.Stream.Streaming;
      LinkedByValue(tmpIn);
      if prefs.info.linked && lz4.dictSize > 0 {
        SegmentKept(was, mem[..], tmpIn - lz4.dictSize, tmpIn, at, to);
      }
    }

    lemma HistoryInside()
      requires Running()
      ensures prefs.info.linked && lz4.dictSize > 0 ==> tmpBuff <= tmpIn - lz4.dictSize
    {}

    lemma InBuffer()
      requires Core()
      ensures tmpBuff <= tmpIn && tmpBuff + maxBufferSize <= mem.Length && lz4.table != mem as object
    {}

    /** Copies input behind the buffered bytes. */
    method Append(src: nat, k: nat)
      requires src + k <= mem.Length && tmpIn + tmpInSize + k <= mem.Length
      modifies mem
      ensures mem[tmpIn..tmpIn + tmpInSize + k] == old(mem[tmpIn..tmpIn + tmpInSize]) + old(mem[src..src + k])
      ensures SameOutside(old(mem[..]), mem[..], tmpIn + tmpInSize, tmpIn + tmpInSize + k)
    {
      hide SameOutside;
      ghost var was, at, piece := mem[..], tmpIn + tmpInSize, mem[src..src + k];
      assert was[tmpIn..at] == mem[tmpIn..at];
      CopyPiece(mem, tmpIn + tmpInSize, mem[src..src + k]);
      Appended(was, mem[..], tmpIn, at, piece);
      assert mem[tmpIn..at + k] == mem[..][tmpIn..at + k];
    }

    /** Appends input to the buffered bytes. */
    method Buffer(src: nat, k: nat)
      requires Core() && Linked(tmpIn) && Apart(src, k) && tmpIn + tmpInSize + k <= tmpBuff + maxBufferSize
      modifies `tmpInSize, mem
      ensures Core() && Linked(tmpIn) && tmpInSize == old(tmpInSize) + k
      ensures mem[tmpIn..tmpIn + tmpInSize] == old(mem[tmpIn..tmpIn + tmpInSize]) + old(mem[src..src + k])
      ensures SameOutside(old(mem[..]), mem[..], tmpBuff, tmpBuff + maxBufferSize)
    {
      hide Core, Linked, LinkedIn, SameOutside;
      InBuffer();
      LinkedByValue(tmpIn);
      ghost var was, at := mem[..], tmpIn + tmpInSize;
      Append(src, k);
      StillLinked(was, at, at + k);
      OutsideMore(was, mem[..], at, at + k, tmpBuff, tmpBuff + maxBufferSize);
      tmpInSize := tmpInSize + k;
    }

    /** The dictionary, if there is one, lies in the encoder's buffer and ends at tmpIn. */
    ghost predicate OwnHistory()
      reads `prefs, `tmpBuff, `tmpIn, `done, mem, lz4, lz4.table
    {
      Linked(tmpIn) && (prefs.info.linked && lz4.dictSize > 0 ==> tmpBuff <= lz4.dictionary)
    }

    /** First part of an update: what is buffered is completed to a block, or only grows. */
    method CompleteTmp(dst: array<byte>, src: nat, n: nat) returns (dp: nat, sp: nat, ghost k: nat)
      requires Running() && Apart(src, n) && dst != mem && dst != lz4.table as object
      requires tmpInSize > 0 && tmpInSize + n >= BlockSize() ==> 4 + prefs.info.CrcSize() + BlockSize() <= dst.Length
      modifies `tmpIn, `tmpInSize, `emitted, `done, mem, lz4, lz4.table, dst
      ensures Core() && OwnHistory() && sp <= n && dp <= dst.Length && emitted == old(emitted) + dst[..dp]
      ensures tmpIn <= tmpBuff + maxBufferSize && (tmpIn == old(tmpIn) || (tmpInSize == 0 && prefs.info.linked))
      ensures tmpInSize == 0 ==>
        && done == old(content) + old(mem[src..src + sp]) && Progress(k, n - sp, old(tmpInSize) + n, dp)
      ensures tmpInSize > 0 ==>
        && tmpInSize < BlockSize() && !prefs.autoFlush && sp == n && dp == 0
        && done + mem[tmpIn..tmpIn + tmpInSize] == old(content) + old(mem[src..src + n])
      ensures SameOutside(old(mem[..]), mem[..], tmpBuff, tmpBuff + maxBufferSize)
    {
      hide Core, OwnHistory, SameOutside, Progress, FrameInfo.MaxBlockSize;
      dp, sp, k := 0, 0, 0;
      NothingWritten(dst);
      if tmpInSize == 0 {
        NothingYet(src, n);
      } else if BlockSize() - tmpInSize > n {
        GrowBuffered(src, n);
        sp := n;
      } else {
        sp := BlockSize() - tmpInSize;
        dp := CompleteBlock(dst, src, sp);
        k := 1;
        FirstBlock(n - sp, n + old(tmpInSize), dp);
      }
    }

    lemma NothingWritten(dst: array<byte>)
      ensures emitted == emitted + dst[..0]
    {}

    lemma FirstBlock(left: nat, total: nat, dp: nat)
      requires BlockSize() + left == total && dp <= 4 + prefs.info.CrcSize() + BlockSize()
      ensures Progress(1, left, total, dp)
    {}

    lemma NothingYet(src: nat, n: nat)
      requires Running() && Apart(src, n) && tmpInSize == 0
      ensures Core() && OwnHistory() && tmpIn <= tmpBuff + maxBufferSize && done == content + mem[src..src]
      ensures Progress(0, n, n, 0) && SameOutside(mem[..], mem[..], tmpBuff, tmpBuff + maxBufferSize)
    {
      hide Core, Linked;
      InBuffer();
      assert mem[tmpIn..tmpIn] == [] && mem[src..src] == [];
    }

    method GrowBuffered(src: nat, n: nat)
      requires Running() && Apart(src, n) && 0 < tmpInSize < BlockSize() - n
      modifies `tmpInSize, mem
      ensures Core() && OwnHistory() && tmpInSize == old(tmpInSize) + n
      ensures tmpIn + tmpInSize <= mem.Length && tmpIn <= tmpBuff + maxBufferSize && !prefs.autoFlush
      ensures done + mem[tmpIn..tmpIn + tmpInSize] == old(content) + old(mem[src..src + n])
      ensures SameOutside(old(mem[..]), mem[..], tmpBuff, tmpBuff + maxBufferSize)
    {
      hide Core, Linked, SameOutside, FrameInfo.MaxBlockSize;
      InBuffer();
      ghost var b, input := mem[tmpIn..tmpIn + tmpInSize], mem[src..src + n];
      Buffer(src, n);
      assert done + (b + input) == (done + b) + input;
    }

    method CompleteBlock(dst: array<byte>, src: nat, sp: nat) returns (dp: nat)
      requires Running() && Apart(src, sp) && dst != mem && dst != lz4.table as object && !prefs.autoFlush
      requires tmpInSize + sp == BlockSize() && 4 + prefs.info.CrcSize() + BlockSize() <= dst.Length
      modifies `tmpIn, `tmpInSize, `emitted, `done, mem, lz4, lz4.table, dst
      ensures Core() && OwnHistory() && tmpInSize == 0
      ensures tmpIn == old(tmpIn) + (if prefs.info.linked then BlockSize() else 0) <= tmpBuff + maxBufferSize
      ensures dp <= 4 + prefs.info.CrcSize() + BlockSize() && emitted == old(emitted) + dst[..dp]
      ensures done == old(content) + old(mem[src..src + sp])
      ensures SameOutside(old(mem[..]), mem[..], tmpBuff, tmpBuff + maxBufferSize)
    {
      hide Core, Linked, SameOutside, FrameInfo.MaxBlockSize;
      InBuffer();
      ghost var d, buffered, input := done, mem[tmpIn..tmpIn + tmpInSize], mem[src..src + sp];
      Buffer(src, sp);
      dp := BlockFromBuffer(dst);
      Regrouped(d, buffered, input);
    }

    method BufferOwn(src: nat, k: nat)
      requires Core() && OwnHistory() && Apart(src, k) && tmpIn + tmpInSize + k <= tmpBuff + maxBufferSize
      modifies `tmpInSize, mem
      ensures Core() && OwnHistory() && tmpInSize == old(tmpInSize) + k
      ensures mem[tmpIn..tmpIn + tmpInSize] == old(mem[tmpIn..tmpIn + tmpInSize]) + old(mem[src..src + k])
      ensures SameOutside(old(mem[..]), mem[..], tmpBuff, tmpBuff + maxBufferSize)
    {
      hide Core, Linked, SameOutside;
      Buffer(src, k);
    }

    /** History moves into the encoder's buffer, and leaves room for a block there. */
    method BringHome(any: bool, ghost end: nat)
      requires Core() && Linked(end) && tmpIn <= tmpBuff + maxBufferSize
      requires !any ==> end == tmpIn && OwnHistory()
      modifies `tmpIn, mem, lz4
      ensures Core() && OwnHistory() && tmpIn <= tmpBuff + maxBufferSize
      ensures !prefs.autoFlush ==> tmpIn + BlockSize() <= tmpBuff + maxBufferSize
      ensures SameOutside(old(mem[..]), mem[..], tmpBuff, tmpBuff + maxBufferSize)
      ensures !any && (prefs.autoFlush || old(tmpIn) + BlockSize() <= tmpBuff + maxBufferSize) ==>
        tmpIn == old(tmpIn) && mem[..] == old(mem[..])
    {
      hide SameOutside, Reaches, FS.Stream.Valid, FS.Stream.Streaming, FrameInfo.MaxBlockSize, Last;
      ghost var was := mem[..];
      SameAsBefore(was, tmpBuff, tmpBuff + maxBufferSize);
      if any && prefs.info.linked {
        LocalSaveDict(end);
        OutsideMore(was, mem[..], tmpBuff, tmpBuff + KB64, tmpBuff, tmpBuff + maxBufferSize);
      }
      ghost var was1 := mem[..];
      if !prefs.autoFlush && tmpIn + BlockSize() > tmpBuff + maxBufferSize {
        LocalSaveDict(tmpIn);
        OutsideMore(was1, mem[..], tmpBuff, tmpBuff + KB64, tmpBuff, tmpBuff + maxBufferSize);
        OutsideTwice(was, was1, mem[..], tmpBuff, tmpBuff + maxBufferSize);
      }
    }

    /** Last part of an update: history and remaining input move into the encoder's buffer. */
    method Settle(src: nat, n: nat, any: bool, ghost end: nat)
      requires Core() && Linked(end) && Apart(src, n) && n < BlockSize() && (prefs.autoFlush ==> n == 0)
      requires tmpIn <= tmpBuff + maxBufferSize
      requires tmpInSize > 0 ==> !any && n == 0 && tmpIn + BlockSize() <= tmpBuff + maxBufferSize
      requires !any ==> end == tmpIn && OwnHistory()
      modifies `tmpIn, `tmpInSize, mem, lz4
      ensures Core() && OwnHistory() && tmpInSize == old(tmpInSize) + n && tmpIn <= tmpBuff + maxBufferSize
      ensures !prefs.autoFlush ==> tmpIn + BlockSize() <= tmpBuff + maxBufferSize
      ensures old(tmpInSize) > 0 ==> tmpIn == old(tmpIn) && mem[..] == old(mem[..])
      ensures old(tmpInSize) == 0 ==> mem[tmpIn..tmpIn + tmpInSize] == old(mem[src..src + n])
      ensures SameOutside(old(mem[..]), mem[..], tmpBuff, tmpBuff + maxBufferSize)
    {
      hide Core, Linked, SameOutside, FrameInfo.MaxBlockSize, OwnHistory;
      ghost var was, input := mem[..], mem[src..src + n];
      BringHome(any, end);
      InBuffer();
      OwnLinked();
      if n > 0 {
        ghost var was2 := mem[..];
        SegmentKept(was, was2, src, src + n, tmpBuff, tmpBuff + maxBufferSize);
        assert mem[tmpIn..tmpIn] == [] && mem[src..src + n] == was2[src..src + n] == input;
        BufferOwn(src, n);
        OutsideTwice(was, was2, mem[..], tmpBuff, tmpBuff + maxBufferSize);
        assert [] + input == input;
      }
    }

    lemma OwnLinked()
      requires OwnHistory()
      ensures Linked(tmpIn)
    {}

    /** The space blocks of `total` bytes may take, as the bound counts it. */
    lemma BoundCovers(n: nat)
      requires tmpInSize < BlockSize()
      ensures Needed(tmpInSize + n) + EndSize(prefs) <= BoundInternal(n, prefs, tmpInSize)
      ensures tmpInSize + n >= BlockSize() ==> 4 + prefs.info.CrcSize() + BlockSize() <= Needed(tmpInSize + n)
    {
      BlocksBound(tmpInSize + n, BlockSize(), 4 + prefs.info.CrcSize());
    }

    /** With nothing buffered: blocks from the input, the rest into the buffer. */
    method CompressInput(dst: array<byte>, d: nat, src: nat, s: nat, n: nat, ghost k: nat, ghost total: nat)
      returns (dp: nat)
      requires Core() && OwnHistory() && tmpInSize == 0 && tmpIn <= tmpBuff + maxBufferSize && Apart(src, n) && s <= n
      requires dst != mem && dst != lz4.table as object && d <= dst.Length
      requires Progress(k, n - s, total, d) && Needed(total) <= dst.Length
      modifies `tmpIn, `tmpInSize, `emitted, `done, mem, lz4, lz4.table, dst
      ensures Core() && OwnHistory() && tmpInSize < BlockSize() && (prefs.autoFlush ==> tmpInSize == 0)
      ensures tmpIn <= tmpBuff + maxBufferSize && (!prefs.autoFlush ==> tmpIn + BlockSize() <= tmpBuff + maxBufferSize)
      ensures tmpIn + tmpInSize <= mem.Length
      ensures done + mem[tmpIn..tmpIn + tmpInSize] == old(done) + old(mem[src + s..src + n])
      ensures d <= dp <= Needed(total) && emitted == old(emitted) + dst[d..dp] && dst[..d] == old(dst[..d])
      ensures SameOutside(old(mem[..]), mem[..], tmpBuff, tmpBuff + maxBufferSize)
    {
      hide Core, Linked, SameOutside, Progress, Needed, FrameInfo.MaxBlockSize, OwnHistory;
      OwnLinked();
      ghost var d0, all := done, mem[src + s..src + n];
      var any, sp;
      dp, sp, any := FromSource(dst, d, src, s, n, tmpIn, k, total);
      var at: nat, left: nat := src + sp, n - sp;
      assert all == mem[src + s..at] + mem[at..at + left];
      SettleRest(at, left, any, d0, mem[src + s..at], all);
    }

    /** What is left of the input goes into the buffer: together with the blocks made from it, it is all there. */
    method SettleRest(at: nat, left: nat, any: bool, ghost d0: seq<byte>, ghost a: seq<byte>, ghost all: seq<byte>)
      requires Core() && Linked(if any then at else tmpIn) && Apart(at, left) && left < BlockSize()
      requires prefs.autoFlush ==> left == 0
      requires tmpIn <= tmpBuff + maxBufferSize && tmpInSize == 0 && (!any ==> OwnHistory())
      requires done == d0 + a && all == a + mem[at..at + left]
      modifies `tmpIn, `tmpInSize, mem, lz4
      ensures Core() && OwnHistory() && tmpInSize == left && tmpIn <= tmpBuff + maxBufferSize
      ensures !prefs.autoFlush ==> tmpIn + BlockSize() <= tmpBuff + maxBufferSize
      ensures tmpIn + tmpInSize <= mem.Length && done + mem[tmpIn..tmpIn + tmpInSize] == d0 + all
      ensures SameOutside(old(mem[..]), mem[..], tmpBuff, tmpBuff + maxBufferSize)
    {
      hide Core, Linked, SameOutside, FrameInfo.MaxBlockSize, OwnHistory;
      Regrouped(d0, a, mem[at..at + left]);
      Settle(at, left, any, if any then at else tmpIn);
      InBuffer();
    }

    /** The same, in terms of what memory `was` before the call and of what was emitted before it. */
    method CompressRest(dst: array<byte>, d: nat, src: nat, s: nat, n: nat, ghost k: nat, ghost total: nat,
                        ghost was: seq<byte>, ghost c: seq<byte>, ghost e: seq<byte>)
      returns (dp: nat)
      requires Core() && OwnHistory() && tmpInSize == 0 && tmpIn <= tmpBuff + maxBufferSize && Apart(src, n) && s <= n
      requires dst != mem && dst != lz4.table as object && d <= dst.Length
      requires Progress(k, n - s, total, d) && Needed(total) <= dst.Length
      requires |was| == mem.Length && SameOutside(was, mem[..], tmpBuff, tmpBuff + maxBufferSize)
      requires done == c + was[src..src + s] && emitted == e + dst[..d]
      modifies `tmpIn, `tmpInSize, `emitted, `done, mem, lz4, lz4.table, dst
      ensures Core() && OwnHistory() && tmpInSize < BlockSize() && (prefs.autoFlush ==> tmpInSize == 0)
      ensures tmpIn <= tmpBuff + maxBufferSize && (!prefs.autoFlush ==> tmpIn + BlockSize() <= tmpBuff + maxBufferSize)
      ensures tmpIn + tmpInSize <= mem.Length && done + mem[tmpIn..tmpIn + tmpInSize] == c + was[src..src + n]
      ensures dp <= Needed(total) && emitted == e + dst[..dp]
      ensures SameOutside(was, mem[..], tmpBuff, tmpBuff + maxBufferSize)
    {
      hide Core, OwnHistory, SameOutside, Progress, Needed, FrameInfo.MaxBlockSize;
      ghost var was1, first := mem[..], dst[..d];
      SegmentKept(was, was1, src, src + n, tmpBuff, tmpBuff + maxBufferSize);
      Split(was, was1, src, s, n);
      Regrouped(c, was[src..src + s], was1[src + s..src + n]);
      dp := CompressInput(dst, d, src, s, n, k, total);
      assert dst[..dp] == first + dst[d..dp];
      Regrouped(e, first, dst[d..dp]);
      OutsideTwice(was, was1, mem[..], tmpBuff, tmpBuff + maxBufferSize);
    }

    lemma RoomForBlock()
      requires Running()
      ensures tmpInSize < BlockSize() && (!prefs.autoFlush ==> tmpIn + BlockSize() <= tmpBuff + maxBufferSize)
    {}

    /** The compressing part of an update. */
    method Compress(dst: array<byte>, src: nat, n: nat) returns (dp: nat)
      requires Running() && Apart(src, n) && dst != mem && dst != lz4.table as object
      requires BoundInternal(n, prefs, tmpInSize) <= dst.Length
      modifies `tmpIn, `tmpInSize, `emitted, `done, mem, lz4, lz4.table, dst
      ensures Core() && OwnHistory() && tmpInSize < BlockSize() && (prefs.autoFlush ==> tmpInSize == 0)
      ensures tmpIn <= tmpBuff + maxBufferSize && (!prefs.autoFlush ==> tmpIn + BlockSize() <= tmpBuff + maxBufferSize)
      ensures tmpIn + tmpInSize <= mem.Length
      ensures done + mem[tmpIn..tmpIn + tmpInSize] == old(content) + old(mem[src..src + n])
      ensures dp <= old(BoundInternal(n, prefs, tmpInSize)) && emitted == old(emitted) + dst[..dp]
      ensures SameOutside(old(mem[..]), mem[..], tmpBuff, tmpBuff + maxBufferSize)
    {
      hide Core, Linked, OwnHistory, SameOutside, Progress, Needed, BoundInternal, FrameInfo.MaxBlockSize, Running;
      RoomForBlock();
      BoundCovers(n);
      ghost var was, input, total := mem[..], mem[src..src + n], tmpInSize + n;
      assert was[src..src + n] == input;
      var s;
      ghost var k;
      dp, s, k := CompleteTmp(dst, src, n);
      InBuffer();
      if tmpInSize == 0 {
        dp := CompressRest(dst, dp, src, s, n, k, total, was, old(content), old(emitted));
      }
      // Otherwise all input is used up and the buffer keeps its place: nothing of the rest applies.
    }

    /** LZ4F_compressUpdate: takes all of the input, or refuses when the bound says it might not fit. */
    method Update(dst: array<byte>, src: nat, n: nat) returns (r: Result)
      requires Valid() && Apart(src, n) && dst != mem && dst != lz4.table as object
      modifies this, mem, lz4, lz4.table, dst
      ensures Valid() && started == old(started) && prefs == old(prefs)
      ensures tmpBuff == old(tmpBuff) && maxBufferSize == old(maxBufferSize)
      ensures r.Error? <==> !old(started) || dst.Length < old(BoundInternal(n, prefs, tmpInSize))
      ensures r.Error? ==> emitted == old(emitted) && content == old(content) && mem[..] == old(mem[..])
      ensures r.Written? ==>
        && r.size <= old(BoundInternal(n, prefs, tmpInSize)) && emitted == old(emitted) + dst[..r.size]
        && content == old(content) + old(mem[src..src + n])
      ensures SameOutside(old(mem[..]), mem[..], tmpBuff, tmpBuff + maxBufferSize)
    {
      hide Core, SameOutside, BoundInternal, FrameInfo.MaxBlockSize, OwnHistory;
      SameAsBefore(mem[..], tmpBuff, tmpBuff + maxBufferSize);
      if !started || dst.Length < BoundInternal(n, prefs, tmpInSize) {
        return Error;
      }
      var input := mem[src..src + n];
      var dp := Compress(dst, src, n);
      Accept(input);
      return Written(dp);
    }

    /** The input is accounted for. */
    method Accept(input: seq<byte>)
      requires Core() && OwnHistory() && tmpInSize < BlockSize() && (prefs.autoFlush ==> tmpInSize == 0) && started
      requires tmpIn <= tmpBuff + maxBufferSize && (!prefs.autoFlush ==> tmpIn + BlockSize() <= tmpBuff + maxBufferSize)
      requires tmpIn + tmpInSize <= mem.Length && content + input == done + mem[tmpIn..tmpIn + tmpInSize]
      requires prefs.info.contentChecksum ==> hashed == content
      requires prefs.info.contentSize > 0 ==> totalInSize == |content| % TWO64
      modifies `hashed, `totalInSize, `content
      ensures Valid() && content == old(content) + input
    {
      hide Core, OwnHistory, FrameInfo.MaxBlockSize, Running;
      if prefs.info.contentChecksum {
        hashed := hashed + input;
      }
      SumMod(totalInSize, |content|, |input|);
      totalInSize := (totalInSize + |input|) % TWO64;
      content := content + input;
      StillRunning();
      StillValid();
    }

    lemma StillRunning()
      requires Core() && OwnHistory() && tmpInSize < BlockSize() && (prefs.autoFlush ==> tmpInSize == 0)
      requires tmpIn <= tmpBuff + maxBufferSize && (!prefs.autoFlush ==> tmpIn + BlockSize() <= tmpBuff + maxBufferSize)
      requires tmpIn + tmpInSize <= mem.Length && content == done + mem[tmpIn..tmpIn + tmpInSize]
      requires prefs.info.contentChecksum ==> hashed == content
      requires prefs.info.contentSize > 0 ==> totalInSize == |content| % TWO64
      ensures Running()
    {
      hide Core, Linked;
    }

    lemma StillValid()
      requires Running() && started
      ensures Valid()
    {}

    /** LZ4F_flush: whatever is buffered becomes a block. */
    method Flush(dst: array<byte>) returns (r: Result)
      requires Valid() && dst != mem && dst != lz4.table as object
      modifies this, mem, lz4, lz4.table, dst
      ensures Valid() && started == old(started) && prefs == old(prefs) && content == old(content)
      ensures tmpBuff == old(tmpBuff) && maxBufferSize == old(maxBufferSize)
      ensures r.Error? <==> 0 < old(tmpInSize) && dst.Length < old(tmpInSize) + 8
      ensures r.Error? ==> emitted == old(emitted) && mem[..] == old(mem[..])
      ensures r.Written? ==>
        && r.size <= dst.Length && tmpInSize == 0 && emitted == old(emitted) + dst[..r.size]
        && (started ==> done == content)
        && r.size <= (if old(tmpInSize) == 0 then 0 else 4 + prefs.info.CrcSize() + old(tmpInSize))
      ensures SameOutside(old(mem[..]), mem[..], tmpBuff, tmpBuff + maxBufferSize)
    {
      hide Core, SameOutside, FrameInfo.MaxBlockSize, OwnHistory;
      SameAsBefore(mem[..], tmpBuff, tmpBuff + maxBufferSize);
      if tmpInSize == 0 {
        NothingWritten(dst);
        if started {
          NoneBuffered();
        }
        return Written(0);
      }
      if dst.Length < tmpInSize + 8 {
        return Error;
      }
      var dp := FlushBuffered(dst);
      assert Running() by { StillRunning(); }
      StillValid();
      return Written(dp);
    }

    lemma NoneBuffered()
      requires Running() && tmpInSize == 0
      ensures done == content
    {
      hide Core, Linked;
      InBuffer();
      assert mem[tmpIn..tmpIn] == [];
    }

    method FlushBuffered(dst: array<byte>) returns (dp: nat)
      requires Running() && tmpInSize > 0 && dst != mem && dst != lz4.table as object && tmpInSize + 8 <= dst.Length
      modifies `tmpIn, `tmpInSize, `emitted, `done, mem, lz4, lz4.table, dst
      ensures Core() && OwnHistory() && tmpInSize == 0 && tmpIn + BlockSize() <= tmpBuff + maxBufferSize
      ensures tmpIn <= mem.Length
      ensures dp <= 4 + prefs.info.CrcSize() + old(tmpInSize) && done == content && emitted == old(emitted) + dst[..dp]
      ensures done + mem[tmpIn..tmpIn + tmpInSize] == content
      ensures SameOutside(old(mem[..]), mem[..], tmpBuff, tmpBuff + maxBufferSize)
    {
      hide Core, SameOutside, FrameInfo.MaxBlockSize;
      dp := BlockFromBuffer(dst);
      BringHome(false, tmpIn);
      InBuffer();
      assert mem[tmpIn..tmpIn] == [];
    }

    /** What is buffered becomes a block; linked, it stays in place as history. */
    method BlockFromBuffer(dst: array<byte>) returns (dp: nat)
      requires Core() && OwnHistory() && 0 < tmpInSize <= BlockSize() && tmpIn + tmpInSize <= tmpBuff + maxBufferSize
      requires dst != mem && dst != lz4.table as object && 4 + prefs.info.CrcSize() + tmpInSize <= dst.Length
      modifies `tmpIn, `tmpInSize, `emitted, `done, lz4, lz4.table, dst
      ensures Core() && OwnHistory() && tmpInSize == 0
      ensures tmpIn == old(tmpIn) + (if prefs.info.linked then old(tmpInSize) else 0)
      ensures old(tmpIn + tmpInSize) <= mem.Length && done == old(done) + mem[old(tmpIn)..old(tmpIn + tmpInSize)]
      ensures dp <= 4 + prefs.info.CrcSize() + old(tmpInSize) && emitted == old(emitted) + dst[..dp]
    {
      hide SameOutside, Reaches, FS.Stream.Valid, FrameInfo.MaxBlockSize, Made;
      ghost var packed;
      dp, packed := MakeBlock(dst, 0, tmpIn, tmpInSize, tmpIn);
      assert dst[0..dp] == dst[..dp];
      if prefs.info.linked {
        tmpIn := tmpIn + tmpInSize;
      }
      tmpInSize := 0;
    }

    /** From every state, LZ4F_compressBound(0) bytes are enough to flush and to end the frame. */
    lemma BoundZero()
      requires Running()
      ensures tmpInSize > 0 ==> tmpInSize + 8 <= Bound(0, prefs)
      ensures (if tmpInSize == 0 then 0 else 4 + prefs.info.CrcSize() + tmpInSize) + EndSize(prefs) <= Bound(0, prefs)
    {
      hide Core, Linked;
      var bs := BlockSize();
      if !prefs.autoFlush {
        assert (bs - 1) / bs == 0 && (bs - 1) % bs == bs - 1 by { Quotient(0, bs - 1, bs - 1, bs, 0); }
      } else {
        assert 0 / bs == 0 && 0 % bs == 0 by { Quotient(0, 0, 0, bs, 0); }
      }
    }

    /** LZ4F_compressEnd: flushes, and closes the frame. What was emitted is then a frame that means the content. */
    method End(dst: array<byte>) returns (r: Result)
      requires Valid() && started && dst != mem && dst != lz4.table as object
      modifies this, mem, lz4, lz4.table, dst
      ensures prefs == old(prefs) && content == old(content)
      ensures r.Written? ==>
        && Valid() && !started && r.size <= dst.Length && emitted == old(emitted) + dst[..r.size]
        && FrameFrom(xxh, [], emitted, 0) == Frame(content, |emitted|, true, true)
      ensures dst.Length >= Bound(0, prefs) ==>
        (r.Error? <==> prefs.info.contentSize > 0 && prefs.info.contentSize != |content| % TWO64)
    {
      hide Core, SameOutside, FrameInfo.MaxBlockSize, OwnHistory, Bound, FrameFrom;
      BoundZero();
      r := Flush(dst);
      if r.Error? {
        return;
      }
      var n, rest := r.size, dst.Length - r.size;
      if rest < EndSize(prefs) {
        return Error;
      }
      ghost var first := dst[..n];
      r := Close(dst, n);
      assert dst[..n + EndSize(prefs)] == first + dst[n..n + EndSize(prefs)];
      Regrouped(old(emitted), first, dst[n..n + EndSize(prefs)]);
    }

    method Close(dst: array<byte>, n: nat) returns (r: Result)
      requires Running() && tmpInSize == 0 && done == content && n + EndSize(prefs) <= dst.Length
      requires dst != mem && dst != lz4.table as object
      modifies `started, `emitted, dst
      ensures dst[..n] == old(dst[..n]) && emitted == old(emitted) + dst[n..n + EndSize(prefs)]
      ensures r.Error? <==> prefs.info.contentSize > 0 && prefs.info.contentSize != |content| % TWO64
      ensures r.Written? ==>
        && Valid() && !started && r.size == n + EndSize(prefs)
        && FrameFrom(xxh, [], emitted, 0) == Frame(content, |emitted|, true, true)
    {
      hide Core, Linked, Reaches, FrameFrom, EndBytes;
      InCore();
      PutEnd(dst, n);
      FrameCloses(prefs.info);
      emitted := emitted + dst[n..n + EndSize(prefs)];
      started := false;
      if prefs.info.contentSize > 0 && prefs.info.contentSize != totalInSize {
        return Error;
      }
      Closed();
      return Written(n + EndSize(prefs));
    }

    lemma InCore()
      requires Core()
      ensures (forall s :: xxh(s) < 0x1_0000_0000) && lz4.Valid() && lz4.table != mem as object
      ensures tmpBuff + maxBufferSize <= mem.Length && Reaches(xxh, prefs.info, emitted, done)
    {}

    lemma FrameCloses(info: FrameInfo)
      requires Reaches(xxh, info, emitted, content) && forall s :: xxh(s) < 0x1_0000_0000
      ensures !(info.contentSize > 0 && info.contentSize != |content| % TWO64) ==>
        var f := emitted + EndBytes(xxh, info, content); FrameFrom(xxh, [], f, 0) == Frame(content, |f|, true, true)
    {
      hide Reaches, FrameFrom, EndBytes;
      if !(info.contentSize > 0 && info.contentSize != |content| % TWO64) {
        SizeMatches(info.contentSize, |content|);
        FrameComplete(xxh, info, emitted, content);
      }
    }

    lemma Closed()
      requires tmpInSize == 0 && !started && (forall s :: xxh(s) < 0x1_0000_0000) && lz4.Valid()
      requires lz4.table != mem as object
      requires tmpBuff + maxBufferSize <= mem.Length
      ensures Valid()
    {}

    /** End mark and content checksum; the source tests the room for each before it writes it. */
    method PutEnd(dst: array<byte>, n: nat)
      requires Running() && done == content && n + EndSize(prefs) <= dst.Length
      modifies dst
      ensures dst[..n] == old(dst[..n]) && dst[n..n + EndSize(prefs)] == EndBytes(xxh, prefs.info, content)
    {
      hide Write32, Core, Linked;
      assert forall s :: xxh(s) < 0x1_0000_0000 by { HashFits(); }
      CopyPiece(dst, n, Write32(0));
      if prefs.info.contentChecksum {
        CopyPiece(dst, n + 4, Write32(xxh(hashed)));
      }
    }

    lemma HashFits()
      requires Core()
      ensures forall s :: xxh(s) < 0x1_0000_0000
    {}

    /** LZ4F_compressBegin at a fast level: prepares buffer and compressor, and writes the header.
        `buffer` is where a larger buffer would be allocated. */
    method Begin(dst: array<byte>, p: Prefs, buffer: nat) returns (r: Result)
      requires Valid() && dst != mem && dst != lz4.table as object && ValidPrefs(p)
      requires buffer + BufferSize(p) <= mem.Length
      modifies this, lz4, lz4.table, dst
      ensures r.Error? <==> dst.Length < MAX_HEADER
      ensures r.Written? ==>
        && Valid() && started && prefs == p.(info := Completed(p.info)) && content == []
        && r.size <= MAX_HEADER && emitted == dst[..r.size] && emitted == HeaderBytes(xxh, prefs.info)
      ensures r.Written? ==>
        if old(maxBufferSize) < BufferSize(p) then tmpBuff == buffer && maxBufferSize == BufferSize(p)
        else tmpBuff == old(tmpBuff) && maxBufferSize == old(maxBufferSize)
    {
      hide Running, HeaderBytes, FrameInfo.MaxBlockSize, FS.Stream.Valid, FS.Stream.Streaming, BufferSize;
      if dst.Length < MAX_HEADER {
        return Error;
      }
      Prepare(p, buffer);
      var n := PutHeader(xxh, prefs.info, dst);
      started := true;
      emitted, content, done := dst[..n], [], [];
      Begun();
      return Written(n);
    }

    /** The part of LZ4F_compressBegin before the header. */
    method Prepare(p: Prefs, buffer: nat)
      requires Valid() && ValidPrefs(p) && buffer + BufferSize(p) <= mem.Length
      modifies `prefs, `tmpBuff, `maxBufferSize, `tmpIn, `tmpInSize, `hashed, `totalInSize, lz4, lz4.table
      ensures lz4.Valid() && (p.info.linked ==> lz4.Streaming() && lz4.hist == [] && lz4.dictSize == 0)
      ensures prefs == p.(info := Completed(p.info)) && tmpBuff + maxBufferSize <= mem.Length
      ensures BufferSize(prefs) <= maxBufferSize
      ensures tmpIn == tmpBuff && tmpInSize == 0 && hashed == [] && (prefs.info.contentSize > 0 ==> totalInSize == 0)
      ensures if old(maxBufferSize) < BufferSize(p) then tmpBuff == buffer && maxBufferSize == BufferSize(p)
              else tmpBuff == old(tmpBuff) && maxBufferSize == old(maxBufferSize)
    {
      hide Running, FrameInfo.MaxBlockSize, FS.Stream.Valid, FS.Stream.Streaming;
      prefs := p.(info := Completed(p.info));
      if maxBufferSize < BufferSize(p) {
        tmpBuff, maxBufferSize := buffer, BufferSize(p);
      }
      tmpIn, tmpInSize, hashed := tmpBuff, 0, [];
      if prefs.info.contentSize > 0 {
        totalInSize := 0;
      }
      if prefs.info.linked {
        lz4.ResetFast();
      }
    }

    lemma Begun()
      requires (forall s :: xxh(s) < 0x1_0000_0000) && lz4.Valid() && lz4.table != mem as object
      requires prefs.info.Valid() && tmpBuff + maxBufferSize <= mem.Length && BufferSize(prefs) <= maxBufferSize
      requires tmpIn == tmpBuff && tmpInSize == 0 && content == [] && done == [] && hashed == []
      requires prefs.info.contentSize > 0 ==> totalInSize == 0
      requires emitted == HeaderBytes(xxh, prefs.info)
      requires prefs.info.linked ==> lz4.Streaming() && lz4.hist == [] && lz4.dictSize == 0
      ensures Running()
    {
      hide Reaches, HeaderBytes, FrameInfo.MaxBlockSize, FS.Stream.Valid, FS.Stream.Streaming;
      ReachesHeader(xxh, prefs.info);
      assert mem[tmpIn..tmpIn] == [];
    }
  }

  /** Writes a piece behind `n` bytes. */
  method Put(dst: array<byte>, n: nat, piece: seq<byte>) returns (n': nat)
    requires n + |piece| <= dst.Length
    modifies dst
    ensures n' == n + |piece| && dst[..n'] == old(dst[..n]) + piece
  {
    ghost var was := dst[..];
    CopyPiece(dst, n, piece);
    n' := n + |piece|;
    Appended(was, dst[..], 0, n, piece);
  }

  /** The header, field by field. */
  method PutHeader(xxh: Hash, info: FrameInfo, dst: array<byte>) returns (n: nat)
    requires info.Valid() && MAX_HEADER <= dst.Length
    modifies dst
    ensures n <= MAX_HEADER && dst[..n] == HeaderBytes(xxh, info)
  {
    hide Write32, Write64, FlagByte;
    n := Put(dst, 0, Write32(MAGIC));
    n := Put(dst, n, [FlagByte(info), (info.blockSizeID * 16) as byte]);
    ghost var d := [FlagByte(info), (info.blockSizeID * 16) as byte];
    assert dst[..n] == Write32(MAGIC) + d;
    if info.contentSize > 0 {
      n := Put(dst, n, Write64(info.contentSize));
      Regrouped(Write32(MAGIC), d, Write64(info.contentSize));
      d := d + Write64(info.contentSize);
    }
    if info.dictID > 0 {
      n := Put(dst, n, Write32(info.dictID));
      Regrouped(Write32(MAGIC), d, Write32(info.dictID));
      d := d + Write32(info.dictID);
    }
    assert d == Descriptor(info) && dst[..n] == Write32(MAGIC) + d;
    assert dst[4..n] == dst[..n][4..] == d;
    n := Put(dst, n, [HeaderChecksum(xxh, dst[4..n]) as byte]);
  }

  lemma Split(m: seq<byte>, m': seq<byte>, src: nat, s: nat, n: nat)
    requires |m| == |m'| && src + n <= |m| && s <= n && m[src..src + n] == m'[src..src + n]
    ensures m[src..src + n] == m[src..src + s] + m'[src + s..src + n]
  {
    assert m'[src..src + n] == m'[src..src + s] + m'[src + s..src + n];
    assert m[src..src + s] == m[src..src + n][..s];
  }

  lemma BlocksBound(total: nat, bs: nat, c: nat)
    requires bs > 0
    ensures var full := total / bs; c * full + bs * full == full * (c + bs) && c * (full + 1) == c * full + c
    ensures total >= bs ==> c + bs <= total / bs * (c + bs)
  {
    var full := total / bs;
    Times(full, c);
    if total >= bs {
      Quotient(1, total - bs, total, bs, c + bs);
    }
  }

  lemma SumMod(total: nat, m: nat, n: nat)
    ensures total == m % TWO64 ==> (total + n) % TWO64 == (m + n) % TWO64
  {}

  lemma SizeMatches(contentSize: nat, n: nat)
    ensures contentSize == n % TWO64 ==> (contentSize - n) % TWO64 == 0
  {}

  lemma SameAsBefore(s: seq<byte>, i: int, j: int)
    ensures SameOutside(s, s, i, j)
  {}

  lemma Appended(was: seq<byte>, now: seq<byte>, a: nat, at: nat, piece: seq<byte>)
    requires a <= at && at + |piece| <= |was| == |now| && SameOutside(was, now, at, at + |piece|)
    requires now[at..at + |piece|] == piece
    ensures now[a..at + |piece|] == was[a..at] + piece
  {
    SegmentKept(was, now, a, at, at, at + |piece|);
    assert now[a..at + |piece|] == now[a..at] + piece;
  }

  method PutBody(dst: array<byte>, dp: nat, header: nat, payload: seq<byte>)
    requires header < 0x1_0000_0000 && dp + 4 + |payload| <= dst.Length
    modifies dst
    ensures dst[dp..dp + 4 + |payload|] == Write32(header) + payload && dst[dp + 4..dp + 4 + |payload|] == payload
    ensures SameOutside(old(dst[..]), dst[..], dp, dp + 4 + |payload|)
  {
    hide Write32;
    CopyPiece(dst, dp + 4, payload);
    CopyPiece(dst, dp, Write32(header));
    assert dst[..][dp..dp + 4] == Write32(header) && dst[dp + 4..dp + 4 + |payload|] == payload;
  }

  method PutBlock(xxh: Hash, info: FrameInfo, dst: array<byte>, dp: nat, stored: bool, payload: seq<byte>)
    returns (written: nat)
    requires (forall s :: xxh(s) < 0x1_0000_0000) && |payload| < UNCOMPRESSED_FLAG
    requires dp + 4 + |payload| + info.CrcSize() <= dst.Length
    modifies dst
    ensures written == 4 + |payload| + info.CrcSize()
    ensures dst[dp..dp + written] == BlockBytes(xxh, info, stored, payload)
    ensures SameOutside(old(dst[..]), dst[..], dp, dp + written)
  {
    hide Write32, SameOutside;
    var n := |payload|;
    ghost var s0 := dst[..];
    PutBody(dst, dp, n + (if stored then UNCOMPRESSED_FLAG else 0), payload);
    written := 4 + n;
    if info.blockChecksum {
      ghost var s := dst[..];
      CopyPiece(dst, dp + 4 + n, Write32(xxh(dst[dp + 4..dp + 4 + n])));
      written := 8 + n;
      Appended(s, dst[..], dp, dp + 4 + n, Write32(xxh(payload)));
      OutsideMore(s0, s, dp, dp + 4 + n, dp, dp + 8 + n);
      OutsideMore(s, dst[..], dp + 4 + n, dp + 8 + n, dp, dp + 8 + n);
      OutsideTwice(s0, s, dst[..], dp, dp + 8 + n);
    }
  }

  lemma Extended(front: seq<byte>, s: seq<byte>, i: nat, j: nat, k: nat)
    requires i <= j <= k <= |s|
    ensures front + s[i..j] + s[j..k] == front + s[i..k]
  {
    assert s[i..j] + s[j..k] == s[i..k];
    Regrouped(front, s[i..j], s[j..k]);
  }

  lemma Times(k: nat, b: nat)
    ensures (k + 1) * b == k * b + b
  {}

  lemma Quotient(k: nat, left: nat, total: nat, b: nat, unit: nat)
    requires b > 0 && k * b + left == total
    ensures k <= total / b && k * unit <= total / b * unit
    ensures left < b ==> k == total / b && left == total % b
  {
    if k > total / b {
      MulMonotone(total / b + 1, k, b);
      assert false;
    }
    MulMonotone(k, total / b, unit);
    if left < b && k < total / b {
      MulMonotone(k + 1, total / b, b);
      assert false;
    }
  }

  lemma MulMonotone(a: nat, b: nat, c: nat)
    requires a <= b
    ensures a * c <= b * c
  {}
}
