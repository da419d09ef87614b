/**
 The streaming frame decoder: a state machine that accepts its input and delivers its
 output in pieces of any size. Its meaning is that of the whole stream, which the model
 carries as a ghost: every call is handed some more of it.
 */
module FrameDecoder {
  import opened Bytes
  import opened BlockFormat
  import opened MemCopy
  import opened BlockDecoder
  import opened History
  import opened HistoryWindow
  import opened Placement
  import opened FrameFormat
  import opened FrameMemory

  datatype Stage =
    | GetFrameHeader | StoreFrameHeader | Init
    | GetBlockHeader | StoreBlockHeader | CopyDirect | GetBlockChecksum | GetCBlock | StoreCBlock | FlushOut
    | GetSuffix | StoreSuffix | GetSFrameSize | StoreSFrameSize | SkipSkippable
  {
    predicate InBlocks() {
      || GetBlockHeader? || StoreBlockHeader? || CopyDirect? || GetBlockChecksum?
      || GetCBlock? || StoreCBlock? || FlushOut?
    }

    predicate Compressed() {
      GetCBlock? || StoreCBlock?
    }

    predicate Skips() {
      GetSFrameSize? || StoreSFrameSize? || SkipSkippable?
    }

    predicate InHeader() {
      GetFrameHeader? || StoreFrameHeader?
    }

    /** Stages that lead on to others without reading anything rank above those. */
    function Rank(): nat {
      if Init? then 5 else if GetCBlock? then 4 else if FlushOut? || CopyDirect? || StoreCBlock? then 3
      else if GetBlockHeader? then 2 else 1
    }
  }

  datatype Result = Error | Hint(size: nat)

  datatype Step = Again | Wait(hint: nat) | Complete | Fail

  /** How far a frame is read: what is being stored began at `began`, the next block header ends at `due`. */
  datatype Progress = Progress(stage: Stage, began: int, due: int)

  /** Until the next block header is read, its end stays where it is, or moves on with what is learnt of the frame
      header. Afterwards everything lies behind it. */
  ghost predicate Onward(a: Progress, b: Progress) {
    && a.began <= b.began && (b.stage.InHeader() ==> a.stage.InHeader() && b.began == a.began)
    && (if a.stage.InBlocks() then
          || (b.stage.InBlocks() && b.due == a.due && (b.stage.Compressed() ==> a.stage.Compressed()))
          || a.due <= b.began
        else if a.stage.InHeader() || a.stage == Init then
          || b.stage.Skips() || a.due <= b.began
          || (a.due <= b.due
              && (b.stage.InHeader() || b.stage == Init || (b.stage.InBlocks() && !b.stage.Compressed())))
        else !b.stage.InBlocks() && b.stage != Init && (a.stage.Skips() ==> b.stage.Skips()))
  }

  /** Asking for `n` bytes from `at` on asks for nothing beyond the next block header. */
  ghost predicate Asks(a: Progress, at: int, n: int) {
    && a.stage != StoreCBlock && a.stage != Init && (a.stage.InBlocks() || a.stage.InHeader() ==> at + n <= a.due)
    && (a.stage == GetCBlock ==> at + n == a.due) && (a.stage.InHeader() ==> a.began + MIN_HEADER <= at + n)
  }

  lemma OnwardTwice(a: Progress, b: Progress, c: Progress)
    requires Onward(a, b) && Onward(b, c)
    ensures Onward(a, c)
  {}

  lemma OnwardNone(a: Progress)
    ensures Onward(a, a)
  {}

  /** What is left of an announced content size, in 64-bit arithmetic; 0 if none is announced. */
  function SizeLeft(contentSize: nat, produced: nat): nat {
    if contentSize == 0 then 0 else (contentSize - produced) % TWO64
  }

  lemma NothingProduced(contentSize: nat)
    requires contentSize < TWO64
    ensures SizeLeft(contentSize, 0) == contentSize
  {}

  lemma MoreProduced(contentSize: nat, a: nat, n: nat)
    ensures contentSize != 0 ==> SizeLeft(contentSize, a + n) == (SizeLeft(contentSize, a) - n) % TWO64
  {}

  /** Bytes stored behind others that precede them in the stream. */
  lemma Refilled(stream: seq<byte>, pos: nat, buf: seq<byte>, from: nat, k: nat, piece: seq<byte>)
    requires from <= k && k + |piece| <= |buf| && k - from <= pos && pos + |piece| <= |stream|
    requires buf[from..k] == stream[pos - (k - from)..pos] && piece == stream[pos..pos + |piece|]
    ensures Patch(buf, k, piece)[from..k + |piece|] == stream[pos - (k - from)..pos + |piece|]
    ensures forall n :: k >= MIN_HEADER && SizeKnown(buf, n) ==> SizeKnown(Patch(buf, k, piece), n)
  {
    var r := Patch(buf, k, piece);
    assert r[..k + |piece|] == buf[..k] + piece;
    assert r[from..k + |piece|] == r[..k + |piece|][from..] == buf[from..k] + piece;
  }

  /** The header that starts with these bytes is one of `n` bytes. */
  ghost predicate SizeKnown(header: seq<byte>, n: nat) {
    |header| == MAX_HEADER && n == HeaderSizeOf(header[4]) && ReadLE32(header, 0) / 16 != SKIPPABLE
  }

  lemma SizeKnownMeans(header: seq<byte>, n: nat)
    requires SizeKnown(header, n)
    ensures |header| == MAX_HEADER && n == HeaderSizeOf(header[4]) && ReadLE32(header, 0) / 16 != SKIPPABLE
  {}

  /** A header kept aside says what the stream says where it began. */
  lemma KeptHeader(header: seq<byte>, s: seq<byte>, at: nat, n: nat)
    requires MIN_HEADER <= n <= |header| && at + n <= |s| && header[..n] == s[at..at + n]
    ensures ReadLE32(header, 0) == ReadLE32(s, at) && header[4] == s[at + 4]
  {
    hide ReadLE32;
    FieldInPrefix(header, n);
    FieldInside(s, at, n, 0);
    assert header[..n][4] == s[at..at + n][4];
  }

  /** LZ4_decompress_safe_usingDict: the dictionary is `prefix` bytes in front of the output, or elsewhere. */
  method DecompressUsingDict(buf: array<byte>, at: nat, capacity: nat, src: seq<byte>, prefix: nat, ext: seq<byte>)
    returns (r: int)
    requires prefix <= at && at + capacity <= buf.Length && capacity > 0 && (prefix == 0 || ext == [])
    modifies buf
    ensures r <= capacity && SameOutside(old(buf[..]), buf[..], at, at + capacity)
    ensures r >= 0 ==>
      var e := old(ext + buf[at - prefix..at]);
      var d := Decode(src, 0, e);
      d.Decoded? && d.out == e + buf[at..at + r] && TakenEver(src, e, capacity)
    ensures r < 0 ==> var e := old(ext + buf[at - prefix..at]); !TakenAlways(src, e, capacity)
  {
    hide Decode, Takes, TakenAlways, TakenEver, SameOutside, Window;
    var j: Job;
    if prefix + |ext| == 0 {
      j := Job(src, at, at + capacity, NoDict, at, []);
    } else if prefix > 0 {
      j := Job(src, at, at + capacity, if prefix >= KB64 - 1 then WithPrefix64k else NoDict, at - prefix, []);
    } else {
      j := Job(src, at, at + capacity, UsingExtDict, at, ext);
    }
    ghost var e := ext + buf[at - prefix..at];
    assert j.View(buf[..], at) == e;
    ghost var was := buf[..];
    WholeWindow(e);
    InAnyPlace(j, e, e);
    r := Decompress(buf, j);
    if r >= 0 {
      OutputFollows(j, was, buf[..], at + r);
    }
  }

  class Dctx {
    const xxh: Hash
    var stage: Stage
    var info: FrameInfo
    var frameRemainingSize: nat
    var maxBufferSize: nat
    var tmpIn: seq<byte>
    var tmpInCapacity: nat
    var tmpInSize: nat
    var tmpInTarget: nat
    var header: seq<byte>
    var tmpOutBuffer: array<byte>
    var dict: Place
    var dictSize: nat
    var tmpOut: nat
    var tmpOutSize: nat
    var tmpOutStart: nat
    // The states of the two running checksums: what they have been fed.
    var hashed: seq<byte>
    var blockHashed: seq<byte>

    /** The whole stream, how much of it has been read, and how much before the current call. */
    ghost const stream: seq<byte>
    ghost var pos: nat
    ghost var base: nat
    /** What has been delivered of the current frame, and what is decoded but not delivered. */
    ghost var out: seq<byte>
    ghost var pending: seq<byte>
    /** The dictionary given for the current frame, and what the frame means. */
    ghost var user: seq<byte>
    ghost var meaning: Meaning
    /** The block size the buffers were last allocated for. */
    ghost var allocatedFor: nat

    ghost function Memory(dst: array<byte>, dp: nat): Mem
      reads `dict, `dictSize, `tmpOutBuffer, `tmpOut, `tmpOutSize, `tmpOutStart, tmpOutBuffer, dst
    {
      Mem(dict, dictSize, tmpOutBuffer[..], tmpOut, tmpOutSize, tmpOutStart, dst[..], dp)
    }

    /** The bytes of the dictionary, wherever it is. */
    function DictContent(dst: array<byte>): (d: seq<byte>)
      requires dict.InTmp? ==> dictSize <= tmpOutBuffer.Length
      requires dict.InDst? ==> dict.at + dictSize <= dst.Length
      reads this, tmpOutBuffer, dst
    {
      match dict
      case Nowhere => []
      case InTmp => tmpOutBuffer[..dictSize]
      case InDst(at) => dst[at..at + dictSize]
      case InUser(bytes) => bytes
    }

    // --- What is known between two steps ---

    ghost function Context(): Env
      reads `info, `user
    {
      Env(xxh, info, user, stream)
    }

    /** [from, k) of a buffer holds the last bytes read. */
    ghost predicate Buffered(buf: seq<byte>, from: nat, k: nat)
      reads `pos
    {
      from <= k <= |buf| && k - from <= pos <= |stream| && buf[from..k] == stream[pos - (k - from)..pos]
    }

    ghost predicate AtFrameStart()
      reads `user, `out, `pending, `frameRemainingSize, `dict, `dictSize
    {
      && out == [] && pending == [] && frameRemainingSize == 0
      && ((dict == Nowhere && dictSize == 0 && user == []) || (dict == InUser(user) && dictSize == |user|))
    }

    /** The running size and checksum cover all that is decoded. */
    ghost predicate Accounts()
      reads `info, `out, `pending, `frameRemainingSize, `hashed
    {
      && frameRemainingSize == SizeLeft(info.contentSize, |out| + |pending|)
      && (info.contentChecksum ==> hashed == out + pending)
    }

    ghost predicate InFrame()
      reads `info, `out, `pending, `frameRemainingSize, `hashed, `tmpIn, `maxBufferSize
    {
      && info.Valid() && Accounts() && info.MaxBlockSize() + 4 <= |tmpIn|
      && info.MaxBlockSize() + (if info.linked then KB128 else 0) <= maxBufferSize
    }

    ghost predicate BlockSized()
      reads `info, `tmpInTarget
    {
      info.CrcSize() < tmpInTarget <= info.MaxBlockSize() + info.CrcSize()
    }

    // One predicate a stage: its fields, with the unread stream, mean what the frame means.

    ghost predicate AtHeader()
      reads `user, `meaning, `pos, `out, `pending, `frameRemainingSize, `dict, `dictSize
    {
      AtFrameStart() && Leads(meaning, FrameFrom(xxh, user, stream, pos))
    }

    ghost predicate StoringHeader()
      reads `user, `meaning, `pos, `out, `pending, `frameRemainingSize, `header, `tmpInSize, `tmpInTarget, `dict,
        `dictSize
    {
      && AtFrameStart() && MIN_HEADER <= tmpInTarget <= MAX_HEADER == |header| && tmpInSize < tmpInTarget
      && (tmpInTarget > MIN_HEADER ==> tmpInSize >= MIN_HEADER && SizeKnown(header, tmpInTarget))
      && Buffered(header, 0, tmpInSize) && Leads(meaning, FrameFrom(xxh, user, stream, pos - tmpInSize))
    }

    ghost predicate AtInit()
      reads `user, `meaning, `pos, `out, `pending, `frameRemainingSize, `dict, `dictSize, `info
    {
      && out == [] && pending == [] && frameRemainingSize == info.contentSize && info.Valid()
      && ((dict == Nowhere && dictSize == 0 && user == []) || (dict == InUser(user) && dictSize == |user|))
      && Leads(meaning, BlocksFrom(Context(), pos, []))
    }

    ghost predicate AtBlock()
      reads `info, `user, `meaning, `pos, `out, `pending, `frameRemainingSize, `hashed, `tmpIn, `maxBufferSize
    {
      InFrame() && pending == [] && Leads(meaning, BlocksFrom(Context(), pos, out))
    }

    ghost predicate StoringBlockHeader()
      reads `info, `user, `meaning, `pos, `out, `pending, `frameRemainingSize, `hashed, `blockHashed, `header, `tmpIn,
        `tmpInSize, `tmpInTarget, `maxBufferSize
    {
      && InFrame() && pending == [] && tmpInSize < 4 && Buffered(tmpIn, 0, tmpInSize)
      && Leads(meaning, BlocksFrom(Context(), pos - tmpInSize, out))
    }

    ghost predicate Copying()
      reads `info, `user, `meaning, `pos, `out, `pending, `frameRemainingSize, `hashed, `blockHashed, `header, `tmpIn,
        `tmpInSize, `tmpInTarget, `maxBufferSize
    {
      && InFrame() && pending == [] && tmpInTarget <= info.MaxBlockSize()
      && Leads(meaning, StoredFrom(Context(), pos, tmpInTarget, blockHashed, out))
    }

    ghost predicate StoringBlockChecksum()
      reads `info, `user, `meaning, `pos, `out, `pending, `frameRemainingSize, `hashed, `blockHashed, `header, `tmpIn,
        `tmpInSize, `tmpInTarget, `maxBufferSize
    {
      && InFrame() && pending == [] && info.blockChecksum && tmpInSize < 4 && Buffered(header, 0, tmpInSize)
      && Leads(meaning, StoredChecksumFrom(Context(), pos - tmpInSize, blockHashed, out))
    }

    ghost predicate AtCBlock()
      reads `info, `user, `meaning, `pos, `out, `pending, `frameRemainingSize, `hashed, `blockHashed, `header, `tmpIn,
        `tmpInSize, `tmpInTarget, `maxBufferSize
    {
      && InFrame() && pending == [] && BlockSized()
      && Leads(meaning, CompressedFrom(Context(), pos, tmpInTarget - info.CrcSize(), out))
    }

    ghost predicate StoringCBlock()
      reads `info, `user, `meaning, `pos, `out, `pending, `frameRemainingSize, `hashed, `blockHashed, `header, `tmpIn,
        `tmpInSize, `tmpInTarget, `maxBufferSize
    {
      && InFrame() && pending == [] && BlockSized() && tmpInSize < tmpInTarget && Buffered(tmpIn, 0, tmpInSize)
      && Leads(meaning, CompressedFrom(Context(), pos - tmpInSize, tmpInTarget - info.CrcSize(), out))
    }

    ghost predicate Delivering()
      reads `info, `user, `meaning, `pos, `out, `pending, `frameRemainingSize, `hashed, `blockHashed, `header, `tmpIn,
        `tmpInSize, `tmpInTarget, `maxBufferSize
    {
      InFrame() && Leads(meaning, BlocksFrom(Context(), pos, out + pending))
    }

    ghost predicate AtSuffix()
      reads `info, `user, `meaning, `pos, `out, `pending, `frameRemainingSize, `hashed, `blockHashed, `header, `tmpIn,
        `tmpInSize, `tmpInTarget, `maxBufferSize
    {
      InFrame() && pending == [] && Leads(meaning, SuffixFrom(Context(), pos, out))
    }

    ghost predicate StoringSuffix()
      reads `info, `user, `meaning, `pos, `out, `pending, `frameRemainingSize, `hashed, `blockHashed, `header, `tmpIn,
        `tmpInSize, `tmpInTarget, `maxBufferSize
    {
      && InFrame() && pending == [] && info.contentChecksum && tmpInSize < 4 && Buffered(tmpIn, 0, tmpInSize)
      && Leads(meaning, ContentChecksumFrom(Context(), pos - tmpInSize, out))
    }

    ghost predicate AtSkipSize()
      reads `user, `meaning, `pos, `out, `pending, `frameRemainingSize, `dict, `dictSize
    {
      AtFrameStart() && Leads(meaning, SkipSizeFrom(stream, pos))
    }

    ghost predicate StoringSkipSize()
      reads `user, `meaning, `pos, `out, `pending, `frameRemainingSize, `header, `tmpInSize, `tmpInTarget, `dict,
        `dictSize
    {
      && AtFrameStart() && tmpInTarget == 8 && 4 <= tmpInSize < 8 && |header| == MAX_HEADER
      && Buffered(header, 4, tmpInSize)
      && Leads(meaning, SkipSizeFrom(stream, pos - (tmpInSize - 4)))
    }

    ghost predicate Skipping()
      reads `user, `meaning, `pos, `out, `pending, `frameRemainingSize, `header, `tmpInSize, `tmpInTarget, `dict,
        `dictSize
    {
      AtFrameStart() && Leads(meaning, SkipFrom(stream, pos, tmpInTarget))
    }

    /** Where the next block header ends, as far as the frame header or the current block tells. */
    ghost function Due(): int
      reads `stage, `info, `pos, `tmpInSize, `tmpInTarget
    {
      match stage
      case GetFrameHeader => pos + MIN_HEADER + 4
      case StoreFrameHeader => pos + (tmpInTarget - tmpInSize) + 4
      case StoreBlockHeader => pos + 4 - tmpInSize
      case CopyDirect => pos + tmpInTarget + info.CrcSize() + 4
      case GetBlockChecksum => pos + (4 - tmpInSize) + 4
      case GetCBlock => pos + tmpInTarget + 4
      case StoreCBlock => pos + (tmpInTarget - tmpInSize) + 4
      case _ => pos + 4
    }

    /** How much input a call asks for: up to the end of the next block header, or of the field that is being read. */
    ghost function Expected(): int
      reads `stage, `info, `pos, `tmpInSize, `tmpInTarget
    {
      match stage
      case GetFrameHeader => MIN_HEADER
      case StoreCBlock => Due() - pos + info.CrcSize()
      case GetBlockChecksum => 1
      case StoreSuffix => 4 - tmpInSize
      case StoreSFrameSize => tmpInTarget - tmpInSize
      case SkipSkippable => tmpInTarget
      case _ => Due() - pos
    }

    /** Where what is being stored began; elsewhere the current position. */
    ghost function Began(): int
      reads `stage, `pos, `tmpInSize
    {
      if stage == StoreCBlock || stage == StoreFrameHeader then pos - tmpInSize else pos
    }

    ghost function Now(): Progress
      reads `stage, `info, `pos, `tmpInSize, `tmpInTarget
    {
      Progress(stage, Began(), Due())
    }

    ghost predicate Reading()
      reads `info, `user, `meaning, `pos, `out, `pending, `frameRemainingSize, `hashed, `blockHashed, `header, `tmpIn,
        `tmpInSize, `tmpInTarget, `maxBufferSize, `dict, `dictSize, `stage, `tmpInCapacity
    {
      && |header| == MAX_HEADER && |tmpIn| == tmpInCapacity && pos <= |stream|
      && match stage
         case GetFrameHeader => AtHeader()
         case StoreFrameHeader => StoringHeader()
         case Init => AtInit()
         case GetBlockHeader => AtBlock()
         case StoreBlockHeader => StoringBlockHeader()
         case CopyDirect => Copying()
         case GetBlockChecksum => StoringBlockChecksum()
         case GetCBlock => AtCBlock()
         case StoreCBlock => StoringCBlock()
         case FlushOut => Delivering()
         case GetSuffix => AtSuffix()
         case StoreSuffix => StoringSuffix()
         case GetSFrameSize => AtSkipSize()
         case StoreSFrameSize => StoringSkipSize()
         case SkipSkippable => Skipping()
    }

    /** `src` is the piece of the stream from `base` on, of which `sp` bytes have been read. */
    ghost predicate Feeds(src: seq<byte>, sp: nat)
      reads `pos, `base
    {
      sp <= |src| && pos == base + sp && base + |src| <= |stream| && stream[base..base + |src|] == src
    }

    /** Reads the next `n` bytes. */
    method Take(src: seq<byte>, sp: nat, n: nat) returns (piece: seq<byte>)
      requires Feeds(src, sp) && sp + n <= |src|
      modifies `pos
      ensures pos == old(pos) + n <= |stream| && Feeds(src, sp + n)
      ensures |piece| == n && piece == src[sp..sp + n] == stream[old(pos)..pos]
    {
      SubSlice(stream, base, |src|, sp, sp + n);
      pos := pos + n;
      piece := src[sp..sp + n];
    }

    lemma AllAhead(src: seq<byte>, sp: nat)
      requires Feeds(src, sp)
      ensures pos + |src| - sp <= |stream| && src[sp..] == stream[pos..pos + |src| - sp]
    {
      SubSlice(stream, base, |src|, sp, |src|);
    }

    lemma InStream(src: seq<byte>, sp: nat)
      requires Feeds(src, sp)
      ensures pos == base + sp <= |stream|
    {}

    lemma NothingYet(src: seq<byte>, sp: nat, buf: seq<byte>, k: nat)
      requires Feeds(src, sp) && k <= |buf|
      ensures Buffered(buf, k, k)
    {}

    // --- The frame header ---

    /** Input kept in the header buffer, as the stages that store there describe it. */
    lemma HeaderStored(src: seq<byte>)
      requires MIN_HEADER <= |src| <= pos <= |stream| && |src| <= |header| == MAX_HEADER
      requires src == header[..|src|] == stream[pos - |src|..pos]
      ensures Buffered(header, 0, |src|) && Buffered(header, 4, |src|)
      ensures ReadLE32(header, 0) == ReadLE32(src, 0) && header[4] == src[4]
    {
      hide ReadLE32;
      FieldInPrefix(header, |src|);
      SubSlice(stream, pos - |src|, |src|, 4, |src|);
      SubSlice(header, 0, |src|, 4, |src|);
    }

    /** LZ4F_decodeHeader, on the caller's bytes or on those stored in `header`. */
    method DecodeHeader(src: seq<byte>, stored: bool) returns (n: int)
      requires |header| == MAX_HEADER && pos <= |stream| && AtFrameStart() && MIN_HEADER <= |src|
      requires stored ==> |src| <= pos && |src| <= MAX_HEADER && src == header[..|src|] == stream[pos - |src|..pos]
      requires stored ==> |src| == MIN_HEADER || SizeKnown(header, |src|)
      requires stored ==> Leads(meaning, FrameFrom(xxh, user, stream, pos - |src|))
      requires !stored ==> MAX_HEADER <= |src| && pos + |src| <= |stream| && src == stream[pos..pos + |src|]
      requires !stored ==> Leads(meaning, FrameFrom(xxh, user, stream, pos))
      modifies `stage, `info, `frameRemainingSize, `tmpInSize, `tmpInTarget, `pos
      ensures n < 0 ==> !Acceptable(meaning)
      ensures n >= 0 ==>
        match stage
        case Init => AtInit() && (!stored ==> MIN_HEADER <= n)
        case StoreFrameHeader => StoringHeader() && stored && tmpInSize == |src| <= tmpInTarget
        case GetSFrameSize => AtSkipSize() && !stored
        case StoreSFrameSize => StoringSkipSize() && stored
        case _ => false
      ensures pos <= |stream| && (n >= 0 && !stored ==> 0 < n <= |src|)
      ensures pos == old(pos) + (if stored || n < 0 then 0 else n)
    {
      hide BlocksFrom, SkipSizeFrom, ParseHeader, ReadLE32, HeaderSizeOf, FrameFrom, Buffered, Leads, FrameInfo.Valid,
        Acceptable;
      ghost var at := if stored then pos - |src| else pos;
      ParsePrefix(xxh, stream, at, src);
      FrameByHeader(xxh, user, stream, at);
      LeadsBad(meaning);
      if stored {
        HeaderStored(src);
      }
      var h := ParseHeader(xxh, src, 0);
      info := FrameInfo(true, false, false, 0, 0, 0);
      match h
      case HeaderSkippable =>
        if stored {
          tmpInSize, tmpInTarget, stage := |src|, 8, StoreSFrameSize;
          n := |src|;
        } else {
          stage := GetSFrameSize;
          pos := pos + 4;
          n := 4;
        }
      case HeaderBad =>
        n := -1;
      case HeaderShort =>
        tmpInSize, tmpInTarget, stage := |src|, HeaderSizeOf(src[4]), StoreFrameHeader;
        n := |src|;
      case HeaderOk(i, size) =>
        info, frameRemainingSize, stage := i, i.contentSize, Init;
        n := size;
        if !stored {
          pos := pos + size;
        }
    }

    // --- Stages that only read ---

    /** A stage in which more input is needed. */
    ghost predicate Unfinished()
      reads `stage, `tmpInTarget
    {
      stage != Init && stage != GetSuffix && (stage == SkipSkippable ==> tmpInTarget > 0)
    }

    /** What a reading step has done; it waits only for input, or because the output is full. */
    twostate predicate Advanced(src: seq<byte>, sp: nat, full: bool, step: Step, sp': nat)
      reads this
    {
      && sp <= sp' <= |src| && Feeds(src, sp') && |header| == MAX_HEADER
      && (step.Fail? ==> !Acceptable(meaning))
      && (step.Wait? ==> (sp' == |src| || full) && step.hint == Expected() && Unfinished())
      && (step.Again? ==> sp < sp' || stage.Rank() < old(stage).Rank())
      && (step.Complete? ==> Leads(meaning, Frame(out, pos, true, true)))
    }

    method StoreInHeader(src: seq<byte>, sp: nat, n: nat, ghost from: nat)
      requires sp <= |src| && Feeds(src, sp) && sp + n <= |src| && Buffered(header, from, tmpInSize)
      requires tmpInSize + n <= |header|
      modifies `header, `tmpInSize, `pos
      ensures Feeds(src, sp + n) && tmpInSize == old(tmpInSize) + n && pos == old(pos) + n
      ensures |header| == |old(header)| && Buffered(header, from, tmpInSize)
      ensures old(tmpInSize) >= MIN_HEADER && SizeKnown(old(header), tmpInTarget) ==> SizeKnown(header, tmpInTarget)
    {
      hide SizeKnown, Patch;
      ghost var at := pos;
      var piece := Take(src, sp, n);
      Refilled(stream, at, header, from, tmpInSize, piece);
      header := Patch(header, tmpInSize, piece);
      tmpInSize := tmpInSize + n;
    }

    method StoreInTmp(src: seq<byte>, sp: nat, n: nat)
      requires sp <= |src| && Feeds(src, sp) && sp + n <= |src| && Buffered(tmpIn, 0, tmpInSize)
      requires tmpInSize + n <= |tmpIn|
      modifies `tmpIn, `tmpInSize, `pos
      ensures Feeds(src, sp + n) && tmpInSize == old(tmpInSize) + n && pos == old(pos) + n
      ensures |tmpIn| == |old(tmpIn)| && Buffered(tmpIn, 0, tmpInSize)
    {
      hide SizeKnown, Patch;
      ghost var at := pos;
      var piece := Take(src, sp, n);
      Refilled(stream, at, tmpIn, 0, tmpInSize, piece);
      tmpIn := Patch(tmpIn, tmpInSize, piece);
      tmpInSize := tmpInSize + n;
    }

    lemma Elsewhere()
      ensures Now() == Progress(stage, Began(), Due())
      ensures stage != StoreCBlock && stage != StoreFrameHeader ==> Began() == pos
    {}

    lemma HeaderDone(a: Progress)
      requires a.stage == GetFrameHeader && a.due == a.began + MIN_HEADER + 4 && a.began <= pos
      requires (stage == Init && a.began + MIN_HEADER <= pos) || stage == GetSFrameSize
      ensures Onward(a, Now())
    {}

    lemma NothingSeen(a: Progress)
      requires a.stage == stage == GetFrameHeader && a.due == Due() && a.began == pos
      ensures Onward(a, Now()) && Expected() == MIN_HEADER
    {}

    lemma FromStart(a: Progress, b: Progress)
      requires a.stage == GetFrameHeader && Onward(a.(stage := StoreFrameHeader), b)
      ensures Onward(a, b)
    {}

    method StepGetFrameHeader(src: seq<byte>, sp: nat) returns (step: Step, sp': nat)
      requires sp <= |src| && Feeds(src, sp) && AtHeader() && |header| == MAX_HEADER && stage == GetFrameHeader
      modifies `stage, `info, `frameRemainingSize, `tmpInSize, `tmpInTarget, `header, `pos
      ensures Advanced(src, sp, false, step, sp') && !step.Complete?
      ensures step.Again? || step.Wait? ==> Onward(old(Now()), Now())
      ensures step.Again? || step.Wait? ==>
        match stage
        case Init => AtInit()
        case StoreFrameHeader => StoringHeader()
        case GetSFrameSize => AtSkipSize()
        case StoreSFrameSize => StoringSkipSize()
        case GetFrameHeader => AtHeader()
        case _ => false
    {
      hide FrameFrom, BlocksFrom, SkipSizeFrom, SizeKnown, Leads, Acceptable, AtInit, AtSkipSize, StoringSkipSize,
        Onward, Now, Expected;
      ghost var a := Now();
      Elsewhere();
      if |src| - sp >= MAX_HEADER {
        AllAhead(src, sp);
        var n := DecodeHeader(src[sp..], false);
        if n < 0 {
          return Fail, sp;
        }
        HeaderDone(a);
        return Again, sp + n;
      }
      tmpInSize := 0;
      if |src| == sp {
        NothingSeen(a);
        return Wait(MIN_HEADER), sp;
      }
      tmpInTarget := MIN_HEADER;
      stage := StoreFrameHeader;
      NothingYet(src, sp, header, 0);
      Elsewhere();
      assert Now() == a.(stage := StoreFrameHeader);
      step, sp' := StepStoreFrameHeader(src, sp);
      if !step.Fail? {
        FromStart(a, Now());
      }
    }

    method StepStoreFrameHeader(src: seq<byte>, sp: nat) returns (step: Step, sp': nat)
      requires sp <= |src| && Feeds(src, sp) && StoringHeader() && stage == StoreFrameHeader
      modifies `stage, `info, `frameRemainingSize, `tmpInSize, `tmpInTarget, `header, `pos
      ensures Advanced(src, sp, false, step, sp') && !step.Complete? && (|src| > sp ==> sp' > sp)
      ensures step.Again? || step.Wait? ==> Onward(old(Now()), Now())
      ensures step.Again? || step.Wait? ==>
        match stage
        case Init => AtInit()
        case StoreFrameHeader => StoringHeader()
        case StoreSFrameSize => StoringSkipSize()
        case _ => false
    {
      hide Feeds, FrameFrom, BlocksFrom, SkipSizeFrom, SizeKnown, Leads;
      var n := Min(tmpInTarget - tmpInSize, |src| - sp);
      StoreInHeader(src, sp, n, 0);
      sp' := sp + n;
      if tmpInSize < tmpInTarget {
        return Wait(tmpInTarget - tmpInSize + 4), sp';
      }
      var r := DecodeHeader(header[..tmpInTarget], true);
      step := if r < 0 then Fail else Again;
    }

    method StepGetSFrameSize(src: seq<byte>, sp: nat) returns (step: Step, sp': nat)
      requires sp <= |src| && Feeds(src, sp) && AtSkipSize() && |header| == MAX_HEADER && stage == GetSFrameSize
      modifies `stage, `info, `tmpInSize, `tmpInTarget, `header, `pos
      ensures Advanced(src, sp, false, step, sp') && !step.Complete?
      ensures step.Again? || step.Wait? ==>
        match stage
        case StoreSFrameSize => StoringSkipSize()
        case SkipSkippable => Skipping()
        case _ => false
    {
      hide Feeds, SkipFrom, Leads;
      if |src| - sp >= 4 {
        var four := Take(src, sp, 4);
        SkipSizeRead(four);
        return Again, sp + 4;
      }
      tmpInSize, tmpInTarget := 4, 8;
      stage := StoreSFrameSize;
      NothingYet(src, sp, header, 4);
      step, sp' := StepStoreSFrameSize(src, sp);
    }

    method StepStoreSFrameSize(src: seq<byte>, sp: nat) returns (step: Step, sp': nat)
      requires sp <= |src| && Feeds(src, sp) && StoringSkipSize() && stage == StoreSFrameSize
      modifies `stage, `info, `tmpInSize, `tmpInTarget, `header, `pos
      ensures Advanced(src, sp, false, step, sp') && !step.Complete?
      ensures step.Again? || step.Wait? ==>
        match stage
        case StoreSFrameSize => StoringSkipSize()
        case SkipSkippable => Skipping()
        case _ => false
    {
      hide Feeds, SkipSizeFrom, Leads, Skipping, Acceptable, AtFrameStart;
      var n := Min(tmpInTarget - tmpInSize, |src| - sp);
      StoreInHeader(src, sp, n, 4);
      sp' := sp + n;
      if tmpInSize < tmpInTarget {
        return Wait(tmpInTarget - tmpInSize), sp';
      }
      SkipSizeRead(header[4..8]);
      step := Again;
    }

    method SkipSizeRead(four: seq<byte>)
      requires 4 <= pos <= |stream| && AtFrameStart() && |four| == 4 && four == stream[pos - 4..pos]
      requires Leads(meaning, SkipSizeFrom(stream, pos - 4))
      modifies `stage, `info, `tmpInTarget
      ensures Skipping() && stage == SkipSkippable
    {
      hide SkipFrom;
      FieldInSlice(stream, pos - 4);
      var size := ReadLE32(four, 0);
      info := info.(contentSize := size);
      tmpInTarget := size;
      stage := SkipSkippable;
    }

    method StepSkipSkippable(src: seq<byte>, sp: nat) returns (step: Step, sp': nat)
      requires sp <= |src| && Feeds(src, sp) && Skipping() && |header| == MAX_HEADER && stage == SkipSkippable
      modifies `tmpInTarget, `pos
      ensures Advanced(src, sp, false, step, sp') && !step.Again? && (step.Wait? ==> Skipping())
    {
      hide Feeds;
      var n := Min(tmpInTarget, |src| - sp);
      tmpInTarget := tmpInTarget - n;
      var _ := Take(src, sp, n);
      sp' := sp + n;
      step := if tmpInTarget > 0 then Wait(tmpInTarget) else Complete;
    }

    ghost predicate Buffers()
      reads `tmpOutBuffer, `maxBufferSize, `tmpInCapacity, `allocatedFor
    {
      && tmpOutBuffer.Length == maxBufferSize
      && (maxBufferSize > 0 ==>
            && 4 <= allocatedFor <= 7 && BlockSize(allocatedFor) + 4 <= tmpInCapacity
            && maxBufferSize <= BlockSize(allocatedFor) + KB128)
    }

    /** Allocates buffers unless those of an earlier frame are large enough. */
    method Allocate()
      requires info.Valid() && Buffers() && |tmpIn| == tmpInCapacity
      modifies `maxBufferSize, `tmpIn, `tmpInCapacity, `tmpOutBuffer, `allocatedFor
      ensures Buffers() && info.MaxBlockSize() + 4 <= |tmpIn| == tmpInCapacity
      ensures info.MaxBlockSize() + (if info.linked then KB128 else 0) <= maxBufferSize
      ensures tmpOutBuffer == old(tmpOutBuffer) || fresh(tmpOutBuffer)
    {
      var needed := info.MaxBlockSize() + (if info.linked then KB128 else 0);
      if needed > maxBufferSize {
        tmpInCapacity := info.MaxBlockSize() + 4;
        tmpIn := seq(tmpInCapacity, _ => 0);
        tmpOutBuffer := new byte[needed];
        maxBufferSize := needed;
        allocatedFor := info.blockSizeID;
      }
    }

    method StepInit()
      requires AtInit() && Buffers() && |tmpIn| == tmpInCapacity && stage == Init
      modifies `hashed, `maxBufferSize, `tmpIn, `tmpInCapacity, `tmpOutBuffer, `tmpInSize, `tmpInTarget, `tmpOut,
        `tmpOutStart,
        `tmpOutSize, `stage, `allocatedFor
      ensures stage == GetBlockHeader && AtBlock() && Buffers() && tmpOut == 0 && |tmpIn| == tmpInCapacity
      ensures tmpOutBuffer == old(tmpOutBuffer) || fresh(tmpOutBuffer)
    {
      hide BlocksFrom, Leads, FrameInfo.MaxBlockSize, Buffers, Accounts;
      Allocate();
      Begin();
    }

    method Begin()
      requires AtInit() && stage == Init && info.MaxBlockSize() + 4 <= |tmpIn|
      requires info.MaxBlockSize() + (if info.linked then KB128 else 0) <= maxBufferSize
      modifies `hashed, `tmpInSize, `tmpInTarget, `tmpOut, `tmpOutStart, `tmpOutSize, `stage
      ensures stage == GetBlockHeader && AtBlock() && tmpOut == 0
    {
      hide AtInit, AtBlock, FrameInfo.MaxBlockSize;
      if info.contentChecksum {
        hashed := [];
      }
      tmpInSize, tmpInTarget := 0, 0;
      tmpOut, tmpOutStart, tmpOutSize := 0, 0, 0;
      stage := GetBlockHeader;
      BlocksFollow();
    }

    lemma BlocksFollow()
      requires AtInit() && info.MaxBlockSize() + 4 <= |tmpIn| && (info.contentChecksum ==> hashed == [])
      requires info.MaxBlockSize() + (if info.linked then KB128 else 0) <= maxBufferSize
      ensures AtBlock()
    {
      hide BlocksFrom, Leads, SizeLeft, FrameInfo.MaxBlockSize;
      NothingProduced(info.contentSize);
      assert out + pending == [];
    }

    method StepGetBlockHeader(src: seq<byte>, sp: nat, full: bool) returns (step: Step, sp': nat)
      requires sp <= |src| && Feeds(src, sp) && AtBlock() && |header| == MAX_HEADER && stage == GetBlockHeader
      modifies `stage, `tmpIn, `tmpInSize, `tmpInTarget, `blockHashed, `pos
      ensures Advanced(src, sp, full, step, sp') && !step.Complete? && |tmpIn| == |old(tmpIn)|
      ensures step.Again? || step.Wait? ==> BlockHeaderDone()
      ensures step.Again? || step.Wait? ==> if stage == StoreBlockHeader then Due() == old(Due()) else pos == old(Due())
      ensures step.Again? && stage == GetCBlock ==> sp' < |src|
    {
      hide Feeds, Accounts, BlocksFrom, Leads;
      if |src| - sp >= 4 {
        var four := Take(src, sp, 4);
        sp' := sp + 4;
        step := BlockHeaderRead(four, full || |src| == sp');
        return;
      }
      tmpInSize := 0;
      stage := StoreBlockHeader;
      NothingYet(src, sp, tmpIn, 0);
      step, sp' := StepStoreBlockHeader(src, sp, full);
    }

    ghost predicate BlockHeaderDone()
      reads this
    {
      match stage
      case StoreBlockHeader => StoringBlockHeader()
      case GetSuffix => AtSuffix()
      case CopyDirect => Copying()
      case GetCBlock => AtCBlock()
      case _ => false
    }

    method StepStoreBlockHeader(src: seq<byte>, sp: nat, full: bool) returns (step: Step, sp': nat)
      requires sp <= |src| && Feeds(src, sp) && StoringBlockHeader() && |header| == MAX_HEADER
      requires stage == StoreBlockHeader
      modifies `stage, `tmpIn, `tmpInSize, `tmpInTarget, `blockHashed, `pos
      ensures Advanced(src, sp, full, step, sp') && !step.Complete? && |tmpIn| == |old(tmpIn)|
      ensures step.Again? || step.Wait? ==> BlockHeaderDone()
      ensures step.Again? || step.Wait? ==> if stage == StoreBlockHeader then Due() == old(Due()) else pos == old(Due())
      ensures step.Again? && stage == GetCBlock ==> sp' < |src|
    {
      hide Feeds, Accounts, BlocksFrom, Leads;
      var n := Min(4 - tmpInSize, |src| - sp);
      StoreInTmp(src, sp, n);
      sp' := sp + n;
      if tmpInSize < 4 {
        return Wait(4 - tmpInSize), sp';
      }
      step := BlockHeaderRead(tmpIn[..4], full || |src| == sp');
    }

    method BlockHeaderRead(four: seq<byte>, stop: bool) returns (step: Step)
      requires InFrame() && pending == [] && 4 <= pos <= |stream| && |four| == 4 && four == stream[pos - 4..pos]
      requires Leads(meaning, BlocksFrom(Context(), pos - 4, out))
      modifies `stage, `tmpInTarget, `blockHashed
      ensures step.Fail? ==> !Acceptable(meaning)
      ensures step.Wait? ==> stop && step.hint == Expected() && stage == GetCBlock
      ensures step.Again? && stage == GetCBlock ==> !stop
      ensures !step.Complete? && !step.Fail? ==> BlockHeaderDone() && stage != StoreBlockHeader
      ensures !step.Complete?
    {
      hide Accounts, StoredFrom, CompressedFrom, SuffixFrom, ReadLE32;
      FieldInSlice(stream, pos - 4);
      var blockHeader := ReadLE32(four, 0);
      var size := blockHeader % UNCOMPRESSED_FLAG;
      assert Leads(meaning, BlockFrom(Context(), pos, blockHeader, out));
      if blockHeader == 0 {
        stage := GetSuffix;
        return Again;
      }
      if size > info.MaxBlockSize() {
        return Fail;
      }
      if blockHeader >= UNCOMPRESSED_FLAG {
        tmpInTarget := size;
        if info.blockChecksum {
          blockHashed := [];
        }
        SeenIrrelevant(Context(), pos, size, blockHashed, [], out);
        stage := CopyDirect;
        return Again;
      }
      tmpInTarget := size + info.CrcSize();
      stage := GetCBlock;
      return if stop then Wait(4 + size + info.CrcSize()) else Again;
    }

    method StepGetBlockChecksum(src: seq<byte>, sp: nat) returns (step: Step, sp': nat)
      requires sp <= |src| && Feeds(src, sp) && StoringBlockChecksum() && |header| == MAX_HEADER
      requires stage == GetBlockChecksum
      modifies `stage, `tmpInSize, `header, `pos
      ensures Advanced(src, sp, false, step, sp') && !step.Complete?
      ensures step.Wait? ==> stage == GetBlockChecksum && StoringBlockChecksum()
      ensures step.Again? ==> stage == GetBlockHeader && AtBlock()
      ensures step.Again? || step.Wait? ==> Due() == old(Due())
    {
      hide Feeds, SizeKnown, ReadLE32, Accounts, StoredChecksumFrom, BlocksFrom, Leads;
      if |src| - sp >= 4 && tmpInSize == 0 {
        var four := Take(src, sp, 4);
        sp' := sp + 4;
        step := BlockChecksumRead(four);
      } else {
        var n := Min(4 - tmpInSize, |src| - sp);
        StoreInHeader(src, sp, n, 0);
        sp' := sp + n;
        if tmpInSize < 4 {
          return Wait(1), sp';
        }
        step := BlockChecksumRead(header[..4]);
      }
    }

    method BlockChecksumRead(four: seq<byte>) returns (step: Step)
      requires InFrame() && pending == [] && info.blockChecksum
      requires 4 <= pos <= |stream| && |four| == 4 && four == stream[pos - 4..pos]
      requires Leads(meaning, StoredChecksumFrom(Context(), pos - 4, blockHashed, out))
      modifies `stage
      ensures step.Fail? ==> !Acceptable(meaning)
      ensures step.Fail? || (step.Again? && stage == GetBlockHeader && AtBlock())
    {
      hide Accounts, BlocksFrom, ReadLE32;
      FieldInSlice(stream, pos - 4);
      if ReadLE32(four, 0) != xxh(blockHashed) {
        return Fail;
      }
      stage := GetBlockHeader;
      step := Again;
    }

    method StepGetSuffix(src: seq<byte>, sp: nat) returns (step: Step, sp': nat)
      requires sp <= |src| && Feeds(src, sp) && AtSuffix() && |header| == MAX_HEADER && stage == GetSuffix
      modifies `stage, `tmpInSize, `tmpIn, `pos
      ensures Advanced(src, sp, false, step, sp') && !step.Again? && |tmpIn| == |old(tmpIn)|
      ensures step.Wait? ==> stage == StoreSuffix && StoringSuffix()
      ensures stage == GetSuffix || stage == StoreSuffix
    {
      hide Feeds, ContentChecksumFrom;
      if frameRemainingSize != 0 {
        return Fail, sp;
      }
      if !info.contentChecksum {
        return Complete, sp;
      }
      if |src| - sp < 4 {
        tmpInSize := 0;
        stage := StoreSuffix;
        NothingYet(src, sp, tmpIn, 0);
        step, sp' := StepStoreSuffix(src, sp);
      } else {
        var four := Take(src, sp, 4);
        sp' := sp + 4;
        step := CheckSuffix(four);
      }
    }

    lemma AllHashed()
      requires InFrame() && pending == [] && info.contentChecksum
      ensures hashed == out
    {}

    method StepStoreSuffix(src: seq<byte>, sp: nat) returns (step: Step, sp': nat)
      requires sp <= |src| && Feeds(src, sp) && StoringSuffix() && |header| == MAX_HEADER && stage == StoreSuffix
      modifies `tmpInSize, `tmpIn, `pos
      ensures Advanced(src, sp, false, step, sp') && !step.Again? && (step.Wait? ==> StoringSuffix())
      ensures |tmpIn| == |old(tmpIn)|
    {
      hide Feeds, ContentChecksumFrom, Leads, Acceptable, Accounts, Due;
      AllHashed();
      var n := Min(4 - tmpInSize, |src| - sp);
      StoreInTmp(src, sp, n);
      sp' := sp + n;
      if tmpInSize < 4 {
        return Wait(4 - tmpInSize), sp';
      }
      step := CheckSuffix(tmpIn[..4]);
    }

    method CheckSuffix(four: seq<byte>) returns (step: Step)
      requires 4 <= pos <= |stream| && |four| == 4 && four == stream[pos - 4..pos] && hashed == out
      requires Leads(meaning, ContentChecksumFrom(Context(), pos - 4, out))
      ensures step.Fail? ==> !Acceptable(meaning)
      ensures step.Fail? || (step.Complete? && Leads(meaning, Frame(out, pos, true, true)))
    {
      FieldInSlice(stream, pos - 4);
      step := if ReadLE32(four, 0) != xxh(hashed) then Fail else Complete;
    }

    /** The `copy` bytes of history that come before the block in tmpOut. */
    method HistoryPiece(dst: array<byte>, dp: nat, copy: nat, ghost h: seq<byte>) returns (piece: seq<byte>)
      requires Memory(dst, dp).Flushing(h, pending) && dict != InTmp
      requires copy == Min(if tmpOutSize > KB64 then 0 else KB64 - tmpOutSize, tmpOut)
      ensures tmpOutStart <= |h| && copy <= |h| - tmpOutStart && piece == Last(h[..|h| - tmpOutStart], copy)
      ensures tmpOut + tmpOutSize <= tmpOutBuffer.Length
    {
      hide Window, Last, Mem.Flushing, Mem.Dict;
      FlushingDict(Memory(dst, dp), h, pending, copy);
      if copy == 0 {
        return [];
      }
      var content := DictContent(dst);
      SameDict(dst, dp);
      piece := content[|content| - tmpOutStart - copy..|content| - tmpOutStart];
    }

    /** Copies as much history in front of tmpOut as the block there leaves room for in 64 KB. */
    method PreserveInFront(dst: array<byte>, dp: nat, ghost h: seq<byte>)
      requires dst != tmpOutBuffer && Memory(dst, dp).Flushing(h, pending) && dict != InTmp
      modifies `dict, `dictSize, tmpOutBuffer
      ensures dict == InTmp && dictSize == tmpOut + tmpOutStart && Memory(dst, dp).Flushing(h, pending)
    {
      hide Window, Last, Mem.Flushing, Mem.Dict, SameOutside;
      ghost var m := Memory(dst, dp);
      var copy := Min(if tmpOutSize > KB64 then 0 else KB64 - tmpOutSize, tmpOut);
      var piece := HistoryPiece(dst, dp, copy, h);
      CopyPiece(tmpOutBuffer, tmpOut - copy, piece);
      dict := InTmp;
      dictSize := tmpOut + tmpOutStart;
      Fronted(m, Memory(dst, dp), h, pending, copy);
    }

    /** LZ4F_updateDict: `n` bytes at `dp` join the history. They were either produced in place,
        or are the next ones of the block in tmpOut. */
    method UpdateDict(dst: array<byte>, dp: nat, n: nat, withinTmp: bool, ghost h: seq<byte>)
      requires dst != tmpOutBuffer && dp + n <= dst.Length && KB64 + KB128 <= tmpOutBuffer.Length == maxBufferSize
      requires EndsWith(h, dst[..dp])
      requires !withinTmp ==> Memory(dst, dp).Idle(h)
      requires withinTmp ==>
        Memory(dst, dp).Flushing(h, pending) && n <= |pending| && dst[dp..dp + n] == pending[..n]
      modifies `dict, `dictSize, tmpOutBuffer
      ensures !withinTmp ==> Memory(dst, dp + n).Idle(h + dst[dp..dp + n])
      ensures withinTmp ==>
        Memory(dst, dp + n).(tmpOutStart := tmpOutStart + n).Flushing(h + dst[dp..dp + n], pending[n..])
    {
      hide Window, Last, Mem.Flushing, Mem.Block, Mem.Dict, EndsWith;
      assert dst[..][..dp] == dst[..dp] && dst[..][dp..dp + n] == dst[dp..dp + n];
      if dictSize == 0 {
        NoHistory(Memory(dst, dp), h, pending, withinTmp);
        dict := InDst(dp);
      }
      ghost var m := Memory(dst, dp);
      if withinTmp {
        InsideFlush(m, h, pending);
      }
      if dict.InDst? && dict.at + dictSize == dp {
        dictSize := dictSize + n;
        GrownInDst(m, h, n);
        NowInDst(m, Memory(dst, dp + n), h, dst[dp..dp + n], pending, withinTmp);
        return;
      }
      if dp + n >= KB64 {
        dict := InDst(0);
        dictSize := dp + n;
        MovedToDst(m, h, n);
        NowInDst(m, Memory(dst, dp + n), h, dst[dp..dp + n], pending, withinTmp);
        return;
      }
      if withinTmp {
        if dict != InTmp {
          PreserveInFront(dst, dp, h);
        }
        FlushedInTmp(Memory(dst, dp), h, dst[dp..dp + n], pending, n);
        dictSize := dictSize + n;
        return;
      }
      SaveToTmp(dst, dp, n, h);
    }

    /** The history and the new bytes, as much of them as matters, go to the front of tmpOutBuffer. */
    method SaveToTmp(dst: array<byte>, dp: nat, n: nat, ghost h: seq<byte>)
      requires dst != tmpOutBuffer && dp + n <= dst.Length && n < KB64
      requires KB64 + KB128 <= tmpOutBuffer.Length == maxBufferSize
      requires Memory(dst, dp).Idle(h)
      modifies `dict, `dictSize, tmpOutBuffer
      ensures Memory(dst, dp + n).Idle(h + dst[dp..dp + n])
    {
      hide Window, Last, Mem.Dict, SameOutside;
      ghost var m := Memory(dst, dp);
      var preserve: nat := if dict == InTmp && dictSize + n <= maxBufferSize then dictSize else Min(KB64 - n, dictSize);
      KeepLast(dst, dp, preserve);
      ghost var t := tmpOutBuffer[..];
      CopyPiece(tmpOutBuffer, preserve, dst[dp..dp + n]);
      SegmentKept(t, tmpOutBuffer[..], 0, preserve, preserve, preserve + n);
      dict := InTmp;
      dictSize := preserve + n;
      JoinedInTmp(m, Memory(dst, dp + n), h, dst[dp..dp + n], preserve);
    }

    /** Puts the last `k` bytes of the dictionary at the front of tmpOutBuffer. */
    method KeepLast(dst: array<byte>, dp: nat, k: nat)
      requires dst != tmpOutBuffer && Memory(dst, dp).InRange() && k <= dictSize && k <= tmpOutBuffer.Length
      requires dict == InTmp ==> k == dictSize || 2 * k <= dictSize
      modifies tmpOutBuffer
      ensures tmpOutBuffer[..][..k] == Last(old(Memory(dst, dp).Dict()), k)
    {
      if dict != InTmp {
        var content := DictContent(dst);
        SameDict(dst, dp);
        CopyPiece(tmpOutBuffer, 0, content[|content| - k..]);
      } else if k < dictSize {
        Copy(tmpOutBuffer, 0, dictSize - k, k);
      }
    }

    // --- Stages that produce ---

    /** The end of the output is in `dst`, and a block can be decoded behind the history. */
    ghost predicate Between(dst: array<byte>, dp: nat)
      reads `info, `out, `user, `dict, `dictSize, `tmpOutBuffer, `tmpOut, `tmpOutSize, `tmpOutStart,
        `maxBufferSize, `tmpInCapacity, `allocatedFor, tmpOutBuffer, dst
    {
      && dst != tmpOutBuffer && dp <= dst.Length && EndsWith(out, dst[..dp]) && Buffers()
      && (if info.linked then Memory(dst, dp).Idle(user + out) else Memory(dst, dp).Independent(user))
    }

    /** The same, with `pending` still in tmpOut. */
    ghost predicate Midway(dst: array<byte>, dp: nat)
      reads `info, `out, `pending, `user, `dict, `dictSize, `tmpOutBuffer, `tmpOut, `tmpOutSize, `tmpOutStart,
        `maxBufferSize, `tmpInCapacity, `allocatedFor, tmpOutBuffer, dst
    {
      && dst != tmpOutBuffer && dp <= dst.Length && EndsWith(out, dst[..dp]) && Buffers()
      && MidwayIn(Memory(dst, dp))
    }

    ghost predicate MidwayIn(m: Mem)
      reads `info, `user, `out, `pending
    {
      if info.linked then m.Flushing(user + out, pending)
      else m.Independent(user) && m.HasBlock() && pending == m.Block()[m.tmpOutStart..]
    }

    method Count(piece: seq<byte>)
      requires Accounts()
      modifies `hashed, `frameRemainingSize
      ensures frameRemainingSize == SizeLeft(info.contentSize, |out| + |pending| + |piece|)
      ensures info.contentChecksum ==> hashed == out + pending + piece
    {
      MoreProduced(info.contentSize, |out| + |pending|, |piece|);
      if info.contentChecksum {
        hashed := hashed + piece;
      }
      if info.contentSize != 0 {
        frameRemainingSize := (frameRemainingSize - |piece|) % TWO64;
      }
    }

    /** `n` bytes at `dp` are the next ones of the content: sizes, checksum and history follow. */
    method Account(dst: array<byte>, dp: nat, n: nat)
      requires InFrame() && pending == [] && Between(dst, dp) && dp + n <= dst.Length
      modifies `hashed, `frameRemainingSize, `dict, `dictSize, `out, tmpOutBuffer
      ensures InFrame() && Between(dst, dp + n) && out == old(out) + dst[dp..dp + n]
    {
      hide SizeLeft, Mem.Idle, EndsWith, FrameInfo.MaxBlockSize, Buffers;
      ghost var p := dst[dp..dp + n];
      if info.linked {
        BuffersSized();
      }
      assert out + pending == out;
      Count(dst[dp..dp + n]);
      if info.linked {
        EndsInLonger(user, out, dst[..dp]);
        UpdateDict(dst, dp, n, false, user + out);
        Regrouped(user, out, p);
      }
      assert EndsWith(out + p, dst[..dp + n]) by {
        TailGrows(out, dst[..dp], p);
        assert dst[..dp + n] == dst[..dp] + p;
      }
      out := out + p;
      assert out + pending == out;
    }

    lemma BuffersSized()
      requires Buffers() && InFrame() && info.linked
      ensures KB64 + KB128 <= tmpOutBuffer.Length == maxBufferSize
    {}

    lemma StillBetween(dst: array<byte>, dp: nat, was: Mem, to: nat)
      requires dst != tmpOutBuffer && was.dp == dp <= dst.Length == |was.dst| && Buffers()
      requires Memory(dst, dp) == was.(dst := dst[..]) && SameOutside(was.dst, dst[..], dp, to)
      requires EndsWith(out, was.dst[..dp]) && (if info.linked then was.Idle(user + out) else was.Independent(user))
      ensures Between(dst, dp) && Memory(dst, dp).Dict() == was.Dict() && dst[..dp] == was.dst[..dp]
    {
      hide Window, EndsWith, SameOutside, Mem.Dict;
      WrittenBehind(was, dst[..], to);
      assert dst[..][..dp] == dst[..dp];
    }

    /** What a producing step has done. */
    twostate predicate Produced(src: seq<byte>, sp: nat, dst: array<byte>, dp: nat, step: Step, sp': nat, dp': nat)
      reads this, dst
    {
      && sp <= sp' <= |src| && Feeds(src, sp') && dp <= dp' <= dst.Length && dst[..dp] == old(dst[..dp])
      && (step.Fail? ==> !Acceptable(meaning))
      && (!step.Fail? ==> out == old(out) + dst[dp..dp'])
      && (step.Wait? ==> (sp' == |src| || dp' == dst.Length) && step.hint == Expected())
      && (step.Again? ==> sp < sp' || stage.Rank() < old(stage).Rank())
      && !step.Complete? && (!step.Fail? ==> Onward(old(Now()), Now()))
    }

    method CopyOut(dst: array<byte>, dp: nat, piece: seq<byte>)
      requires InFrame() && pending == [] && Between(dst, dp) && dp + |piece| <= dst.Length
      modifies `hashed, `frameRemainingSize, `dict, `dictSize, `out, tmpOutBuffer, dst
      ensures InFrame() && Between(dst, dp + |piece|) && out == old(out) + piece
      ensures dst[..dp] == old(dst[..dp]) && dst[dp..dp + |piece|] == piece
    {
      hide InFrame, SameOutside, EndsWith, Window, Mem.Idle, Mem.Independent;
      ghost var was := Memory(dst, dp);
      CopyPiece(dst, dp, piece);
      assert dst[..][dp..dp + |piece|] == dst[dp..dp + |piece|];
      StillBetween(dst, dp, was, dp + |piece|);
      Account(dst, dp, |piece|);
    }

    /** After `n` more bytes of a stored block. */
    method StoredAdvance(n: nat) returns (step: Step)
      requires InFrame() && pending == [] && n <= tmpInTarget <= info.MaxBlockSize() && pos <= |stream|
      requires Leads(meaning, StoredFrom(Context(), pos, tmpInTarget - n, blockHashed, out)) && stage == CopyDirect
      modifies `stage, `tmpInSize, `tmpInTarget
      ensures
        match stage
        case CopyDirect =>
          && Copying() && step.Wait? && step.hint == Expected() && n < old(tmpInTarget)
          && Due() == old(Due()) - n
        case GetBlockChecksum => step.Again? && StoringBlockChecksum() && Due() == old(Due()) - n
        case GetBlockHeader => step.Again? && AtBlock() && Due() == old(Due()) - n
        case _ => false
    {
      hide InFrame, BlocksFrom, StoredFrom;
      if n == tmpInTarget {
        StoredDone(Context(), pos, blockHashed, out);
        if info.blockChecksum {
          tmpInSize := 0;
          stage := GetBlockChecksum;
        } else {
          stage := GetBlockHeader;
        }
        return Again;
      }
      tmpInTarget := tmpInTarget - n;
      step := Wait(tmpInTarget + info.CrcSize() + 4);
    }

    /** The copying part of the stage: as much of the block as there is input and room for. */
    method CopySome(src: seq<byte>, sp: nat, dst: array<byte>, dp: nat) returns (n: nat)
      requires sp <= |src| && Feeds(src, sp) && dp <= dst.Length && Copying() && Between(dst, dp)
      modifies `blockHashed, `hashed, `frameRemainingSize, `dict, `dictSize, `out, `pos, tmpOutBuffer, dst
      ensures n == Min(tmpInTarget, Min(|src| - sp, dst.Length - dp)) && Feeds(src, sp + n) && Between(dst, dp + n)
      ensures dst[..dp] == old(dst[..dp]) && out == old(out) + dst[dp..dp + n] && InFrame() && pos <= |stream|
      ensures pos == old(pos) + n
      ensures Leads(meaning, StoredFrom(Context(), pos, tmpInTarget - n, blockHashed, out))
    {
      hide StoredFrom, Between, InFrame, Feeds, Leads;
      n := Min(tmpInTarget, Min(|src| - sp, dst.Length - dp));
      ghost var e, at, seen := Context(), pos, blockHashed;
      var piece := Take(src, sp, n);
      StoredPiece(e, at, tmpInTarget, seen, out, n);
      seen := seen + piece;
      CopyOut(dst, dp, piece);
      if info.blockChecksum {
        blockHashed := blockHashed + piece;
      }
      SeenIrrelevant(Context(), pos, tmpInTarget - n, seen, blockHashed, out);
    }

    method StepCopyDirect(src: seq<byte>, sp: nat, dst: array<byte>, dp: nat) returns (step: Step, sp': nat, dp': nat)
      requires sp <= |src| && Feeds(src, sp) && dp <= dst.Length && Copying() && Between(dst, dp) && stage == CopyDirect
      modifies `stage, `tmpInSize, `tmpInTarget, `blockHashed, `hashed, `frameRemainingSize, `dict, `dictSize, `out,
        `pos,
        tmpOutBuffer, dst
      ensures Produced(src, sp, dst, dp, step, sp', dp') && !step.Fail? && Between(dst, dp')
      ensures
        match stage
        case CopyDirect => Copying()
        case GetBlockChecksum => step.Again? && StoringBlockChecksum()
        case GetBlockHeader => step.Again? && AtBlock()
        case _ => false
    {
      hide StoredFrom, Between, InFrame, Feeds, Leads;
      var n := CopySome(src, sp, dst, dp);
      sp', dp' := sp + n, dp + n;
      step := StoredAdvance(n);
    }

    /** The dictionary for a block at `dp` of dst, or in tmpOut: as a prefix, or as bytes elsewhere. */
    method ChooseDict(dst: array<byte>, dp: nat, intoDst: bool) returns (prefix: nat, ext: seq<byte>)
      requires Between(dst, dp) && (!intoDst && dict == InTmp ==> tmpOut == dictSize)
      ensures prefix == 0 || ext == []
      ensures intoDst ==> prefix <= dp && Window(ext + dst[dp - prefix..dp], Context().Hist(out))
      ensures !intoDst ==>
        prefix <= tmpOut && (prefix > 0 ==> tmpOut <= tmpOutBuffer.Length)
        && Window(ext + (if prefix > 0 then tmpOutBuffer[tmpOut - prefix..tmpOut] else []), Context().Hist(out))
    {
      hide Window, EndsWith, Last;
      ghost var e, h := Memory(dst, dp).Dict(), Context().Hist(out);
      assert Window(e, h) by { SelfWindow(user); }
      if intoDst && dict.InDst? {
        prefix, ext := if dictSize > GB then KB64 else dictSize, [];
        assert [] + dst[dp - prefix..dp] == Last(e, prefix) by { EndOfSlice(dst[..], dict.at, dp, prefix); }
        if dictSize > GB {
          WindowCut(e, h, KB64);
        } else {
          AllOfIt(e);
        }
      } else if !intoDst && dict == InTmp {
        prefix, ext := dictSize, [];
        assert [] + (if prefix > 0 then tmpOutBuffer[tmpOut - prefix..tmpOut] else []) == e;
      } else {
        ext, prefix := DictContent(dst), 0;
        SameDict(dst, dp);
        if |ext| > GB {
          WindowCut(e, h, KB64);
          ext := ext[|ext| - KB64..];
          assert ext == Last(e, KB64) by { LastIs(e, KB64); }
        }
        assert ext + dst[dp - prefix..dp] == ext && ext + [] == ext;
      }
    }

    /** Decodes a block directly into the destination. */
    method DecodeToDst(block: seq<byte>, dst: array<byte>, dp: nat) returns (step: Step, dp': nat)
      requires InFrame() && pending == [] && Between(dst, dp) && dp + info.MaxBlockSize() <= dst.Length
      requires Leads(meaning, DecodedFrom(Context(), pos, block, out))
      modifies `stage, `hashed, `frameRemainingSize, `dict, `dictSize, `out, tmpOutBuffer, dst
      ensures dp <= dp' <= dst.Length && dst[..dp] == old(dst[..dp])
      ensures step.Fail? ==> !Acceptable(meaning)
      ensures step.Fail? ||
        (step.Again? && stage == GetBlockHeader && AtBlock() && Between(dst, dp') && out == old(out) + dst[dp..dp'])
    {
      hide InFrame, Window, Decode, EndsWith, BlocksFrom, DecodedFrom, Leads, Acceptable, Between,
        FrameInfo.MaxBlockSize;
      BetweenRoom(dst, dp);
      var r;
      ghost var d;
      r, d := DecodeDirectly(block, dst, dp);
      if r < 0 {
        BlockRefused(Context(), pos, block, out, d, meaning);
        return Fail, dp;
      }
      BlockDecoded(Context(), pos, block, out, d, dst[dp..dp + r], meaning);
      Account(dst, dp, r);
      stage := GetBlockHeader;
      return Again, dp + r;
    }

    method DecodeDirectly(block: seq<byte>, dst: array<byte>, dp: nat) returns (r: int, ghost d: seq<byte>)
      requires Between(dst, dp) && dp + info.MaxBlockSize() <= dst.Length
      modifies dst
      ensures Between(dst, dp) && Window(d, Context().Hist(out)) && dst[..dp] == old(dst[..dp])
      ensures r <= info.MaxBlockSize()
      ensures r >= 0 ==> Decode(block, 0, d).Decoded? && Decode(block, 0, d).out == d + dst[dp..dp + r]
      ensures if r < 0 then !TakenAlways(block, d, info.MaxBlockSize()) else TakenEver(block, d, info.MaxBlockSize())
    {
      hide Window, Decode, SameOutside, EndsWith, Mem.Idle, Mem.Independent, Env.Hist, FrameInfo.MaxBlockSize, Buffers,
        TakenAlways, TakenEver;
      ghost var was := Memory(dst, dp);
      var prefix, ext := ChooseDict(dst, dp, true);
      d := ext + dst[dp - prefix..dp];
      r := DecompressUsingDict(dst, dp, info.MaxBlockSize(), block, prefix, ext);
      StillBetween(dst, dp, was, dp + info.MaxBlockSize());
    }

    /** Makes room behind the dictionary in tmpOutBuffer, or for a dictionary that is elsewhere. */
    method PlaceTmpOut(dst: array<byte>, dp: nat)
      requires InFrame() && Between(dst, dp)
      modifies `tmpOut, `dictSize, tmpOutBuffer
      ensures Between(dst, dp) && Placed(Memory(dst, dp)) && tmpOut + info.MaxBlockSize() <= tmpOutBuffer.Length
    {
      hide Window, EndsWith, Last;
      if info.linked {
        if dict == InTmp {
          ghost var m := Memory(dst, dp);
          if dictSize > KB128 {
            WindowCut(m.Dict(), user + out, KB64);
            KeepLast(dst, dp, KB64);
            dictSize := KB64;
          }
          tmpOut := dictSize;
        } else {
          tmpOut := Min(dictSize, KB64);
        }
      }
    }

    /** Decodes a block into tmpOut, to be delivered from there. */
    method DecodeToTmp(block: seq<byte>, dst: array<byte>, dp: nat) returns (step: Step)
      requires InFrame() && pending == [] && Between(dst, dp)
      requires Leads(meaning, DecodedFrom(Context(), pos, block, out))
      modifies `stage, `hashed, `frameRemainingSize, `dictSize, `tmpOut, `tmpOutSize, `tmpOutStart, `pending,
        tmpOutBuffer
      ensures step.Fail? ==> !Acceptable(meaning)
      ensures step.Fail? || (step.Again? && stage == FlushOut && Delivering() && Midway(dst, dp))
    {
      hide InFrame, Window, Decode, SameOutside, EndsWith, BlocksFrom, DecodedFrom, Leads, Acceptable, Midway, Buffers,
        Between,
        Placed, FrameInfo.MaxBlockSize, Env.Hist;
      PlaceTmpOut(dst, dp);
      ghost var m := Memory(dst, dp);
      BetweenRoom(dst, dp);
      var r;
      ghost var d;
      r, d := DecodeBehind(block, dst, dp);
      if r < 0 {
        BlockRefused(Context(), pos, block, out, d, meaning);
        return Fail;
      }
      BlockDecoded(Context(), pos, block, out, d, tmpOutBuffer[tmpOut..tmpOut + r], meaning);
      TmpFilled(dst, dp, m, r);
      step := Again;
    }

    /** The buffers before a block is decoded into tmpOut. */
    ghost predicate Placed(m: Mem)
      reads `info, `user, `out
    {
      if info.linked then
        m.Idle(user + out) && m.tmpOut == (if m.dict == InTmp then m.dictSize else Min(m.dictSize, KB64))
      else m.Independent(user)
    }

    method DecodeBehind(block: seq<byte>, dst: array<byte>, dp: nat) returns (r: int, ghost d: seq<byte>)
      requires Between(dst, dp) && Placed(Memory(dst, dp)) && tmpOut + info.MaxBlockSize() <= tmpOutBuffer.Length
      modifies tmpOutBuffer
      ensures dst != tmpOutBuffer && dp <= dst.Length && EndsWith(out, dst[..dp]) && Buffers()
      ensures r <= info.MaxBlockSize()
      ensures SameOutside(old(tmpOutBuffer[..]), tmpOutBuffer[..], tmpOut, tmpOut + info.MaxBlockSize())
      ensures Window(d, Context().Hist(out))
      ensures r >= 0 ==> Decode(block, 0, d).Decoded? && Decode(block, 0, d).out == d + tmpOutBuffer[tmpOut..tmpOut + r]
      ensures if r < 0 then !TakenAlways(block, d, info.MaxBlockSize()) else TakenEver(block, d, info.MaxBlockSize())
    {
      hide Window, Decode, SameOutside, EndsWith, Mem.Idle, Env.Hist, FrameInfo.MaxBlockSize, Buffers, TakenAlways,
        TakenEver;
      var prefix, ext := ChooseDict(dst, dp, false);
      d := ext + tmpOutBuffer[tmpOut - prefix..tmpOut];
      assert d == ext + (if prefix > 0 then tmpOutBuffer[tmpOut - prefix..tmpOut] else []);
      r := DecompressUsingDict(tmpOutBuffer, tmpOut, info.MaxBlockSize(), block, prefix, ext);
    }

    method TmpFilled(dst: array<byte>, dp: nat, ghost m: Mem, r: nat)
      requires InFrame() && pending == [] && dst != tmpOutBuffer && dp <= dst.Length && EndsWith(out, dst[..dp])
      requires Buffers()
      requires Placed(m) && Memory(dst, dp) == m.(tmp := tmpOutBuffer[..]) && |m.tmp| == tmpOutBuffer.Length
      requires r <= info.MaxBlockSize() && tmpOut + info.MaxBlockSize() <= |m.tmp|
      requires SameOutside(m.tmp, tmpOutBuffer[..], tmpOut, tmpOut + info.MaxBlockSize())
      requires Leads(meaning, BlocksFrom(Context(), pos, out + tmpOutBuffer[tmpOut..tmpOut + r]))
      modifies `stage, `hashed, `frameRemainingSize, `tmpOutSize, `tmpOutStart, `pending
      ensures stage == FlushOut && Delivering() && Midway(dst, dp)
    {
      hide InFrame, Window, SameOutside, EndsWith, BlocksFrom, Leads, Placed, FrameInfo.MaxBlockSize, Buffers, MidwayIn;
      var b := tmpOutBuffer[tmpOut..tmpOut + r];
      CountBlock(b);
      tmpOutSize, tmpOutStart := r, 0;
      stage := FlushOut;
      assert Memory(dst, dp).tmp[tmpOut..tmpOut + r] == b;
      MidwayStarts(m, Memory(dst, dp), tmpOut + info.MaxBlockSize());
    }

    method CountBlock(b: seq<byte>)
      requires InFrame() && pending == []
      modifies `hashed, `frameRemainingSize, `pending
      ensures InFrame() && pending == b
    {
      hide SizeLeft, FrameInfo.MaxBlockSize;
      assert out + pending + b == out + b;
      Count(b);
      pending := b;
    }

    lemma MidwayStarts(m: Mem, m': Mem, to: nat)
      requires Placed(m)
      requires m' == m.(tmp := m'.tmp, tmpOutSize := m'.tmpOutSize, tmpOutStart := 0) && |m'.tmp| == |m.tmp|
      requires m.tmpOut + m'.tmpOutSize <= to <= |m.tmp| && SameOutside(m.tmp, m'.tmp, m.tmpOut, to)
      requires pending == m'.tmp[m'.tmpOut..m'.tmpOut + m'.tmpOutSize]
      ensures MidwayIn(m')
    {
      hide Window, SameOutside, Mem.Idle, Mem.Flushing, Mem.Dict;
      assert m'.Block() == pending && pending[0..] == pending;
      if info.linked {
        BlockInTmp(m, m', user + out, to);
      } else {
        DictAhead(m, m');
      }
    }

    static lemma PieceOf(a: array<byte>, from: nat, n: nat, to: nat)
      requires from + n <= to <= a.Length
      ensures a[from..from + n] == a[from..to][..n]
    {}

    /** Delivers as much of the block in tmpOut as there is room for. */
    method Flush(dst: array<byte>, dp: nat) returns (dp': nat)
      requires InFrame() && dp <= dst.Length && Midway(dst, dp)
      modifies `dict, `dictSize, `tmpOutStart, `out, `pending, tmpOutBuffer, dst
      ensures InFrame() && dp <= dp' <= dst.Length && Midway(dst, dp') && dst[..dp] == old(dst[..dp])
      ensures out == old(out) + dst[dp..dp'] && out + pending == old(out + pending)
      ensures tmpOutStart == tmpOutSize || dp' == dst.Length
    {
      hide Midway, EndsWith, Window, Buffers, InFrame, SameOutside;
      InMidway(dst, dp);
      var n: nat := Min(tmpOutSize - tmpOutStart, dst.Length - dp);
      var p := tmpOutBuffer[tmpOut + tmpOutStart..tmpOut + tmpOutStart + n];
      dp' := dp + n;
      ghost var m := Memory(dst, dp);
      PieceOf(tmpOutBuffer, tmpOut + tmpOutStart, n, tmpOut + tmpOutSize);
      CopyPiece(dst, dp, p);
      assert dst[..][dp..dp + n] == dst[dp..dp + n];
      StillMidway(dst, dp, m, dp + n);
      HandOver(dst, dp, n);
    }

    lemma InMidway(dst: array<byte>, dp: nat)
      requires Midway(dst, dp)
      ensures dst != tmpOutBuffer && dp <= dst.Length && EndsWith(out, dst[..dp]) && Buffers()
      ensures tmpOutStart <= tmpOutSize && tmpOut + tmpOutSize <= tmpOutBuffer.Length
      ensures pending == tmpOutBuffer[tmpOut + tmpOutStart..tmpOut + tmpOutSize]
      ensures MidwayIn(Memory(dst, dp))
    {
      hide EndsWith, Window;
      SubSlice(tmpOutBuffer[..], tmpOut, tmpOutSize, tmpOutStart, tmpOutSize);
      assert Memory(dst, dp).Block()[tmpOutStart..] == Memory(dst, dp).Block()[tmpOutStart..tmpOutSize];
    }

    lemma StillMidway(dst: array<byte>, dp: nat, was: Mem, to: nat)
      requires dst != tmpOutBuffer && was.dp == dp <= dst.Length == |was.dst| && Buffers()
      requires Memory(dst, dp) == was.(dst := dst[..]) && SameOutside(was.dst, dst[..], dp, to)
      requires EndsWith(out, was.dst[..dp]) && MidwayIn(was)
      ensures Midway(dst, dp) && dst[..dp] == was.dst[..dp]
    {
      hide Window, EndsWith, SameOutside, Mem.Dict, Mem.Flushing, Mem.Independent, Mem.Block, Buffers;
      if info.linked {
        InsideFlush(was, user + out, pending);
      } else {
        StillIndependent(was, Memory(dst, dp), user);
      }
      WrittenBehind(was, dst[..], to);
      FlushingElsewhere(was, Memory(dst, dp), user + out, pending);
      assert dst[..][..dp] == dst[..dp];
    }

    /** `n` bytes of `pending`, copied to `dp`, become output. */
    method HandOver(dst: array<byte>, dp: nat, n: nat)
      requires InFrame() && Midway(dst, dp) && dp + n <= dst.Length && n <= |pending| && dst[dp..dp + n] == pending[..n]
      modifies `dict, `dictSize, `tmpOutStart, `out, `pending, tmpOutBuffer
      ensures InFrame() && Midway(dst, dp + n) && tmpOutStart == old(tmpOutStart) + n
      ensures out == old(out) + dst[dp..dp + n] && out + pending == old(out + pending)
    {
      hide EndsWith, Window, SizeLeft, FrameInfo.MaxBlockSize, Buffers, MidwayIn, Last;
      ghost var p, rest := dst[dp..dp + n], pending[n..];
      assert pending == p + rest;
      Regrouped(out, p, rest);
      assert EndsWith(out + p, dst[..dp + n]) by {
        TailGrows(out, dst[..dp], p);
        assert dst[..dp + n] == dst[..dp] + p;
      }
      HandOverDict(dst, dp, n);
    }

    method HandOverDict(dst: array<byte>, dp: nat, n: nat)
      requires dp + n <= dst.Length && n <= |pending| && dst[dp..dp + n] == pending[..n]
      requires InFrame() && Buffers() && dst != tmpOutBuffer && EndsWith(out, dst[..dp]) && MidwayIn(Memory(dst, dp))
      modifies `dict, `dictSize, `tmpOutStart, `out, `pending, tmpOutBuffer
      ensures MidwayIn(Memory(dst, dp + n)) && tmpOutStart == old(tmpOutStart) + n
      ensures out == old(out) + dst[dp..dp + n] && pending == old(pending)[n..]
    {
      hide EndsWith, Window, InFrame, Buffers, Mem.Flushing, Last, Mem.Dict;
      ghost var p, rest := dst[dp..dp + n], pending[n..];
      if info.linked {
        BuffersSized();
        EndsInLonger(user, out, dst[..dp]);
        UpdateDict(dst, dp, n, true, user + out);
        Regrouped(user, out, p);
      } else {
        assert rest == Memory(dst, dp).Block()[tmpOutStart + n..];
        DictAhead(Memory(dst, dp), Memory(dst, dp + n).(tmpOutStart := tmpOutStart + n));
      }
      tmpOutStart := tmpOutStart + n;
      out := out + p;
      pending := rest;
    }

    lemma Emptied(dst: array<byte>, dp: nat)
      requires Midway(dst, dp) && tmpOutStart == tmpOutSize
      ensures pending == [] && Between(dst, dp)
    {
      hide EndsWith, Window;
      assert pending == [];
      if info.linked {
        AllDelivered(Memory(dst, dp), user + out);
      }
    }

    method StepFlushOut(src: seq<byte>, sp: nat, dst: array<byte>, dp: nat) returns (step: Step, dp': nat)
      requires sp <= |src| && Feeds(src, sp) && dp <= dst.Length && Delivering() && Midway(dst, dp) && stage == FlushOut
      modifies `stage, `dict, `dictSize, `tmpOutStart, `out, `pending, tmpOutBuffer, dst
      ensures Produced(src, sp, dst, dp, step, sp, dp')
      ensures step.Wait? && stage == FlushOut ==> Delivering() && Midway(dst, dp')
      ensures step.Again? && stage == GetBlockHeader ==> AtBlock() && Between(dst, dp')
      ensures (step.Wait? && stage == FlushOut) || (step.Again? && stage == GetBlockHeader)
    {
      hide BlocksFrom, Leads, InFrame, Midway, Between, Feeds;
      ghost var all := out + pending;
      dp' := Flush(dst, dp);
      assert out + pending == all;
      if tmpOutStart == tmpOutSize {
        stage := GetBlockHeader;
        Emptied(dst, dp');
        assert out + pending == out;
        return Again, dp';
      }
      return Wait(4), dp';
    }

    /** Verifies the checksum behind a compressed block, if there is one. */
    method CheckBlock(sel: seq<byte>) returns (ok: bool, block: seq<byte>)
      requires BlockSized() && |sel| == tmpInTarget <= pos <= |stream| && sel == stream[pos - tmpInTarget..pos]
      requires Leads(meaning, CompressedFrom(Context(), pos - tmpInTarget, tmpInTarget - info.CrcSize(), out))
      modifies `tmpInTarget
      ensures ok ==> Leads(meaning, DecodedFrom(Context(), pos, block, out))
      ensures !ok ==> !Acceptable(meaning)
    {
      hide DecodedFrom, ReadLE32, FrameInfo.MaxBlockSize;
      ghost var at := pos - tmpInTarget;
      if info.blockChecksum {
        tmpInTarget := tmpInTarget - 4;
        FieldInside(stream, at, |sel|, tmpInTarget);
        block := sel[..tmpInTarget];
        ok := ReadLE32(sel, tmpInTarget) == xxh(block);
      } else {
        ok, block := true, sel;
      }
    }

    /** With all of a compressed block in hand: decodes it, directly into `dst` if it surely fits there. */
    method BlockReady(sel: seq<byte>, dst: array<byte>, dp: nat) returns (step: Step, dp': nat)
      requires InFrame() && pending == [] && Between(dst, dp)
      requires BlockSized() && |sel| == tmpInTarget <= pos <= |stream| && sel == stream[pos - tmpInTarget..pos]
      requires Leads(meaning, CompressedFrom(Context(), pos - tmpInTarget, tmpInTarget - info.CrcSize(), out))
      modifies `stage, `tmpInTarget, `hashed, `frameRemainingSize, `dict, `dictSize, `tmpOut, `tmpOutSize, `tmpOutStart,
        `out, `pending, tmpOutBuffer, dst
      ensures BlockDone(dst, dp, step, dp')
    {
      hide InFrame, Between, Midway, BlocksFrom, DecodedFrom, CompressedFrom, Leads, Acceptable;
      BetweenRoom(dst, dp);
      var ok, block := CheckBlock(sel);
      if !ok {
        return Fail, dp;
      }
      if dst.Length - dp >= info.MaxBlockSize() && !(dict == InTmp && dictSize == tmpOut) {
        step, dp' := DecodeToDst(block, dst, dp);
      } else {
        dp' := dp;
        step := DecodeToTmp(block, dst, dp);
        assert dst[dp..dp] == [] && out + [] == out;
      }
    }

    lemma BetweenRoom(dst: array<byte>, dp: nat)
      requires Between(dst, dp)
      ensures dp <= dst.Length && dst != tmpOutBuffer
    {}

    twostate predicate BlockDone(dst: array<byte>, dp: nat, step: Step, dp': nat)
      reads this, dst, tmpOutBuffer
    {
      && dp <= dp' <= dst.Length && dst[..dp] == old(dst[..dp])
      && (step.Fail? ==> !Acceptable(meaning))
      && (!step.Fail? ==>
          && step.Again? && out == old(out) + dst[dp..dp']
          && (if stage == FlushOut then Delivering() && Midway(dst, dp')
              else stage == GetBlockHeader && AtBlock() && Between(dst, dp')))
    }

    /** Inside a block, or at its end. */
    lemma OnwardAtBlock(a: Progress)
      requires a.stage.InBlocks() && stage.InBlocks() && (stage.Compressed() ==> a.stage.Compressed())
      requires a.began <= Began() && a.due == Due()
      ensures Onward(a, Now())
    {}

    method StepGetCBlock(src: seq<byte>, sp: nat, dst: array<byte>, dp: nat) returns (step: Step, sp': nat, dp': nat)
      requires sp <= |src| && Feeds(src, sp) && dp <= dst.Length && AtCBlock() && Between(dst, dp) && stage == GetCBlock
      modifies `stage, `tmpInSize, `tmpInTarget, `hashed, `frameRemainingSize, `dict, `dictSize, `tmpOut, `tmpOutSize,
        `tmpOutStart, `out, `pending, `pos, tmpOutBuffer, dst
      ensures sp <= sp' <= |src| && Feeds(src, sp')
      ensures !step.Fail? ==> Onward(old(Now()), Now())
      ensures step.Again? && stage == StoreCBlock ==>
        && StoringCBlock() && Between(dst, dp) && sp' == sp && dp' == dp && tmpInSize == 0
        && dst[..dp] == old(dst[..dp]) && out == old(out)
      ensures !(step.Again? && stage == StoreCBlock) ==> BlockDone(dst, dp, step, dp') && sp' > sp
    {
      hide InFrame, Between, Midway, BlocksFrom, CompressedFrom, Leads, Acceptable, Feeds, Onward, Now;
      ghost var a := Now();
      Elsewhere();
      if |src| - sp < tmpInTarget {
        tmpInSize := 0;
        stage := StoreCBlock;
        NothingYet(src, sp, tmpIn, 0);
        OnwardAtBlock(a);
        return Again, sp, dp;
      }
      var sel := Take(src, sp, tmpInTarget);
      sp' := sp + tmpInTarget;
      step, dp' := BlockReady(sel, dst, dp);
      if !step.Fail? {
        OnwardAtBlock(a);
      }
    }

    method StepStoreCBlock(src: seq<byte>, sp: nat, dst: array<byte>, dp: nat) returns (step: Step, sp': nat, dp': nat)
      requires sp <= |src| && Feeds(src, sp) && dp <= dst.Length && StoringCBlock() && Between(dst, dp)
      requires stage == StoreCBlock
      modifies `stage, `tmpIn, `tmpInSize, `tmpInTarget, `hashed, `frameRemainingSize, `dict, `dictSize, `tmpOut,
        `tmpOutSize,
        `tmpOutStart, `out, `pending, `pos, tmpOutBuffer, dst
      ensures sp <= sp' <= |src| && Feeds(src, sp')
      ensures |tmpIn| == |old(tmpIn)|
      ensures step.Wait? ==>
        && StoringCBlock() && stage == StoreCBlock && Between(dst, dp) && dp' == dp
        && dst[..dp] == old(dst[..dp]) && out == old(out) && sp' == |src| && step.hint == Expected()
        && old(tmpInSize) <= tmpInSize && (sp < |src| ==> 0 < tmpInSize)
      ensures !step.Fail? ==> Onward(old(Now()), Now())
      ensures !step.Wait? ==> BlockDone(dst, dp, step, dp') && sp' > sp
    {
      hide Midway, BlocksFrom, CompressedFrom, Leads, Acceptable, Feeds, EndsWith, Mem.Idle, Mem.Independent, Accounts,
        Onward, Now;
      ghost var a := Now();
      Elsewhere();
      var n := Min(tmpInTarget - tmpInSize, |src| - sp);
      StoreInTmp(src, sp, n);
      sp' := sp + n;
      if tmpInSize < tmpInTarget {
        OnwardAtBlock(a);
        return Wait(tmpInTarget - tmpInSize + info.CrcSize() + 4), sp', dp;
      }
      step, dp' := BlockReady(tmpIn[..tmpInTarget], dst, dp);
      if !step.Fail? {
        OnwardAtBlock(a);
      }
    }

    // --- The state machine ---

    /** The buffers, whatever the stage. */
    ghost predicate Holding(dst: array<byte>, dp: nat)
      reads `stage, `info, `out, `pending, `user, `dict, `dictSize, `tmpOutBuffer, `tmpOut, `tmpOutSize, `tmpOutStart,
        `maxBufferSize, `tmpInCapacity, `allocatedFor, tmpOutBuffer, dst
    {
      && dst != tmpOutBuffer && dp <= dst.Length && EndsWith(out, dst[..dp]) && Buffers()
      && (stage.InBlocks() ==> if stage == FlushOut then Midway(dst, dp) else Between(dst, dp))
    }

    /** What one step of the machine has done. */
    twostate predicate Stepped(src: seq<byte>, sp: nat, dst: array<byte>, dp: nat, step: Step, sp': nat, dp': nat)
      reads this, tmpOutBuffer, dst
    {
      && sp <= sp' <= |src| && Feeds(src, sp') && dp <= dp' <= dst.Length && dst[..dp] == old(dst[..dp])
      && (step.Fail? ==> !Acceptable(meaning))
      && (!step.Fail? ==> out == old(out) + dst[dp..dp'] && Holding(dst, dp'))
      && (step.Again? || step.Wait? ==> Reading() && Onward(old(Now()), Now()))
      && (step.Wait? ==> (sp' == |src| || dp' == dst.Length) && step.hint == Expected() && Unfinished())
      && (step.Wait? && stage == StoreCBlock ==>
            && sp' == |src| && old(stage) == StoreCBlock && old(tmpInSize) <= tmpInSize
            && (sp < |src| ==> 0 < tmpInSize))
      && (step.Again? && (stage == GetCBlock || (stage == StoreCBlock && tmpInSize == 0)) ==>
            sp' < |src| || (old(stage) == GetCBlock && sp' == sp))
      && (step.Again? ==> sp < sp' || stage.Rank() < old(stage).Rank())
      && (step.Complete? ==>
            Leads(meaning, Frame(out, pos, true, true)) && |header| == MAX_HEADER && |tmpIn| == tmpInCapacity)
    }

    /** Behind the blocks, and in skippable frames. */
    lemma OnwardOutside(a: Progress, at: nat)
      requires !a.stage.InBlocks() && !a.stage.InHeader() && a.stage != Init && a.began == at <= pos
      requires !stage.InBlocks() && !stage.InHeader() && stage != Init && (a.stage.Skips() ==> stage.Skips())
      ensures Onward(a, Now())
    {}

    /** Around a block that is not compressed, or is not reached yet. */
    lemma OnwardInside(a: Progress)
      requires a.stage.InBlocks() && !a.stage.Compressed() && a.began <= pos
      requires !stage.InHeader() && stage != StoreCBlock
      requires (stage.InBlocks() && stage != GetCBlock && Due() == a.due) || a.due == pos
      ensures Onward(a, Now())
    {}

    method StepOutsideBlocks(src: seq<byte>, sp: nat, dst: array<byte>, dp: nat) returns (step: Step, sp': nat)
      requires sp <= |src| && Feeds(src, sp) && Reading() && Holding(dst, dp) && !stage.InBlocks() && stage != Init
      modifies `stage, `info, `frameRemainingSize, `tmpIn, `tmpInSize, `tmpInTarget, `header, `pos
      ensures Stepped(src, sp, dst, dp, step, sp', dp)
    {
      hide Onward, Now, Expected, Feeds, Buffers, EndsWith, Acceptable, Leads, AtHeader, StoringHeader, AtInit,
        AtBlock, StoringBlockHeader,
        Copying, StoringBlockChecksum,
        AtCBlock, StoringCBlock, Delivering, AtSuffix, StoringSuffix, AtSkipSize, StoringSkipSize, Skipping;
      ghost var a, at, was := Now(), pos, stage;
      Elsewhere();
      InStream(src, sp);
      assert dst[dp..dp] == [] && out + [] == out;
      match stage {
      case GetFrameHeader =>
        step, sp' := StepGetFrameHeader(src, sp);
      case StoreFrameHeader =>
        step, sp' := StepStoreFrameHeader(src, sp);
      case GetSuffix =>
        step, sp' := StepGetSuffix(src, sp);
      case StoreSuffix =>
        step, sp' := StepStoreSuffix(src, sp);
      case GetSFrameSize =>
        step, sp' := StepGetSFrameSize(src, sp);
      case StoreSFrameSize =>
        step, sp' := StepStoreSFrameSize(src, sp);
      case SkipSkippable =>
        step, sp' := StepSkipSkippable(src, sp);
      }
      InStream(src, sp');
      if !step.Fail? && !step.Complete? && !was.InHeader() {
        OnwardOutside(a, at);
      }
    }

    method StepReadingBlock(src: seq<byte>, sp: nat, dst: array<byte>, dp: nat) returns (step: Step, sp': nat)
      requires sp <= |src| && Feeds(src, sp) && Reading() && Holding(dst, dp)
      requires stage == GetBlockHeader || stage == StoreBlockHeader || stage == GetBlockChecksum
      modifies `stage, `tmpIn, `tmpInSize, `tmpInTarget, `header, `blockHashed, `pos
      ensures Stepped(src, sp, dst, dp, step, sp', dp)
    {
      hide Onward, Now, Expected, Feeds, Buffers, EndsWith, Acceptable, Leads, AtHeader, StoringHeader, AtInit,
        AtBlock, StoringBlockHeader,
        Copying,
        StoringBlockChecksum, AtCBlock, StoringCBlock, Delivering, AtSuffix, StoringSuffix, AtSkipSize, StoringSkipSize,
        Skipping,
        Between, Midway;
      ghost var a := Now();
      Elsewhere();
      InStream(src, sp);
      assert dst[dp..dp] == [] && out + [] == out;
      match stage {
      case GetBlockHeader =>
        step, sp' := StepGetBlockHeader(src, sp, dp == dst.Length);
      case StoreBlockHeader =>
        step, sp' := StepStoreBlockHeader(src, sp, dp == dst.Length);
      case GetBlockChecksum =>
        step, sp' := StepGetBlockChecksum(src, sp);
      }
      InStream(src, sp');
      if !step.Fail? {
        OnwardInside(a);
      }
    }

    lemma Holds(dst: array<byte>, dp: nat)
      requires stage.InBlocks() && if stage == FlushOut then Midway(dst, dp) else Between(dst, dp)
      ensures Holding(dst, dp)
    {}

    method StepProducing(src: seq<byte>, sp: nat, dst: array<byte>, dp: nat) returns (step: Step, sp': nat, dp': nat)
      requires sp <= |src| && Feeds(src, sp) && Reading() && dp <= dst.Length && dst != tmpOutBuffer
      requires if stage == FlushOut then Midway(dst, dp) else Between(dst, dp)
      requires stage == CopyDirect || stage == GetCBlock || stage == StoreCBlock || stage == FlushOut
      modifies `stage, `frameRemainingSize, `tmpIn, `tmpInSize, `tmpInTarget,
        `dict, `dictSize, `tmpOut, `tmpOutSize, `tmpOutStart, `hashed, `blockHashed, `pos, `out, `pending, tmpOutBuffer,
        dst
      ensures Stepped(src, sp, dst, dp, step, sp', dp')
    {
      hide Onward, Now, Expected, Feeds, Acceptable, Leads, AtHeader, StoringHeader, AtInit, AtBlock,
        StoringBlockHeader, Copying,
        StoringBlockChecksum, AtCBlock, StoringCBlock, Delivering, AtSuffix, StoringSuffix, AtSkipSize, StoringSkipSize,
        Skipping,
        Between, Midway, Holding;
      sp', dp' := sp, dp;
      match stage {
      case CopyDirect =>
        step, sp', dp' := StepCopyDirect(src, sp, dst, dp);
      case GetCBlock =>
        step, sp', dp' := StepGetCBlock(src, sp, dst, dp);
        assert dst[dp..dp] == [] && old(out) + [] == old(out);
      case StoreCBlock =>
        step, sp', dp' := StepStoreCBlock(src, sp, dst, dp);
        assert dst[dp..dp] == [] && old(out) + [] == old(out);
      case FlushOut =>
        step, dp' := StepFlushOut(src, sp, dst, dp);
      }
      InStream(src, sp');
      if !step.Fail? {
        Holds(dst, dp');
      }
    }

    method OneStep(src: seq<byte>, sp: nat, dst: array<byte>, dp: nat) returns (step: Step, sp': nat, dp': nat)
      requires sp <= |src| && Feeds(src, sp) && Reading() && Holding(dst, dp)
      modifies `stage, `info, `frameRemainingSize, `maxBufferSize, `tmpIn, `tmpInCapacity, `tmpInSize, `tmpInTarget,
        `header,
        `tmpOutBuffer, `dict, `dictSize, `tmpOut, `tmpOutSize, `tmpOutStart, `hashed, `blockHashed, `pos, `out,
        `pending,
        `allocatedFor, tmpOutBuffer, dst
      ensures Stepped(src, sp, dst, dp, step, sp', dp') && (tmpOutBuffer == old(tmpOutBuffer) || fresh(tmpOutBuffer))
    {
      hide Reading, Feeds, Between, Midway, EndsWith, Buffers, Stepped;
      sp', dp' := sp, dp;
      if stage == Init {
        InitStep(src, sp, dst, dp);
        step := Again;
      } else if !stage.InBlocks() {
        step, sp' := StepOutsideBlocks(src, sp, dst, dp);
      } else if stage == GetBlockHeader || stage == StoreBlockHeader || stage == GetBlockChecksum {
        step, sp' := StepReadingBlock(src, sp, dst, dp);
      } else {
        step, sp', dp' := StepProducing(src, sp, dst, dp);
      }
    }

    method InitStep(src: seq<byte>, sp: nat, dst: array<byte>, dp: nat)
      requires sp <= |src| && Feeds(src, sp) && Reading() && Holding(dst, dp) && stage == Init
      modifies `hashed, `maxBufferSize, `tmpIn, `tmpInCapacity, `tmpOutBuffer, `tmpInSize, `tmpInTarget, `tmpOut,
        `tmpOutStart,
        `tmpOutSize, `stage, `allocatedFor
      ensures Stepped(src, sp, dst, dp, Again, sp, dp) && (tmpOutBuffer == old(tmpOutBuffer) || fresh(tmpOutBuffer))
    {
      hide Reading, Feeds, Between, Midway, EndsWith, Buffers, AtBlock;
      ReadingInit();
      StepInit();
      Started(dst, dp);
      assert dst[dp..dp] == [] && out + [] == out;
    }

    lemma ReadingInit()
      requires Reading() && stage == Init
      ensures AtInit() && |header| == MAX_HEADER && |tmpIn| == tmpInCapacity && pos <= |stream| && out == []
      ensures (dict == Nowhere && dictSize == 0 && user == []) || (dict == InUser(user) && dictSize == |user|)
    {}

    lemma Started(dst: array<byte>, dp: nat)
      requires AtBlock() && stage == GetBlockHeader && |header| == MAX_HEADER && |tmpIn| == tmpInCapacity
      requires pos <= |stream|
      requires out == [] && tmpOut == 0
      requires (dict == Nowhere && dictSize == 0 && user == []) || (dict == InUser(user) && dictSize == |user|)
      requires dst != tmpOutBuffer && dp <= dst.Length && EndsWith(out, dst[..dp]) && Buffers()
      ensures Reading() && Holding(dst, dp)
    {
      hide Window, EndsWith, AtBlock;
      SelfWindow(user);
      assert user + out == user;
    }

    /** Runs the machine until it must wait, has finished a frame, or fails. */
    method Loop(src: seq<byte>, dst: array<byte>) returns (step: Step, sp: nat, dp: nat)
      requires Feeds(src, 0) && Reading() && Holding(dst, 0)
      modifies `stage, `info, `frameRemainingSize, `maxBufferSize, `tmpIn, `tmpInCapacity, `tmpInSize, `tmpInTarget,
        `header,
        `tmpOutBuffer, `dict, `dictSize, `tmpOut, `tmpOutSize, `tmpOutStart, `hashed, `blockHashed, `pos, `out,
        `pending,
        `allocatedFor, tmpOutBuffer, dst
      ensures tmpOutBuffer == old(tmpOutBuffer) || fresh(tmpOutBuffer)
      ensures sp <= |src| && Feeds(src, sp) && dp <= dst.Length && !step.Again?
      ensures step.Fail? ==> !Acceptable(meaning)
      ensures !step.Fail? ==> out == old(out) + dst[..dp] && Holding(dst, dp)
      ensures step.Wait? ==> Reading() && (sp == |src| || dp == dst.Length) && step.hint == Expected() && Unfinished()
      ensures step.Wait? ==>
        && Onward(old(Now()), Now())
        && (stage == StoreCBlock ==> sp == |src| && (|src| > 0 ==> 0 < tmpInSize))
      ensures step.Complete? ==>
        Leads(meaning, Frame(out, pos, true, true)) && |header| == MAX_HEADER && |tmpIn| == tmpInCapacity
    {
      hide Reading, Feeds, Holding, Leads, Acceptable, Onward, Now, Expected;
      step, sp, dp := Again, 0, 0;
      OnwardNone(Now());
      assert dst[..0] == [] && out + [] == out;
      while step.Again?
        invariant tmpOutBuffer == old(tmpOutBuffer) || fresh(tmpOutBuffer)
        invariant sp <= |src| && Feeds(src, sp) && dp <= dst.Length
        invariant step.Fail? ==> !Acceptable(meaning)
        invariant !step.Fail? ==> out == old(out) + dst[..dp] && Holding(dst, dp)
        invariant step.Again? || step.Wait? ==> Reading() && Onward(old(Now()), Now())
        invariant step.Again? && |src| > 0 && (stage == GetCBlock || (stage == StoreCBlock && tmpInSize == 0)) ==>
          sp < |src|
        invariant step.Wait? && stage == StoreCBlock ==> sp == |src| && (|src| > 0 ==> 0 < tmpInSize)
        invariant step.Wait? ==> (sp == |src| || dp == dst.Length) && step.hint == Expected() && Unfinished()
        invariant step.Complete? ==>
          Leads(meaning, Frame(out, pos, true, true)) && |header| == MAX_HEADER && |tmpIn| == tmpInCapacity
        decreases |src| - sp, if step.Again? then stage.Rank() + 1 else 0
      {
        ghost var before, now := dst[..dp], Now();
        var s, d;
        step, s, d := OneStep(src, sp, dst, dp);
        if !step.Fail? && !step.Complete? {
          OnwardTwice(old(Now()), now, Now());
        }
        assert dst[..d] == before + dst[dp..d];
        sp, dp := s, d;
      }
    }

    // --- Between calls ---

    /** The buffers without a destination. */
    ghost function AtRest(): Mem
      reads `dict, `dictSize, `tmpOutBuffer, `tmpOut, `tmpOutSize, `tmpOutStart, tmpOutBuffer
    {
      Mem(dict, dictSize, tmpOutBuffer[..], tmpOut, tmpOutSize, tmpOutStart, [], 0)
    }

    /** What holds between calls: nothing refers to a destination buffer. */
    ghost predicate Valid()
      reads this, tmpOutBuffer
    {
      && Reading() && Buffers()
      && (stage.InBlocks() ==>
            && !dict.InDst?
            && (if stage == FlushOut then MidwayIn(AtRest())
                else if info.linked then AtRest().Idle(user + out) else AtRest().Independent(user)))
    }

    lemma Entering(dst: array<byte>)
      requires Valid() && dst != tmpOutBuffer
      ensures Holding(dst, 0)
    {
      hide Window, Reading, Mem.Dict, Mem.Flushing, Mem.Independent, Mem.Block, Buffers;
      assert EndsWith(out, dst[..0]);
      if stage.InBlocks() {
        Relocated(AtRest(), Memory(dst, 0));
      }
    }

    lemma Relocated(m: Mem, m': Mem)
      requires (info.linked ==> !m.dict.InDst?) && m'.dp <= |m'.dst| && m' == m.(dst := m'.dst, dp := m'.dp)
      requires if stage == FlushOut then MidwayIn(m) else if info.linked then m.Idle(user + out)
               else m.Independent(user)
      ensures !m.dict.InDst?
      ensures if stage == FlushOut then MidwayIn(m') else if info.linked then m'.Idle(user + out)
              else m'.Independent(user)
    {
      hide Window, Mem.Flushing;
      if info.linked {
        if stage == FlushOut {
          InsideFlush(m, user + out, pending);
          Moved(m, m');
          FlushingElsewhere(m, m', user + out, pending);
        } else {
          Moved(m, m');
        }
      } else {
        Moved(m, m');
      }
    }

    lemma Leaving(dst: array<byte>, dp: nat)
      requires Reading() && Holding(dst, dp) && (stage.InBlocks() && info.linked ==> !dict.InDst?)
      ensures Valid()
    {
      hide Window, Reading, EndsWith, Mem.Dict, Mem.Flushing, Mem.Independent, Mem.Block, Buffers;
      if stage.InBlocks() {
        Relocated(Memory(dst, dp), AtRest());
      }
    }

    /** The end of a call: history that lies in the destination, or with the user, moves into tmpOutBuffer. */
    method Preserve(dst: array<byte>, dp: nat)
      requires Reading() && Holding(dst, dp) && stage != Init
      modifies `dict, `dictSize, `tmpOut, tmpOutBuffer
      ensures Valid()
    {
      hide Buffers, EndsWith, Between, Midway, AtBlock, StoringBlockHeader, Copying, StoringBlockChecksum, AtCBlock,
        StoringCBlock,
        Delivering;
      if info.linked && dict != InTmp && dict != Nowhere && stage.InBlocks() {
        if stage == FlushOut {
          MidwayToTmp(dst, dp);
        } else {
          RoomInBlocks();
          BetweenToTmp(dst, dp);
        }
        Holds(dst, dp);
      }
      Leaving(dst, dp);
    }

    method MidwayToTmp(dst: array<byte>, dp: nat)
      requires Midway(dst, dp) && info.linked && dict != InTmp
      modifies `dict, `dictSize, tmpOutBuffer
      ensures Midway(dst, dp) && dict == InTmp
    {
      hide Window, EndsWith, Mem.Flushing, Buffers;
      PreserveInFront(dst, dp, user + out);
    }

    method BetweenToTmp(dst: array<byte>, dp: nat)
      requires Between(dst, dp) && info.linked && dict != InTmp && KB64 <= maxBufferSize
      modifies `dict, `dictSize, `tmpOut, tmpOutBuffer
      ensures Between(dst, dp) && dict == InTmp
    {
      hide Window, EndsWith, Mem.Dict;
      ghost var m := Memory(dst, dp);
      var size: nat := Min(dictSize, KB64);
      KeepLast(dst, dp, size);
      dict := InTmp;
      dictSize := size;
      tmpOut := size;
      KeptInTmp(m, Memory(dst, dp), user + out);
    }

    /** Until a frame is finished, its end lies ahead; what is delivered is how its content starts. */
    lemma EndAhead()
      requires Reading() && Unfinished()
      ensures meaning.Frame? ==> pos < meaning.end <= |stream| && out <= meaning.content
    {
      hide Accounts, SizeKnown, ReadLE32, HeaderSizeOf, FrameFrom, SkipSizeFrom, SkipFrom, BlocksFrom, StoredFrom,
        StoredChecksumFrom, CompressedFrom, ContentChecksumFrom;
      if stage == StoreFrameHeader && tmpInTarget > MIN_HEADER && meaning.Frame? {
        ghost var at := pos - tmpInSize;
        KeptHeader(header, stream, at, tmpInSize);
        SizeKnownMeans(header, tmpInTarget);
        LongerThanHeader(xxh, user, stream, at);
      }
    }

    lemma AtStart()
      requires Valid() && stage == GetFrameHeader
      ensures pos <= |stream| && (meaning.Frame? ==> pos < meaning.end <= |stream|)
    {
      EndAhead();
    }

    lemma RoomInBlocks()
      requires Reading() && stage.InBlocks()
      ensures KB64 <= maxBufferSize
    {}

    constructor (xxh: Hash, ghost stream: seq<byte>)
      ensures Valid() && this.xxh == xxh && this.stream == stream && pos == 0 && out == [] && user == []
      ensures stage == GetFrameHeader
      ensures meaning == FrameFrom(xxh, [], stream, 0) && fresh(tmpOutBuffer)
    {
      this.xxh, this.stream := xxh, stream;
      stage := GetFrameHeader;
      info := FrameInfo(true, false, false, 0, 0, 0);
      frameRemainingSize, maxBufferSize, tmpInCapacity, tmpInSize, tmpInTarget := 0, 0, 0, 0, 0;
      tmpIn, hashed, blockHashed := [], [], [];
      header := seq(MAX_HEADER, _ => 0);
      tmpOutBuffer := new byte[0];
      dict, dictSize := Nowhere, 0;
      tmpOut, tmpOutSize, tmpOutStart := 0, 0, 0;
      pos, base, out, pending, user, allocatedFor := 0, 0, [], [], [], 0;
      meaning := FrameFrom(xxh, [], stream, 0);
    }

    /** LZ4F_resetDecompressionContext: whatever comes next is a new frame. */
    method Reset()
      requires Buffers() && |header| == MAX_HEADER && |tmpIn| == tmpInCapacity && pos <= |stream|
      modifies `stage, `dict, `dictSize, `frameRemainingSize, `out, `pending, `user, `meaning
      ensures Valid() && out == [] && user == [] && meaning == FrameFrom(xxh, [], stream, pos)
    {
      hide FrameFrom, Buffers, Valid, StoringHeader, AtInit;
      stage := GetFrameHeader;
      dict, dictSize := Nowhere, 0;
      frameRemainingSize := 0;
      out, pending, user := [], [], [];
      meaning := FrameFrom(xxh, [], stream, pos);
      Outside();
    }

    lemma Outside()
      requires Buffers() && |header| == MAX_HEADER && |tmpIn| == tmpInCapacity && pos <= |stream|
      requires match stage
        case GetFrameHeader => AtHeader()
        case StoreFrameHeader => StoringHeader()
        case Init => AtInit()
        case _ => false
      ensures Valid()
    {
      hide Buffers, AtHeader, StoringHeader, AtInit;
    }

    lemma Inside()
      requires Valid() && (stage == GetFrameHeader || stage == StoreFrameHeader || stage == Init)
      ensures Buffers() && |header| == MAX_HEADER && |tmpIn| == tmpInCapacity && pos <= |stream|
      ensures match stage
        case GetFrameHeader => AtHeader()
        case StoreFrameHeader => StoringHeader()
        case Init => AtInit()
        case _ => false
    {
      hide Buffers, AtHeader, StoringHeader, AtInit;
    }

    /** The stream goes on with these bytes. */
    ghost predicate Next(src: seq<byte>)
      reads `pos
    {
      pos + |src| <= |stream| && stream[pos..pos + |src|] == src
    }

    /** LZ4F_decompress: takes some more of the stream, delivers some more of the content.
        A frame whose blocks are taken wherever the history is never fails, however it is cut; what is delivered is its
        content. */
    method Decompress(dst: array<byte>, src: seq<byte>) returns (r: Result, read: nat, written: nat)
      requires Valid() && Next(src) && dst != tmpOutBuffer
      modifies this, tmpOutBuffer, dst
      ensures r.Error? ==> !Acceptable(old(meaning))
      ensures r.Hint? ==>
        && Valid() && (tmpOutBuffer == old(tmpOutBuffer) || fresh(tmpOutBuffer))
        && read <= |src| && written <= dst.Length && pos == old(pos) + read
      ensures r.Hint? && r.size == 0 ==>
        && old(meaning).Frame? && old(meaning).ever
        && old(meaning).content == old(out) + dst[..written] && old(meaning).end == pos
        && out == [] && user == [] && meaning == FrameFrom(xxh, [], stream, pos)
      ensures r.Hint? && r.size > 0 ==>
        && meaning == old(meaning) && user == old(user) && out == old(out) + dst[..written]
        && (read == |src| || written == dst.Length) && r.size == Expected() && (stage.InBlocks() ==> pos < Due())
        && Unfinished() && Onward(old(Now()), Now())
        && (stage == StoreCBlock ==> read == |src| && (|src| > 0 ==> 0 < tmpInSize))
        && (meaning.Frame? ==> pos < meaning.end <= |stream| && out <= meaning.content)
        && (meaning.Frame? ==> (r.size <= meaning.end - pos <==> !Overasks()))
    {
      hide Valid, Reading, Holding, FrameFrom, Buffers, Onward, Now, Expected, Due, Overasks, Unfinished;
      Enter(dst, src);
      var step;
      step, read, written := Loop(src, dst);
      match step
      case Fail =>
        r := Error;
      case Wait(hint) =>
        EndAhead();
        SomethingExpected();
        if meaning.Frame? {
          ExpectedInside();
        }
        Preserve(dst, written);
        r := Hint(hint);
      case Complete =>
        assert Buffers() by { HeldBuffers(dst, written); }
        Reset();
        r := Hint(0);
    }

    lemma SomethingExpected()
      requires Reading() && Unfinished()
      ensures Expected() > 0 && (stage.InBlocks() ==> pos < Due()) && stage != Init
    {
      hide Accounts, Leads, Buffered, SizeKnown, Window;
    }

    /** Two places where more is asked for than there may be: a compressed block that is the last of its frame, whose
        checksum is counted twice, and the start of a very short skippable frame. */
    ghost predicate Overasks()
      reads `stage, `info, `pos, `tmpInSize, `tmpInTarget
    {
      || (stage == StoreCBlock && info.blockChecksum && !info.contentChecksum
          && (var i := pos + tmpInTarget - tmpInSize; 0 <= i && i + 4 <= |stream| && ReadLE32(stream, i) == 0))
      || (stage == StoreFrameHeader
          && (var i := pos - tmpInSize;
              0 <= i && i + 8 <= |stream| && ReadLE32(stream, i) / 16 == SKIPPABLE && ReadLE32(stream, i + 4) < 3))
    }

    /** Elsewhere, and only there, what is asked for is part of the frame. */
    lemma ExpectedInside()
      requires Reading() && Unfinished() && meaning.Frame?
      ensures Expected() <= meaning.end - pos <==> !Overasks()
    {
      hide Accounts, SizeKnown, ReadLE32, HeaderSizeOf, FrameFrom, SkipSizeFrom, SkipFrom, BlocksFrom, StoredFrom,
        StoredChecksumFrom, CompressedFrom, ContentChecksumFrom;
      if stage == StoreFrameHeader {
        HeaderInside();
      } else if stage == StoreCBlock {
        BlockInside();
      }
    }

    lemma HeaderInside()
      requires Reading() && stage == StoreFrameHeader && meaning.Frame?
      ensures Expected() <= meaning.end - pos <==> !Overasks()
    {
      hide ReadLE32, HeaderSizeOf, FrameFrom;
      ghost var at := pos - tmpInSize;
      if tmpInTarget > MIN_HEADER {
        hide SizeKnown;
        KeptHeader(header, stream, at, tmpInSize);
        SizeKnownMeans(header, tmpInTarget);
        LongerThanHeader(xxh, user, stream, at);
      } else if ReadLE32(stream, at) / 16 == SKIPPABLE {
        SkippableEnd(xxh, user, stream, at);
      } else {
        LongerThanHeader(xxh, user, stream, at);
        HeaderSizes(stream[at + 4]);
      }
    }

    lemma BlockInside()
      requires Reading() && stage == StoreCBlock && meaning.Frame?
      ensures Expected() <= meaning.end - pos <==> !Overasks()
    {
      hide Accounts, ReadLE32, BlocksFrom, Decode;
      ghost var o := NextBlock();
      BlocksEnd(Context(), Due() - 4, o);
    }

    /** The stages a caller meets that always reads what it is asked for. */
    ghost predicate Prompt()
      reads `stage, `tmpInTarget
    {
      stage != StoreCBlock && (stage == StoreFrameHeader ==> tmpInTarget > MIN_HEADER)
    }

    lemma PromptInside()
      requires Reading() && Unfinished() && Prompt() && meaning.Frame?
      ensures 0 < Expected() <= meaning.end - pos
    {
      hide ReadLE32, Leads, FrameFrom, BlocksFrom;
      SomethingExpected();
      ExpectedInside();
      if stage == StoreFrameHeader {
        KeptHeader(header, stream, pos - tmpInSize, tmpInSize);
      }
    }

    /** Nothing beyond the next block header is asked for. */
    lemma UpToDue()
      requires Reading() && Unfinished() && Prompt()
      ensures Asks(Now(), pos, Expected())
    {
      hide Accounts, Leads, SizeKnown;
    }

    /** A call in the middle of the blocks that read up to what was due has read that block header. */
    lemma HeaderReached(a: Progress)
      requires Onward(a, Now()) && a.stage.InBlocks() && pos == a.due && (stage.InBlocks() ==> pos < Due())
      ensures a.due <= Began()
    {}

    lemma NothingOut()
      requires Reading() && stage == StoreFrameHeader
      ensures out == []
    {}

    /** After a call that was given what it had asked for, at `at`, when it had come to `a`. */
    lemma StillPrompt(a: Progress, at: nat, asked: nat)
      requires Reading() && Unfinished() && Onward(a, Now()) && Asks(a, at, asked)
      requires stage == StoreCBlock ==> pos == at + asked && tmpInSize > 0 && pos < Due()
      requires stage == StoreFrameHeader ==> pos == at + asked
      ensures Prompt()
    {
      hide Accounts, Leads, SizeKnown, BlocksFrom, FrameFrom;
    }

    /** In the middle of the blocks, `Due` is where the header of the frame's next block ends. */
    lemma NextBlock() returns (o: seq<byte>)
      requires Reading() && stage.InBlocks() && meaning.Frame?
      ensures Due() >= 4 && var m := BlocksFrom(Context(), Due() - 4, o);
        m.Frame? && m.end == meaning.end && m.content == meaning.content
    {
      hide Accounts, ReadLE32, BlocksFrom, StoredFrom, CompressedFrom, FrameInfo.MaxBlockSize;
      o := out;
      match stage
      case FlushOut => o := out + pending;
      case CopyDirect => o := AfterStored(Context(), pos, tmpInTarget, blockHashed, out);
      case GetCBlock => o := AfterCompressed(Context(), pos, tmpInTarget - info.CrcSize(), out);
      case StoreCBlock => o := AfterCompressed(Context(), pos - tmpInSize, tmpInTarget - info.CrcSize(), out);
      case _ =>
    }

    method Enter(dst: array<byte>, src: seq<byte>)
      requires Valid() && Next(src) && dst != tmpOutBuffer
      modifies `base
      ensures Feeds(src, 0) && Reading() && Holding(dst, 0)
    {
      hide Reading, Holding;
      Entering(dst);
      base := pos;
    }

    lemma HeldBuffers(dst: array<byte>, dp: nat)
      requires Holding(dst, dp)
      ensures Buffers()
    {}

    /** What the current frame means if its dictionary is `bytes`. */
    ghost function MeaningWith(bytes: seq<byte>): Meaning
      requires stage == StoreFrameHeader ==> tmpInSize <= pos
      reads this
    {
      match stage
      case GetFrameHeader => FrameFrom(xxh, bytes, stream, pos)
      case StoreFrameHeader => FrameFrom(xxh, bytes, stream, pos - tmpInSize)
      case Init => BlocksFrom(Env(xxh, info, bytes, stream), pos, [])
      case _ => meaning
    }

    /** A dictionary is accepted until the first block header is due; later it is ignored. */
    method SetDict(bytes: seq<byte>)
      requires Valid() && (stage == StoreFrameHeader ==> tmpInSize <= pos)
      modifies `dict, `dictSize, `user, `meaning
      ensures Valid() && meaning == old(MeaningWith(bytes))
    {
      hide FrameFrom, BlocksFrom, Buffers, Valid, SizeKnown;
      if stage == GetFrameHeader || stage == StoreFrameHeader || stage == Init {
        Inside();
        dict, dictSize := InUser(bytes), |bytes|;
        user := bytes;
        meaning := MeaningWith(bytes);
        Outside();
      }
    }

    /** LZ4F_decompress_usingDict. */
    method DecompressWith(dst: array<byte>, src: seq<byte>, bytes: seq<byte>)
      returns (r: Result, read: nat, written: nat)
      requires Valid() && Next(src) && dst != tmpOutBuffer
      modifies this, tmpOutBuffer, dst
      ensures r.Error? ==> !Acceptable(old(MeaningWith(bytes)))
      ensures r.Hint? ==>
        && Valid() && (tmpOutBuffer == old(tmpOutBuffer) || fresh(tmpOutBuffer))
        && read <= |src| && written <= dst.Length && pos == old(pos) + read
      ensures r.Hint? && r.size == 0 ==>
        var m := old(MeaningWith(bytes)); m.Frame? && m.ever && m.content == old(out) + dst[..written] && m.end == pos
      ensures r.Hint? && r.size > 0 ==>
        && meaning == old(MeaningWith(bytes)) && out == old(out) + dst[..written]
        && (read == |src| || written == dst.Length) && r.size == Expected() && (stage.InBlocks() ==> pos < Due())
        && Unfinished() && Onward(old(Now()), Now())
        && (meaning.Frame? ==> (r.size <= meaning.end - pos <==> !Overasks()))
    {
      hide Valid, Overasks, Expected, Due, Onward, Now, Unfinished;
      assert stage == StoreFrameHeader ==> tmpInSize <= pos by { StoredBefore(); }
      SetDict(bytes);
      r, read, written := Decompress(dst, src);
    }

    /** A call that is given what is due, and has room left in the end, has read the header of the frame's next block,
        which comes after content `o`. */
    method DecompressDue(dst: array<byte>, src: seq<byte>)
      returns (r: Result, read: nat, written: nat, ghost o: seq<byte>)
      requires Valid() && Next(src) && dst != tmpOutBuffer && stage.InBlocks() && pos + |src| == Due()
      modifies this, tmpOutBuffer, dst
      ensures r.Hint? && r.size > 0 && written < dst.Length ==> pos == old(Due()) <= Began()
      ensures old(meaning).Frame? ==>
        && old(Due()) >= 4
        && var m := BlocksFrom(old(Context()), old(Due()) - 4, o);
           m.Frame? && m.end == old(meaning).end && m.content == old(meaning).content
    {
      hide Reading, FrameFrom, BlocksFrom, Onward, Now, Expected, Due, Overasks, Began, Unfinished;
      ghost var a := Now();
      o := [];
      Elsewhere();
      if meaning.Frame? {
        o := NextBlock();
      }
      r, read, written := Decompress(dst, src);
      if r.Hint? && r.size > 0 && pos == a.due {
        HeaderReached(a);
      }
    }

    lemma StoredBefore()
      requires Valid()
      ensures stage == StoreFrameHeader ==> tmpInSize <= pos
    {}

    lemma SameDict(dst: array<byte>, dp: nat)
      requires Memory(dst, dp).InRange()
      ensures DictContent(dst) == Memory(dst, dp).Dict()
    {}
  }

  /** Every call has something to read and somewhere to write. */
  ghost predicate Positive(slices: seq<nat>, room: seq<nat>) {
    |slices| == |room| && forall i :: 0 <= i < |slices| ==> slices[i] > 0 && room[i] > 0
  }

  /** A frame decoded in slices of any sizes: `slices[i]` bytes of input and `room[i]` bytes of space for call i.
      It fails only if some block is not taken in every place, completes only if each is taken in some place, and every
      call makes progress. `at` is where the input stands. */
  method DecodeInSlices(d: Dctx, stream: seq<byte>, start: nat, slices: seq<nat>, room: seq<nat>)
    returns (ok: bool, done: bool, content: seq<byte>, at: nat)
    requires d.Valid() && d.stage == GetFrameHeader && d.out == [] && stream == d.stream && start == d.pos
    requires |slices| == |room|
    modifies d, d.tmpOutBuffer
    ensures !ok ==> !Acceptable(old(d.meaning))
    ensures ok && done ==> var m := old(d.meaning); m.Frame? && m.ever && content == m.content && at == m.end
    ensures ok && old(d.meaning).Frame? ==> content <= old(d.meaning).content
    ensures Acceptable(old(d.meaning)) && Positive(slices, room) ==>
      var m := old(d.meaning); |slices| >= m.end - start + |m.content| ==> ok && done
  {
    hide Dctx.Valid, FrameFrom;
    ghost var m := d.meaning;
    ghost var b := d.tmpOutBuffer;
    d.AtStart();
    ok, done, content := true, false, [];
    at := start;
    var i := 0;
    while i < |slices| && !done
      invariant i <= |slices| && at == d.pos && start <= at <= |stream|
      invariant d.tmpOutBuffer == b || fresh(d.tmpOutBuffer)
      invariant d.Valid()
      invariant done ==> m.Frame? && m.ever && content == m.content && at == m.end
      invariant !done ==> d.meaning == m && d.out == content
      invariant !done && m.Frame? ==> at < m.end <= |stream| && content <= m.content
      invariant !done && m.Frame? && Positive(slices, room) ==> i <= at - start + |content|
    {
      var n: nat := Min(slices[i], |stream| - at);
      var dst := new byte[room[i]];
      var r, read, written := d.Decompress(dst, stream[at..at + n]);
      if r.Error? {
        return false, false, content, at;
      }
      content := content + dst[..written];
      at := at + read;
      done := r.size == 0;
      i := i + 1;
    }
  }

  /** A reader that gives each call exactly what the call before asked for: it never touches a byte behind the frame,
      and reads the frame to its end. */
  method DecodeByHints(d: Dctx, stream: seq<byte>, start: nat, room: nat)
    returns (ok: bool, content: seq<byte>, at: nat, asked: nat)
    requires d.Valid() && d.stage == GetFrameHeader && d.out == [] && stream == d.stream && start == d.pos && room > 0
    requires d.meaning.Frame?
    modifies d, d.tmpOutBuffer
    ensures asked <= old(d.meaning).end
    ensures !ok ==> !Acceptable(old(d.meaning))
    ensures ok ==> var m := old(d.meaning); m.ever && content == m.content && at == m.end
  {
    hide Dctx.Reading, FrameFrom, Onward, Asks, Dctx.Expected, Dctx.Due, Dctx.Prompt, Dctx.Unfinished, Dctx.Now;
    ghost var m, b := d.meaning, d.tmpOutBuffer;
    var hint, done := MIN_HEADER, false;
    content, at, asked := [], start, start;
    AtRest(d);
    while !done
      invariant d.tmpOutBuffer == b || fresh(d.tmpOutBuffer)
      invariant d.Valid() && asked <= m.end && at == d.pos <= m.end && m.end <= |stream|
      invariant done ==> m.ever && content == m.content && at == m.end
      invariant !done ==> d.meaning == m && d.out == content <= m.content
      invariant !done ==> d.Unfinished() && d.Prompt() && hint == d.Expected()
      decreases !done, m.end - at + |m.content| - |content|
    {
      d.PromptInside();
      d.UpToDue();
      asked := Max(asked, at + hint);
      ghost var now, before := d.Now(), d.out;
      var dst := new byte[room];
      var r, read, written := d.Decompress(dst, stream[at..at + hint]);
      if r.Error? {
        return false, content, at, asked;
      }
      content := content + dst[..written];
      done := r.size == 0;
      if !done {
        if d.stage == StoreFrameHeader {
          d.NothingOut();
        }
        d.StillPrompt(now, at, hint);
      }
      at, hint := at + read, r.size;
    }
    ok := true;
  }

  lemma AtRest(d: Dctx)
    requires d.Valid() && d.stage == GetFrameHeader && d.meaning.Frame?
    ensures d.Unfinished() && d.Prompt() && d.Expected() == MIN_HEADER && d.pos <= d.meaning.end <= |d.stream|
  {
    d.AtStart();
  }
}
