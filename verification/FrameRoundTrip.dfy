/** Whole runs of the frame codec: any sequence of calls to encode, any slicing to decode. */
module FrameRoundTrip {
  import opened Bytes
  import opened MemCopy
  import opened FrameFormat
  import opened FrameEncoder
  import FE = FrameEncoding
  import FD = FrameDecoder

  /** One call of the caller: some input, which lies at `at` during the call, or a flush. */
  datatype Call = Feed(at: nat, data: seq<byte>) | FlushNow

  ghost function Fed(calls: seq<Call>): seq<byte> {
    if calls == [] then []
    else Fed(calls[..|calls| - 1]) + (if calls[|calls| - 1].Feed? then calls[|calls| - 1].data else [])
  }

  /** All input lies in memory and outside the encoder's buffer. */
  ghost predicate Fits(calls: seq<Call>, size: nat, buffer: nat, length: nat) {
    forall i :: 0 <= i < |calls| && calls[i].Feed? ==>
      && calls[i].at + |calls[i].data| <= size
      && (calls[i].at + |calls[i].data| <= buffer || buffer + length <= calls[i].at)
  }

  /** A caller that fills its input buffer and passes it on. */
  method OneCall(c: Cctx, call: Call) returns (bytes: seq<byte>)
    requires c.Valid() && c.started && Fits([call], c.mem.Length, c.tmpBuff, c.maxBufferSize)
    modifies c, c.mem, c.lz4, c.lz4.table
    ensures c.Valid() && c.started && c.prefs == old(c.prefs)
    ensures c.tmpBuff == old(c.tmpBuff) && c.maxBufferSize == old(c.maxBufferSize)
    ensures c.emitted == old(c.emitted) + bytes && c.content == old(c.content) + Fed([call])
  {
    hide Cctx.Valid, SameOutside, BoundInternal, Fed;
    Singleton(call);
    match call
    case FlushNow =>
      assert c.content + [] == c.content;
      var dst := new byte[c.tmpInSize + 8];
      var r := c.Flush(dst);
      bytes := dst[..r.size];
    case Feed(at, data) =>
      assert [call][0].Feed?;
      Fill(c, at, data);
      var dst := new byte[BoundInternal(|data|, c.prefs, c.tmpInSize)];
      var r := c.Update(dst, at, |data|);
      bytes := dst[..r.size];
  }

  method Fill(c: Cctx, at: nat, data: seq<byte>)
    requires c.Valid() && c.started && c.Apart(at, |data|)
    modifies c.mem
    ensures c.Valid() && c.mem[at..at + |data|] == data
  {
    hide FE.Reaches, SameOutside, Cctx.Linked, Cctx.LinkedIn;
    ghost var was := c.mem[..];
    c.HistoryInside();
    c.LinkedByValue(c.tmpIn);
    CopyPiece(c.mem, at, data);
    SegmentKept(was, c.mem[..], c.tmpIn, c.tmpIn + c.tmpInSize, at, at + |data|);
    c.StillLinked(was, at, at + |data|);
  }

  /** A whole run: begin, any calls, end. The frame means what was fed, stored blocks and all. */
  method Encode(c: Cctx, p: Prefs, buffer: nat, calls: seq<Call>) returns (frame: seq<byte>)
    requires c.Valid() && ValidPrefs(p) && buffer + BufferSize(p) <= c.mem.Length
    requires c.maxBufferSize < BufferSize(p) ==> Fits(calls, c.mem.Length, buffer, BufferSize(p))
    requires BufferSize(p) <= c.maxBufferSize ==> Fits(calls, c.mem.Length, c.tmpBuff, c.maxBufferSize)
    requires p.info.contentSize == 0 || p.info.contentSize == |Fed(calls)|
    modifies c, c.mem, c.lz4, c.lz4.table
    ensures FrameFrom(c.xxh, [], frame, 0) == Frame(Fed(calls), |frame|, true, true)
  {
    hide Cctx.Valid, FrameFrom, FE.HeaderBytes, Bound, BoundInternal, BufferSize;
    var dst := new byte[MAX_HEADER];
    var r := c.Begin(dst, p, buffer);
    frame := dst[..r.size];
    assert calls[..0] == [];
    for i := 0 to |calls|
      invariant c.Valid() && c.started && c.prefs == p.(info := Completed(p.info)) && c.emitted == frame
      invariant Fits(calls, c.mem.Length, c.tmpBuff, c.maxBufferSize)
      invariant c.content == Fed(calls[..i])
    {
      assert calls[..i + 1][..i] == calls[..i] && calls[..i + 1][i] == calls[i];
      Singleton(calls[i]);
      assert Fits([calls[i]], c.mem.Length, c.tmpBuff, c.maxBufferSize);
      var bytes := OneCall(c, calls[i]);
      frame := frame + bytes;
    }
    assert calls[..|calls|] == calls;
    dst := new byte[Bound(0, c.prefs)];
    r := c.End(dst);
    assert r.Written? by { SmallModulus(p.info.contentSize); }
    frame := frame + dst[..r.size];
  }

  lemma Singleton(call: Call)
    ensures Fed([call]) == if call.Feed? then call.data else []
  {
    assert [call][..0] == [];
  }

  lemma SmallModulus(n: nat)
    requires n < TWO64
    ensures n % TWO64 == n
  {}

  /** Encoded by any calls and decoded in any slices, the input comes back. */
  method RoundTrip(c: Cctx, p: Prefs, buffer: nat, calls: seq<Call>, slices: seq<nat>, room: seq<nat>)
    returns (frame: seq<byte>, ok: bool, done: bool, content: seq<byte>, at: nat)
    requires c.Valid() && ValidPrefs(p) && buffer + BufferSize(p) <= c.mem.Length
    requires c.maxBufferSize < BufferSize(p) ==> Fits(calls, c.mem.Length, buffer, BufferSize(p))
    requires BufferSize(p) <= c.maxBufferSize ==> Fits(calls, c.mem.Length, c.tmpBuff, c.maxBufferSize)
    requires p.info.contentSize == 0 || p.info.contentSize == |Fed(calls)|
    requires |slices| == |room|
    modifies c, c.mem, c.lz4, c.lz4.table
    ensures ok && content <= Fed(calls) && (done ==> content == Fed(calls) && at == |frame|)
    ensures FD.Positive(slices, room) && |slices| >= |frame| + |Fed(calls)| ==> done
  {
    hide Cctx.Valid, FD.Dctx.Valid, FrameFrom;
    frame := Encode(c, p, buffer, calls);
    var d := new FD.Dctx(c.xxh, frame);
    ok, done, content, at := FD.DecodeInSlices(d, frame, 0, slices, room);
  }
}
