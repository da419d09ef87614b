/** The one-shot block functions, and their round trips through real buffers. */
module BlockApi {
  import opened Bytes
  import opened BlockFormat
  import opened MemCopy
  import opened BlockDecoder
  import FC = FastCompressor
  import FP = FastParse
  import FS = FastStream

  /** LZ4_decompress_safe. */
  method DecompressSafe(src: seq<byte>, dst: array<byte>, capacity: nat) returns (result: int)
    requires capacity <= dst.Length
    modifies dst
    ensures result <= capacity && SameOutside(old(dst[..]), dst[..], 0, capacity)
    ensures result >= 0 ==> Decode(src, 0, []).Decoded? && Decode(src, 0, []).out == dst[..result]
    ensures result < 0 && capacity > 0 ==>
      var r := Decode(src, 0, []); !(r.Decoded? && r.conforming && |r.out| <= capacity)
    ensures capacity == 0 ==> (result >= 0 <==> src == [0])
    ensures result >= 0 <==> Accepts(Job(src, 0, capacity, NoDict, 0, []))
  {
    hide Decode, Takes;
    var j := Job(src, 0, capacity, NoDict, 0, []);
    assert j.View(dst[..], 0) == [];
    result := Decompress(dst, j);
    if result >= 0 {
      assert j.View(dst[..], result) == dst[..result];
    }
  }

  /** The block LZ4_compress_fast_extState writes: nothing but the source and the acceleration matter. */
  ghost function FastBlock(slots: nat, hash32: seq<byte> -> nat, hash16: seq<byte> -> nat, src: seq<byte>,
                           acceleration: int): (block: seq<byte>)
    requires |src| <= FS.MAX_INPUT_SIZE && forall s :: hash32(s) < slots && hash16(s) < slots
    ensures MIN_LENGTH <= |src| && FP.AllEqual(src) ==> |block| == FP.EqualSize(|src|)
  {
    if src == [] then [0]
    else
      var inp := if |src| < FS.LZ4_64KLIMIT then FP.Input(src, 0, 0, FP.ByU16, FP.NoDict, false, hash16, slots)
                 else FP.Input(src, 0, 0, FP.ByU32, FP.NoDict, false, hash32, slots);
      var t, a := seq(slots, _ => 0), FS.ClampAcceleration(acceleration);
      var block := FP.Written(inp, FP.Parse(inp, t, a));
      assert MIN_LENGTH <= |src| && FP.AllEqual(src) ==> |block| == FP.EqualSize(|src|) by {
        if MIN_LENGTH <= |src| && FP.AllEqual(src) {
          FP.EqualBytes(inp, t, a);
        }
      }
      block
  }

  /** LZ4_compress_fast_extState. */
  method CompressFast(state: FS.Stream, src: seq<byte>, dst: array<byte>, capacity: nat, acceleration: int)
    returns (result: nat)
    requires state.Shaped()
    requires dst != state.table as object && capacity <= dst.Length
    modifies state, state.table, dst
    ensures result > 0 ==>
      result <= capacity && result <= FC.CompressBound(|src|) && Decode(dst[..result], 0, []) == Decoded(src, true)
    ensures result > 0 && src == [] ==> dst[..result] == [0]
    ensures FC.CompressBound(|src|) <= capacity && |src| <= FS.MAX_INPUT_SIZE ==> result > 0
    ensures |src| <= FS.MAX_INPUT_SIZE ==>
      var block := FastBlock(state.slots, state.hash32, state.hash16, src, acceleration);
      (result > 0 <==> |block| <= capacity) && (result > 0 ==> dst[..result] == block)
    ensures |src| > FS.MAX_INPUT_SIZE ==> result == 0
    ensures SameOutside(old(dst[..]), dst[..], 0, capacity)
  {
    hide Decode, FP.AllEqual, FP.Parse, FP.Written, FP.Sound;
    state.Init();
    assert state.table[..] == seq(state.slots, _ => 0);
    var o := FC.Output(if capacity >= FS.BoundOrZero(|src|) then FC.NotLimited else FC.LimitedOutput, capacity);
    var tableType := if |src| < FS.LZ4_64KLIMIT then FP.ByU16 else FP.ByU32;
    assert src[..0] == [];
    result := state.CompressGeneric(src, 0, dst, o, tableType, FP.NoDict, false, FS.ClampAcceleration(acceleration));
  }

  /** One call of a run on a state that is never cleared. */
  datatype Call = Call(src: seq<byte>, capacity: nat, acceleration: int)

  /** No block, which cannot happen when there is room enough, or one that stands for the source. */
  ghost predicate Answers(c: Call, block: seq<byte>) {
    && (block != [] ==> |block| <= c.capacity && Decode(block, 0, []) == Decoded(c.src, true))
    && (FC.CompressBound(|c.src|) <= c.capacity && |c.src| <= FS.MAX_INPUT_SIZE ==> block != [])
  }

  lemma IsAnswer(c: Call, block: seq<byte>)
    requires block != [] ==> |block| <= c.capacity && Decode(block, 0, []) == Decoded(c.src, true)
    requires FC.CompressBound(|c.src|) <= c.capacity && |c.src| <= FS.MAX_INPUT_SIZE ==> block != []
    ensures Answers(c, block)
  {
    hide Decode;
  }

  /** Any number of LZ4_compress_fast_extState_fastReset calls, failed ones included, on one state: whatever
      the earlier calls left in the table, a block that is produced stands for its own source. */
  method FastResetRun(slots: nat, hash32: seq<byte> -> nat, hash16: seq<byte> -> nat, calls: seq<Call>)
    returns (blocks: seq<seq<byte>>)
    requires forall s :: hash32(s) < slots && hash16(s) < slots
    ensures |blocks| == |calls| && forall i :: 0 <= i < |calls| ==> Answers(calls[i], blocks[i])
  {
    hide Answers, Decode;
    var state := new FS.Stream(slots, hash32, hash16);
    blocks := [];
    for k := 0 to |calls|
      invariant |blocks| == k && state.Valid() && fresh(state) && fresh(state.table)
      invariant forall i :: 0 <= i < k ==> Answers(calls[i], blocks[i])
    {
      var c := calls[k];
      var dst := new byte[c.capacity](_ => 0);
      var result := state.CompressFastReset(c.src, dst, c.capacity, c.acceleration);
      var block := if result > 0 then dst[..result] else [];
      assert Answers(c, block) by { IsAnswer(c, block); }
      blocks := blocks + [block];
    }
  }

  /** LZ4_compress_destSize_extState_internal: as much of the source as fits into `target` bytes. */
  method CompressDestSize(state: FS.Stream, src: seq<byte>, dst: array<byte>, target: nat, acceleration: int)
    returns (result: nat, consumed: nat)
    requires state.Shaped()
    requires dst != state.table as object && target <= dst.Length
    modifies state, state.table, dst
    ensures result > 0 ==>
      && result <= target && consumed <= |src|
      && Decode(dst[..result], 0, []) == Decoded(src[..consumed], true)
      && (consumed == 0 ==> dst[..result] == [0])
    ensures result > 0 && consumed < |src| ==> FC.UsedUp(target, result, consumed)
    ensures result > 0 && FC.CompressBound(|src|) <= target ==> consumed == |src|
    ensures target >= 1 && |src| <= FS.MAX_INPUT_SIZE ==> result > 0
    ensures |src| <= FS.MAX_INPUT_SIZE ==>
      var block := FastBlock(state.slots, state.hash32, state.hash16, src, acceleration);
      |block| + 3 <= target ==> result > 0 && consumed == |src| && dst[..result] == block
    ensures SameOutside(old(dst[..]), dst[..], 0, target)
  {
    hide Decode, FC.UsedUp, FP.AllEqual, FP.Parse, FP.Written, FP.Sound;
    state.Init();
    assert state.table[..] == seq(state.slots, _ => 0);
    assert src[..|src|] == src;
    if target >= FS.BoundOrZero(|src|) {
      result := CompressFast(state, src, dst, target, acceleration);
      return result, |src|;
    }
    if |src| == 0 {
      if target == 0 {
        return 0, 0;
      }
      dst[0] := 0;
      EmptyBlock(dst[..1], []);
      return 1, 0;
    }
    var tableType := if |src| < FS.LZ4_64KLIMIT then FP.ByU16 else FP.ByU32;
    var inp := FP.Input(src, 0, 0, tableType, FP.NoDict, false,
                        if tableType == FP.ByU16 then state.hash16 else state.hash32, state.slots);
    assert inp.data[..0] == [];
    result, consumed := FC.CompressValidated(inp, FC.Output(FC.FillOutput, target), state.table, dst,
      FS.ClampAcceleration(acceleration));
  }

  /** A block compressed in one piece comes back, given exactly the room it needs. */
  method RoundTrip(state: FS.Stream, src: seq<byte>, packet: array<byte>, acceleration: int, dst: array<byte>)
    returns (sent: nat, result: int)
    requires state.Shaped()
    requires packet != state.table as object && dst != state.table as object && dst != packet && |src| <= dst.Length
    modifies state, state.table, packet, dst
    ensures sent > 0 ==> result == |src| && dst[..|src|] == src
    ensures FC.CompressBound(|src|) <= packet.Length && |src| <= FS.MAX_INPUT_SIZE ==> sent > 0
  {
    hide Decode;
    sent := CompressFast(state, src, packet, packet.Length, acceleration);
    result := 0;
    if sent > 0 {
      result := DecompressSafe(packet[..sent], dst, |src|);
    }
  }

  /** Whatever LZ4_compress_destSize says it consumed comes back, given exactly that much room. */
  method DestSizeRoundTrip(state: FS.Stream, src: seq<byte>, packet: array<byte>, acceleration: int, dst: array<byte>)
    returns (sent: nat, consumed: nat, result: int)
    requires state.Shaped()
    requires packet != state.table as object && dst != state.table as object && dst != packet && |src| <= dst.Length
    modifies state, state.table, packet, dst
    ensures sent > 0 ==> consumed <= |src| && result == consumed && dst[..consumed] == src[..consumed]
    ensures sent > 0 && consumed < |src| ==> FC.UsedUp(packet.Length, sent, consumed)
    ensures packet.Length >= 1 && |src| <= FS.MAX_INPUT_SIZE ==> sent > 0
  {
    hide Decode;
    sent, consumed := CompressDestSize(state, src, packet, packet.Length, acceleration);
    result := 0;
    if sent > 0 {
      result := DecompressSafe(packet[..sent], dst, consumed);
    }
  }
}
