/** The packed container of the GPU codec: how compressed blocks are written one after the other, and found again. */
module GpuContainer {
  import opened Bytes
  import opened MemCopy

  const PACK_CAPACITY := 1024 * 1024
  const UINT32_MAX := 0xFFFF_FFFF

  /** Block i lies at its own place in the sparse output of the kernel. */
  ghost predicate InBase(base: seq<byte>, offsets: seq<nat>, sizes: seq<nat>) {
    |offsets| == |sizes| && forall i :: 0 <= i < |sizes| ==> offsets[i] + sizes[i] <= |base|
  }

  /** The first n blocks, one after the other. */
  function Packed(base: seq<byte>, offsets: seq<nat>, sizes: seq<nat>, n: nat): (r: seq<byte>)
    requires InBase(base, offsets, sizes) && n <= |sizes|
    ensures |r| == Total(sizes, n)
  {
    if n == 0 then [] else Packed(base, offsets, sizes, n - 1) + base[offsets[n - 1]..offsets[n - 1] + sizes[n - 1]]
  }

  function Total(sizes: seq<nat>, n: nat): nat
    requires n <= |sizes|
  {
    if n == 0 then 0 else Total(sizes, n - 1) + sizes[n - 1]
  }

  /** Where block i of the decompressed output starts. */
  function Place(i: nat, blockSize: nat): nat {
    i * blockSize
  }

  /** What a file that can hold `room` bytes keeps of `s`. */
  function Kept(s: seq<byte>, room: nat): (r: seq<byte>)
    ensures r <= s && |r| <= room && (r == s <==> |s| <= room)
  {
    if |s| <= room then s else s[..room]
  }

  /** fwrite: a short write fails. */
  method Write(file0: seq<byte>, room: nat, bytes: seq<byte>) returns (ok: bool, file: seq<byte>)
    requires |file0| <= room
    ensures file == Kept(file0 + bytes, room) && (ok <==> |file0 + bytes| <= room)
  {
    ok := |file0| + |bytes| <= room;
    file := file0 + if ok then bytes else bytes[..room - |file0|];
  }

  /** lz4_write_blocks_packed: whatever goes through the staging buffer, the file gets the blocks in order; it fails
      exactly when they do not all fit. */
  method WriteBlocksPacked(file0: seq<byte>, room: nat, base: seq<byte>, offsets: seq<nat>, sizes: seq<nat>,
                           staging: bool)
    returns (ok: bool, file: seq<byte>)
    requires InBase(base, offsets, sizes) && |file0| <= room
    ensures file == Kept(file0 + Packed(base, offsets, sizes, |sizes|), room)
    ensures ok <==> |file0| + Total(sizes, |sizes|) <= room
  {
    hide Packed;
    PackedNothing(base, offsets, sizes);
    ok, file := true, file0;
    if !staging {
      for i := 0 to |sizes|
        invariant file == file0 + Packed(base, offsets, sizes, i) && |file| <= room
      {
        PackedOneMore(file0, base, offsets, sizes, i);
        if sizes[i] > 0 {
          ok, file := Write(file, room, base[offsets[i]..offsets[i] + sizes[i]]);
          if !ok {
            PackedLater(file0, room, base, offsets, sizes, i + 1);
            return;
          }
        }
      }
      return;
    }
    var pack := new byte[PACK_CAPACITY](_ => 0);
    var fill: nat := 0;
    for i := 0 to |sizes|
      invariant fill <= PACK_CAPACITY && fresh(pack) && |file| <= room
      invariant file + pack[..fill] == file0 + Packed(base, offsets, sizes, i)
    {
      PackedOneMore(file0, base, offsets, sizes, i);
      ok, file, fill := Stage(pack, fill, file, room, base, offsets[i], sizes[i]);
      if !ok {
        PackedLater(file0, room, base, offsets, sizes, i + 1);
        return;
      }
    }
    if fill > 0 {
      ok, file := Write(file, room, pack[..fill]);
    }
  }

  lemma PackedNothing(base: seq<byte>, offsets: seq<nat>, sizes: seq<nat>)
    requires InBase(base, offsets, sizes)
    ensures Packed(base, offsets, sizes, 0) == []
  {}

  lemma PackedOneMore(file0: seq<byte>, base: seq<byte>, offsets: seq<nat>, sizes: seq<nat>, i: nat)
    requires InBase(base, offsets, sizes) && i < |sizes|
    ensures (file0 + Packed(base, offsets, sizes, i)) + base[offsets[i]..offsets[i] + sizes[i]]
         == file0 + Packed(base, offsets, sizes, i + 1)
  {}

  /** What does not fit any more stays so. */
  lemma {:induction false} PackedLater(file0: seq<byte>, room: nat, base: seq<byte>, offsets: seq<nat>, sizes: seq<nat>,
                                       i: nat)
    requires InBase(base, offsets, sizes) && i <= |sizes| && |file0| + Total(sizes, i) > room
    ensures Kept(file0 + Packed(base, offsets, sizes, i), room)
         == Kept(file0 + Packed(base, offsets, sizes, |sizes|), room)
    ensures |file0| + Total(sizes, |sizes|) > room
    decreases |sizes| - i
  {
    if i < |sizes| {
      PackedOneMore(file0, base, offsets, sizes, i);
      PackedLater(file0, room, base, offsets, sizes, i + 1);
    }
  }

  /** One block: into the staging buffer, which is written out first where there is no room; large ones go past it. */
  method Stage(pack: array<byte>, fill0: nat, file0: seq<byte>, room: nat, base: seq<byte>, offset: nat, len: nat)
    returns (ok: bool, file: seq<byte>, fill: nat)
    requires pack.Length == PACK_CAPACITY && fill0 <= PACK_CAPACITY && offset + len <= |base| && |file0| <= room
    modifies pack
    ensures fill <= PACK_CAPACITY && |file| <= room
    ensures var all := file0 + old(pack[..fill0]) + base[offset..offset + len];
      if ok then file + pack[..fill] == all else file == Kept(all, room) && |all| > room
  {
    hide Kept;
    ok, file, fill := true, file0, fill0;
    ghost var staged, block := pack[..fill0], base[offset..offset + len];
    if len == 0 {
      assert block == [];
      return;
    }
    if len > PACK_CAPACITY || fill + len > PACK_CAPACITY {
      if fill > 0 {
        ok, file := Write(file, room, pack[..fill]);
        if !ok {
          StillFull(file0 + staged, block, room);
          return;
        }
        fill := 0;
      }
    }
    if len > PACK_CAPACITY {
      assert file == file0 + staged && pack[..fill] == [];
      ok, file := Write(file, room, base[offset..offset + len]);
      assert ok ==> file + pack[..fill] == file;
      return;
    }
    ghost var before := pack[..];
    CopyFrom(pack, fill, base, offset, len);
    assert pack[..fill + len] == before[..fill] + block;
    fill := fill + len;
  }

  lemma StillFull(s: seq<byte>, more: seq<byte>, room: nat)
    requires |s| > room
    ensures Kept(s, room) == Kept(s + more, room)
  {}

  /** The last block starts at offsets of 32 bits, in the payload and in the output. */
  predicate Nameable(sizes: seq<nat>, blockSize: nat) {
    |sizes| == 0 || (Total(sizes, |sizes| - 1) <= UINT32_MAX && Place(|sizes| - 1, blockSize) <= UINT32_MAX)
  }

  /** The offset loop of lz4_decompress_core. */
  method BlockOffsets(sizes: seq<nat>, blockSize: nat) returns (ok: bool, inOffsets: seq<nat>, outOffsets: seq<nat>)
    requires blockSize <= UINT32_MAX
    ensures ok <==> Nameable(sizes, blockSize)
    ensures ok ==> |inOffsets| == |outOffsets| == |sizes|
    ensures ok ==>
      forall i :: 0 <= i < |sizes| ==> inOffsets[i] == Total(sizes, i) && outOffsets[i] == Place(i, blockSize)
  {
    hide Place, Total;
    Places(0, 0, blockSize);
    Totals(sizes);
    inOffsets, outOffsets := [], [];
    var currIn, currOut := 0, 0;
    for i := 0 to |sizes|
      invariant currIn == Total(sizes, i) && currOut == Place(i, blockSize)
      invariant |inOffsets| == |outOffsets| == i
      invariant forall k :: 0 <= k < i ==> inOffsets[k] == Total(sizes, k) && outOffsets[k] == Place(k, blockSize)
      invariant i > 0 ==> Total(sizes, i - 1) <= UINT32_MAX && Place(i - 1, blockSize) <= UINT32_MAX
    {
      if currIn > UINT32_MAX || currOut > UINT32_MAX || blockSize > UINT32_MAX {
        TotalGrows(sizes, i, |sizes| - 1);
        Places(i, |sizes| - 1, blockSize);
        return false, [], [];
      }
      inOffsets, outOffsets := inOffsets + [currIn], outOffsets + [currOut];
      Places(i, i, blockSize);
      currIn, currOut := currIn + sizes[i], currOut + blockSize;
    }
    ok := true;
  }

  lemma {:induction false} TotalGrows(sizes: seq<nat>, i: nat, j: nat)
    requires i <= j <= |sizes|
    ensures Total(sizes, i) <= Total(sizes, j)
    decreases j
  {
    if i < j {
      TotalGrows(sizes, i, j - 1);
    }
  }

  lemma Totals(sizes: seq<nat>)
    ensures Total(sizes, 0) == 0 && forall i :: 0 <= i < |sizes| ==> Total(sizes, i + 1) == Total(sizes, i) + sizes[i]
  {}

  lemma Places(i: nat, j: nat, b: nat)
    requires i <= j
    ensures Place(0, b) == 0 && Place(i, b) <= Place(j, b) && Place(j + 1, b) == Place(j, b) + b
  {}

  /** A block is found at the offset the reader computes. */
  lemma {:induction false} BlockFound(base: seq<byte>, offsets: seq<nat>, sizes: seq<nat>, n: nat, i: nat)
    requires InBase(base, offsets, sizes) && i < n <= |sizes|
    ensures Total(sizes, i) + sizes[i] <= Total(sizes, n)
    ensures Packed(base, offsets, sizes, n)[Total(sizes, i)..Total(sizes, i) + sizes[i]]
         == base[offsets[i]..offsets[i] + sizes[i]]
    decreases n
  {
    if i < n - 1 {
      BlockFound(base, offsets, sizes, n - 1, i);
    }
  }

  /** What the writer packs, the reader finds: block by block, for any placement and sizes that fit the file and that
      32-bit offsets can name. */
  method RoundTrip(base: seq<byte>, offsets: seq<nat>, sizes: seq<nat>, blockSize: nat, staging: bool, room: nat)
    returns (ok: bool, payload: seq<byte>, inOffsets: seq<nat>)
    requires InBase(base, offsets, sizes) && blockSize <= UINT32_MAX
    ensures ok <==> Total(sizes, |sizes|) <= room && Nameable(sizes, blockSize)
    ensures ok ==> |inOffsets| == |sizes|
    ensures ok ==> forall i :: 0 <= i < |sizes| ==>
      && inOffsets[i] + sizes[i] <= |payload|
      && payload[inOffsets[i]..inOffsets[i] + sizes[i]] == base[offsets[i]..offsets[i] + sizes[i]]
  {
    var outOffsets;
    ok, payload := WriteBlocksPacked([], room, base, offsets, sizes, staging);
    if !ok {
      return false, payload, [];
    }
    ok, inOffsets, outOffsets := BlockOffsets(sizes, blockSize);
    if ok {
      forall i | 0 <= i < |sizes|
        ensures inOffsets[i] + sizes[i] <= |payload|
        ensures payload[inOffsets[i]..inOffsets[i] + sizes[i]] == base[offsets[i]..offsets[i] + sizes[i]]
      {
        BlockFound(base, offsets, sizes, |sizes|, i);
      }
    }
  }
}
