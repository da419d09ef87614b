/** The host side of the GPU compressor: how a launch is planned, and how epochs tag a reused dictionary. */
module GpuPlanner {
  import opened Bytes

  const UINT32 := 0x1_0000_0000
  const EPOCHS := 4096

  // --- The plan of a launch ---

  /** round_up_size. */
  function RoundUp(v: nat, align: nat): nat {
    if align == 0 then v else (v + align - 1) / align * align
  }

  /** choose_comp_dict_owner_count. */
  function DictOwners(workers: nat, budget: nat, bytesPerOwner: nat): nat {
    if workers == 0 then 1
    else if bytesPerOwner == 0 then workers
    else Min(Max(budget / bytesPerOwner, 1), workers)
  }

  datatype Plan = Plan(lanes: nat, launched: nat, padding: nat, dictBytes: nat, blocksPerOwner: nat)

  /** lz4_build_comp_plan; worker count, budget and bytes per owner come from the device. */
  function BuildPlan(workers: nat, budget: nat, bytesPerOwner: nat, numBlocks: nat, localSize: nat): Plan {
    var owners := DictOwners(workers, budget, bytesPerOwner);
    var lanes := Max(owners, 1);
    var rounded := RoundUp(lanes, localSize);
    var launched := Max(if rounded == 0 then Max(localSize, 1) else rounded, lanes);
    Plan(lanes, launched, launched - lanes, owners * bytesPerOwner,
         Max((numBlocks + lanes - 1) / lanes % UINT32, 1))
  }

  /** Dealing blocks to lanes in turn, lane `lane` gets a k-th block. */
  ghost predicate HasBlock(lanes: nat, numBlocks: nat, lane: nat, k: nat) {
    lane < lanes && k * lanes + lane < numBlocks
  }

  /** There are as many lanes as workers, or as the dictionaries of all lanes fit the budget, and no fewer. The launch
      is the smallest whole number of work groups. No lane gets more blocks than the plan says, and with fewer some
      lane would. */
  lemma PlanFits(workers: nat, budget: nat, bytesPerOwner: nat, numBlocks: nat, localSize: nat)
    requires numBlocks < UINT32
    ensures var p := BuildPlan(workers, budget, bytesPerOwner, numBlocks, localSize);
      && 1 <= p.lanes <= Max(workers, 1) && (p.lanes == 1 || p.lanes * bytesPerOwner <= budget)
      && (p.lanes < workers ==> budget < (p.lanes + 1) * bytesPerOwner)
      && p.lanes <= p.launched < p.lanes + Max(localSize, 1) && p.launched % Max(localSize, 1) == 0
      && p.padding == p.launched - p.lanes && p.dictBytes == p.lanes * bytesPerOwner
      && (forall lane: nat, k: nat :: HasBlock(p.lanes, numBlocks, lane, k) ==> k < p.blocksPerOwner)
      && (numBlocks > 0 ==> HasBlock(p.lanes, numBlocks, 0, p.blocksPerOwner - 1))
  {
    hide HasBlock, RoundUp, DictOwners;
    Owners(workers, budget, bytesPerOwner);
    var lanes := DictOwners(workers, budget, bytesPerOwner);
    LaneBlocks(lanes, numBlocks);
    Rounded(lanes, localSize);
  }

  lemma LaneBlocks(lanes: nat, numBlocks: nat)
    requires lanes >= 1 && numBlocks < UINT32
    ensures var b := Max((numBlocks + lanes - 1) / lanes % UINT32, 1);
      && (forall lane: nat, k: nat :: HasBlock(lanes, numBlocks, lane, k) ==> k < b)
      && (numBlocks > 0 ==> HasBlock(lanes, numBlocks, 0, b - 1))
  {
    var q := (numBlocks + lanes - 1) / lanes;
    Ceiling(numBlocks, lanes);
    assert q % UINT32 == q;
    forall lane: nat, k: nat | HasBlock(lanes, numBlocks, lane, k) ensures k < Max(q, 1) {
      if k >= q {
        MulMonotone(q, k, lanes);
      }
    }
    if q > 0 {
      assert (q - 1) * lanes == q * lanes - lanes;
    }
  }

  lemma Rounded(lanes: nat, localSize: nat)
    requires lanes >= 1
    ensures lanes <= RoundUp(lanes, localSize) < lanes + Max(localSize, 1)
    ensures RoundUp(lanes, localSize) % Max(localSize, 1) == 0
  {
    if localSize > 0 {
      Ceiling(lanes, localSize);
      WholeMultiple((lanes + localSize - 1) / localSize, localSize);
    }
  }

  lemma WholeMultiple(q: nat, d: nat)
    requires d > 0
    ensures q * d % d == 0
  {
    var x := q * d;
    var k := x / d;
    assert x == k * d + x % d;
    if k < q {
      MulMonotone(k + 1, q, d);
    }
  }

  lemma Owners(workers: nat, budget: nat, bytesPerOwner: nat)
    ensures var n := DictOwners(workers, budget, bytesPerOwner);
      && 1 <= n <= Max(workers, 1) && (n == 1 || n * bytesPerOwner <= budget)
      && (n < workers ==> budget < (n + 1) * bytesPerOwner)
  {
    var n := DictOwners(workers, budget, bytesPerOwner);
    if bytesPerOwner > 0 && workers > 0 {
      var q := budget / bytesPerOwner;
      assert budget == q * bytesPerOwner + budget % bytesPerOwner;
      assert (q + 1) * bytesPerOwner == q * bytesPerOwner + bytesPerOwner;
      if n > 1 {
        MulMonotone(n, q, bytesPerOwner);
      }
      if n < workers {
        MulMonotone(q + 1, n + 1, bytesPerOwner);
      }
    }
  }

  lemma Ceiling(n: nat, d: nat)
    requires d > 0
    ensures var q := (n + d - 1) / d; n <= q * d < n + d && q <= n
  {
    var q := (n + d - 1) / d;
    assert n + d - 1 == q * d + (n + d - 1) % d;
    MulMonotone(1, d, n);
    assert (n + 1) * d == n * d + d;
    if q > n {
      MulMonotone(n + 1, q, d);
    }
  }

  lemma MulMonotone(a: nat, b: nat, c: nat)
    requires a <= b
    ensures a * c <= b * c && c * a <= c * b
  {}

  // --- Epochs ---

  /** What a launch gets: `count` epochs from `start` on, for lanes of `blocks` blocks. */
  datatype Range = Range(start: nat, count: nat, blocks: nat)

  /** comp_epoch_base, and the ranges handed out since the dictionary was last zeroed. */
  datatype Epochs = Epochs(base: nat, since: seq<Range>)

  /** A launch: its blocks per owner, and whether the dictionary buffer was replaced by a larger, zeroed one. */
  datatype Launch = Launch(blocks: nat, grown: bool)

  function EpochsNeeded(blocks: nat): nat {
    var needed := (blocks + 2) % UINT32;
    if needed >= UINT32 - 1 - 1024 then 1024 else needed
  }

  /** The test for low 12 bits that would start over. */
  predicate Wraps(base: nat, needed: nat) {
    (base + needed) % UINT32 % EPOCHS <= base % EPOCHS || base > UINT32 - 1 - needed
  }

  /** One launch, as lz4_compress_core takes its epochs. */
  function Take(e: Epochs, l: Launch): Epochs {
    var base := if e.base == 0 then 1 else e.base;
    var wraps := Wraps(base, EpochsNeeded(l.blocks));
    var start := if wraps then 1 else base;
    Epochs((start + (l.blocks + 2) % UINT32) % UINT32,
           (if wraps || l.grown then [] else e.since) + [Range(start, (l.blocks + 2) % UINT32, l.blocks)])
  }

  /** All launches on one workspace. */
  function Run(ls: seq<Launch>): Epochs {
    if ls == [] then Epochs(1, []) else Take(Run(ls[..|ls| - 1]), ls[|ls| - 1])
  }

  class Workspace {
    var epochBase: nat
    ghost var since: seq<Range>

    ghost function State(): Epochs
      reads this
    {
      Epochs(epochBase, since)
    }

    /** lz4_gpu_workspace_init. */
    constructor ()
      ensures State() == Run([])
    {
      epochBase, since := 1, [];
    }

    /** The epoch block of lz4_compress_core. */
    method TakeEpochs(blocksPerOwner: nat, grown: bool) returns (epoch: nat, zeroed: bool)
      requires blocksPerOwner < UINT32
      modifies this
      ensures State() == Take(old(State()), Launch(blocksPerOwner, grown))
      ensures since != [] && epoch == since[|since| - 1].start
      ensures zeroed <==> grown || Wraps(Max(old(epochBase), 1), EpochsNeeded(blocksPerOwner))
      ensures zeroed ==> |since| == 1
    {
      zeroed := grown;
      if epochBase == 0 {
        epochBase := 1;
      }
      var needed := (blocksPerOwner + 2) % UINT32;
      if needed >= UINT32 - 1 - 1024 {
        needed := 1024;
      }
      var curLow, endLow := epochBase % EPOCHS, (epochBase + needed) % UINT32 % EPOCHS;
      if endLow <= curLow || epochBase > UINT32 - 1 - needed {
        zeroed, epochBase := true, 1;
      }
      epoch := epochBase;
      var count := (blocksPerOwner + 2) % UINT32;
      epochBase := (epochBase + count) % UINT32;
      since := (if zeroed then [] else since) + [Range(epoch, count, blocksPerOwner)];
    }
  }

  // --- When the tags tell launches apart ---

  ghost predicate In(x: nat, r: Range) {
    r.start <= x < r.start + r.count
  }

  /** No epoch of the range has low bits 0, the tag of a zeroed entry; there is one for each block. */
  ghost predicate Sound(r: Range) {
    r.count >= r.blocks && forall x: nat :: In(x, r) ==> x % EPOCHS != 0
  }

  /** The low 12 bits of the two ranges have nothing in common. */
  ghost predicate Disjoint(r: Range, r': Range) {
    forall x: nat, y: nat :: In(x, r) && In(y, r') ==> x % EPOCHS != y % EPOCHS
  }

  ghost predicate Distinct(since: seq<Range>) {
    && (forall i :: 0 <= i < |since| ==> Sound(since[i]))
    && (forall i, j :: 0 <= i < j < |since| ==> Disjoint(since[i], since[j]))
  }

  /** At every point of the run the ranges since the last zeroing are distinct. */
  ghost predicate SafeRun(ls: seq<Launch>) {
    forall k :: 0 <= k <= |ls| ==> Distinct(Run(ls[..k]).since)
  }

  /** All ranges lie in ascending order below the base, in the first 4096 epochs. */
  ghost predicate Orderly(e: Epochs) {
    && 1 <= e.base < EPOCHS
    && (forall i :: 0 <= i < |e.since| ==> Within(e.since[i], 1, e.base))
    && (forall i, j :: 0 <= i < j < |e.since| ==> e.since[i].start + e.since[i].count <= e.since[j].start)
  }

  ghost predicate Within(r: Range, from: nat, to: nat) {
    from <= r.start && r.start + r.count <= to && r.count >= r.blocks
  }

  lemma OrderlyIsDistinct(e: Epochs)
    requires Orderly(e)
    ensures Distinct(e.since)
  {
    forall i | 0 <= i < |e.since| ensures Sound(e.since[i]) {
      assert Within(e.since[i], 1, e.base);
    }
    forall i, j | 0 <= i < j < |e.since| ensures Disjoint(e.since[i], e.since[j]) {
      assert Within(e.since[i], 1, e.base) && Within(e.since[j], 1, e.base);
    }
  }

  /** For few epochs, the test tells whether they leave the first 4096. */
  lemma WrapsExact(base: nat, n: nat)
    requires 1 <= base < EPOCHS && n <= 4094
    ensures Wraps(base, n) <==> base + n >= EPOCHS || n == 0
  {
    if base + n >= EPOCHS {
      assert (base + n) % EPOCHS == base + n - EPOCHS;
    }
  }

  lemma SmallLaunch(e: Epochs, l: Launch)
    requires Orderly(e) && l.blocks + 2 <= 4094
    ensures Orderly(Take(e, l))
  {
    hide Wraps;
    var n := l.blocks + 2;
    assert EpochsNeeded(l.blocks) == n && n % UINT32 == n;
    WrapsExact(e.base, n);
    assert forall i :: 0 <= i < |e.since| ==> Within(e.since[i], 1, e.base + n);
  }

  /** 4095 epochs are still fine, but leave a base whose low bits are 0. */
  lemma LastLaunch(e: Epochs, l: Launch)
    requires Orderly(e) && l.blocks + 2 == 4095
    ensures Distinct(Take(e, l).since) && Take(e, l).base == EPOCHS
  {
    assert EpochsNeeded(l.blocks) == 4095;
    assert (e.base + 4095) % EPOCHS == e.base - 1;
    assert Take(e, l).since == [Range(1, 4095, l.blocks)];
  }

  /** A range of 4096 epochs or more, or one cut short by 32-bit arithmetic, is never sound. */
  lemma LargeLaunch(e: Epochs, l: Launch)
    requires l.blocks < UINT32 && l.blocks + 2 >= EPOCHS
    ensures !Distinct(Take(e, l).since)
  {
    var since := Take(e, l).since;
    var r := since[|since| - 1];
    if l.blocks + 2 < UINT32 {
      var x := (r.start + EPOCHS - 1) / EPOCHS * EPOCHS;
      assert In(x, r) && x % EPOCHS == 0;
    }
    assert !Sound(r);
  }

  lemma AfterLastLaunch(e: Epochs, l: Launch)
    requires e.base == EPOCHS && l.blocks < UINT32
    ensures !Distinct(Take(e, l).since)
  {
    if l.blocks + 2 >= EPOCHS {
      LargeLaunch(e, l);
    } else {
      var since := Take(e, l).since;
      assert !Wraps(EPOCHS, l.blocks + 2);
      assert In(EPOCHS, since[|since| - 1]);
      assert !Sound(since[|since| - 1]);
    }
  }

  /** Each launch asks for at most 4094 epochs, the last one for at most 4095. */
  ghost predicate SmallLaunches(ls: seq<Launch>) {
    forall i :: 0 <= i < |ls| ==> ls[i].blocks + 2 <= if i == |ls| - 1 then 4095 else 4094
  }

  lemma {:induction false} OrderlyRun(ls: seq<Launch>)
    requires forall i :: 0 <= i < |ls| ==> ls[i].blocks + 2 <= 4094
    ensures Orderly(Run(ls))
  {
    if ls != [] {
      OrderlyRun(ls[..|ls| - 1]);
      SmallLaunch(Run(ls[..|ls| - 1]), ls[|ls| - 1]);
    }
  }

  lemma RunPrefix(ls: seq<Launch>, k: nat)
    requires k < |ls|
    ensures Run(ls[..k + 1]) == Take(Run(ls[..k]), ls[k])
  {
    assert ls[..k + 1][..k] == ls[..k];
  }

  /** Exactly the runs of small launches keep the tags of reused dictionary entries apart. */
  lemma EpochsExact(ls: seq<Launch>)
    requires forall i :: 0 <= i < |ls| ==> ls[i].blocks < UINT32
    ensures SafeRun(ls) <==> SmallLaunches(ls)
  {
    if SmallLaunches(ls) {
      forall k | 0 <= k <= |ls| ensures Distinct(Run(ls[..k]).since) {
        SmallIsSafe(ls, k);
      }
    } else {
      var i := FirstLarge(ls);
      OrderlyRun(ls[..i]);
      RunPrefix(ls, i);
      if ls[i].blocks + 2 == 4095 {
        LastLaunch(Run(ls[..i]), ls[i]);
        RunPrefix(ls, i + 1);
        AfterLastLaunch(Run(ls[..i + 1]), ls[i + 1]);
      } else {
        LargeLaunch(Run(ls[..i]), ls[i]);
      }
    }
  }

  lemma SmallIsSafe(ls: seq<Launch>, k: nat)
    requires SmallLaunches(ls) && k <= |ls|
    ensures Distinct(Run(ls[..k]).since)
  {
    if k < |ls| || k == 0 || ls[k - 1].blocks + 2 <= 4094 {
      OrderlyRun(ls[..k]);
      OrderlyIsDistinct(Run(ls[..k]));
    } else {
      OrderlyRun(ls[..k - 1]);
      RunPrefix(ls, k - 1);
      LastLaunch(Run(ls[..k - 1]), ls[k - 1]);
    }
  }

  ghost function FirstLarge(ls: seq<Launch>): (i: nat)
    requires !SmallLaunches(ls)
    ensures i < |ls| && ls[i].blocks + 2 > (if i == |ls| - 1 then 4095 else 4094)
    ensures forall j :: 0 <= j < i ==> ls[j].blocks + 2 <= 4094
  {
    FirstLargeFrom(ls, 0)
  }

  ghost function FirstLargeFrom(ls: seq<Launch>, from: nat): (i: nat)
    requires from <= |ls| && (forall j :: 0 <= j < from ==> ls[j].blocks + 2 <= 4094) && !SmallLaunches(ls)
    ensures i < |ls| && ls[i].blocks + 2 > (if i == |ls| - 1 then 4095 else 4094)
    ensures forall j :: 0 <= j < i ==> ls[j].blocks + 2 <= 4094
    decreases |ls| - from
  {
    if ls[from].blocks + 2 > (if from == |ls| - 1 then 4095 else 4094) then from else FirstLargeFrom(ls, from + 1)
  }

  /** What launch `k` of a run gets: the start of the last range, on tables that were zeroed or not. */
  ghost predicate Given(ls: seq<Launch>, k: nat, epoch: nat, zeroed: bool)
    requires k < |ls|
  {
    var before, after := Run(ls[..k]), Run(ls[..k + 1]);
    && after.since != [] && epoch == after.since[|after.since| - 1].start
    && (zeroed <==> ls[k].grown || Wraps(Max(before.base, 1), EpochsNeeded(ls[k].blocks)))
  }

  /** Launches on one workspace: as long as they are small, every range handed out keeps apart from those before it. */
  method Launches(ls: seq<Launch>) returns (w: Workspace, epochs: seq<nat>, zeroings: seq<bool>)
    requires forall i :: 0 <= i < |ls| ==> ls[i].blocks < UINT32
    ensures fresh(w) && w.State() == Run(ls)
    ensures |epochs| == |zeroings| == |ls|
    ensures forall k :: 0 <= k < |ls| ==> Given(ls, k, epochs[k], zeroings[k])
    ensures SmallLaunches(ls) ==> Distinct(w.since)
  {
    w := new Workspace();
    epochs, zeroings := [], [];
    for i := 0 to |ls|
      invariant fresh(w) && w.State() == Run(ls[..i]) && |epochs| == |zeroings| == i
      invariant forall k :: 0 <= k < i ==> Given(ls, k, epochs[k], zeroings[k])
    {
      var epoch, zeroed := w.TakeEpochs(ls[i].blocks, ls[i].grown);
      RunPrefix(ls, i);
      epochs, zeroings := epochs + [epoch], zeroings + [zeroed];
    }
    assert ls[..|ls|] == ls;
    EpochsExact(ls);
  }
}
