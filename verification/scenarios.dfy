/** The library's own usage scenarios, stated over the model: populating a
    vector and reading it through split views, and four workers writing
    through disjoint mutable views of one vector. */
module Scenarios {
  import opened Outcomes
  import opened BitStorage
  import opened Views
  import BitSlice
  import BitSliceMut
  import opened BitVector

  /** The set bits of the split-reading scenario. */
  const TenBits: seq<nat> := [1, 3, 5, 7, 11, 13, 17, 19, 23, 29]

  /** The first and second halves of the split-reading scenario. */
  const LowHalf: seq<bool> :=
    [false, true, false, true, false, true, false, true,
     false, false, false, true, false, true, false, false]
  const HighHalf: seq<bool> :=
    [false, true, false, true, false, false, false, true,
     false, false, false, false, false, true, false, false]

  /** Setting some in-range indices of an all-`false` vector makes exactly
      those indices read `true`. */
  lemma SetEachOnClear(vec: BitVector, indices: seq<nat>)
    requires Valid(vec)
    requires forall n :: 0 <= n < |indices| ==> indices[n] < vec.capacity
    requires forall j :: 0 <= j < vec.capacity ==> Get(vec, j) == Some(false)
    ensures SetEach(vec, indices, true).Ok?
    ensures forall j :: 0 <= j < vec.capacity ==> Get(SetEach(vec, indices, true).value, j) == Some(j in indices)
  {
  }

  /** `indices` are in range for 32 bits, and the halves show exactly the
      bits `indices` names. */
  predicate SetsHalves(indices: seq<nat>)
  {
    && (forall n :: 0 <= n < |indices| ==> indices[n] < 32)
    && (forall j :: 0 <= j < 16 ==> LowHalf[j] == (j in indices))
    && (forall j :: 0 <= j < 16 ==> HighHalf[j] == (16 + j in indices))
  }

  /** The ten bits are the halves' pattern. */
  lemma TenBitsSetsHalves()
    ensures SetsHalves(TenBits)
  {
    assert forall j :: j in TenBits <==> j in {1, 3, 5, 7, 11, 13, 17, 19, 23, 29};
  }

  /** A 32-bit vector reading `true` exactly at `indices`, split at 16:
      each half reads its sixteen bits in order, and the right half
      answers `None` for (and panics on) its own index 16. */
  lemma SplitHalvesRead(vec: BitVector, indices: seq<nat>)
    requires Valid(vec) && vec.capacity == 32 && SetsHalves(indices)
    requires forall j :: 0 <= j < 32 ==> Get(vec, j) == Some(j in indices)
    ensures SplitAt(vec, 16) == Ok((View(0, 16), View(2, 16)))
    ensures WithinStore(View(0, 16), W, |vec.data|) && WithinStore(View(2, 16), W, |vec.data|)
    ensures BitSlice.Contents(vec.data, View(0, 16)) == LowHalf
    ensures BitSlice.Contents(vec.data, View(2, 16)) == HighHalf
    ensures BitSlice.Get(vec.data, View(2, 16), 16) == None
    ensures BitSlice.Index(vec.data, View(2, 16), 16) == Panicked(IndexOutOfBounds)
  {
    HalvesOfThirtyTwo(vec);
    SplitAtReads(vec, 16);
    var left := BitSlice.Contents(vec.data, View(0, 16));
    var right := BitSlice.Contents(vec.data, View(2, 16));
    forall j | 0 <= j < 16
      ensures left[j] == LowHalf[j] && right[j] == HighHalf[j]
    {
      assert BitSlice.Get(vec.data, View(2, 16), 16 + j - 16) == Get(vec, 16 + j);
    }
  }

  /** The scenario itself: on a fresh 32-bit vector (any all-`false` one,
      such as `WithCapacity(32)`), set the bits `indices` names (the
      ten bits, by `TenBitsSetsHalves`), then read both halves of the
      split at 16. */
  lemma TenBitsSplitAtSixteen(vec: BitVector, indices: seq<nat>)
    requires Valid(vec) && vec.capacity == 32 && SetsHalves(indices)
    requires forall j :: 0 <= j < 32 ==> Get(vec, j) == Some(false)
    ensures SetEach(vec, indices, true).Ok?
    ensures var after := SetEach(vec, indices, true).value;
            && SplitAt(after, 16) == Ok((View(0, 16), View(2, 16)))
            && WithinStore(View(0, 16), W, |after.data|) && WithinStore(View(2, 16), W, |after.data|)
            && BitSlice.Contents(after.data, View(0, 16)) == LowHalf
            && BitSlice.Contents(after.data, View(2, 16)) == HighHalf
  {
    SetEachOnClear(vec, indices);
    SplitHalvesRead(SetEach(vec, indices, true).value, indices);
  }

  /** The `set` calls of one worker of the parallel scenario: offsets
      `0 .. 8` in order, offset `i` receiving `bits[i]`. */
  function WritesOf(bits: seq<bool>): (writes: seq<BitSliceMut.Write>)
    ensures WritesEach(writes, bits)
  {
    if |bits| == 0 then []
    else WritesOf(bits[..|bits| - 1]) + [BitSliceMut.Write(|bits| - 1, bits[|bits| - 1])]
  }

  /** `writes` stores `bits[k]` at offset `k`, for each `k` in order. */
  predicate WritesEach(writes: seq<BitSliceMut.Write>, bits: seq<bool>)
  {
    |writes| == |bits| && forall k :: 0 <= k < |bits| ==> writes[k] == BitSliceMut.Write(k, bits[k])
  }

  /** When every offset is written once, in order, the last write to
      offset `i` stored `bits[i]`. */
  lemma {:induction false} LastWriteOfWritesEach(writes: seq<BitSliceMut.Write>, bits: seq<bool>, i: nat, default: bool)
    requires WritesEach(writes, bits) && i < |bits|
    ensures BitSliceMut.LastWrite(writes, i, default) == bits[i]
  {
    if i != |bits| - 1 {
      LastWriteOfWritesEach(writes[..|writes| - 1], bits[..|bits| - 1], i, default);
    }
  }

  /** A view of one word covers that word only. */
  lemma OneWordFootprint(p: nat)
    ensures Footprint(View(p, W), W) == {p}
  {
    assert InFootprint(View(p, W), W, p);
  }

  const FirstBits: seq<bool> := [true, true, false, false, true, false, true, false]
  const SecondBits: seq<bool> := [false, true, false, true, true, true, false, true]
  const ThirdBits: seq<bool> := [false, false, true, false, true, false, true, true]
  const FourthBits: seq<bool> := [true, true, false, true, true, false, false, true]

  /** The four workers, each holding one quarter of the vector obtained by
      splitting at 16 and then each half at 8. */
  function Workers(): (jobs: seq<BitSliceMut.Job>)
    ensures |jobs| == 4
    ensures forall n :: 0 <= n < 4 ==> jobs[n].view == View(n, W)
  {
    [BitSliceMut.Job(View(0, W), WritesOf(FirstBits)),
     BitSliceMut.Job(View(1, W), WritesOf(SecondBits)),
     BitSliceMut.Job(View(2, W), WritesOf(ThirdBits)),
     BitSliceMut.Job(View(3, W), WritesOf(FourthBits))]
  }

  /** The quarters are those the nested splits of a 32-bit vector hand out:
      first the halves, then each half cut at 8. */
  lemma HalvesOfThirtyTwo(vec: BitVector)
    requires Valid(vec) && vec.capacity == 32
    ensures SplitAtMut(vec, 16) == Ok((View(0, 16), View(2, 16)))
  {
    assert DataIndex(16, W) == 2;
  }

  lemma QuartersOfHalves(p: nat)
    ensures BitSliceMut.SplitAtMut(View(p, 16), 8) == Ok((View(p, W), View(p + 1, W)))
  {
    assert DataIndex(8, W) == 1;
  }

  /** The workers' views are the four quarters the nested splits of a
      32-bit vector hand out. */
  lemma WorkerViewsFromSplits(vec: BitVector)
    requires Valid(vec) && vec.capacity == 32
    ensures SplitAtMut(vec, 16) == Ok((View(0, 16), View(2, 16)))
    ensures BitSliceMut.SplitAtMut(View(0, 16), 8) == Ok((Workers()[0].view, Workers()[1].view))
    ensures BitSliceMut.SplitAtMut(View(2, 16), 8) == Ok((Workers()[2].view, Workers()[3].view))
  {
    HalvesOfThirtyTwo(vec);
    QuartersOfHalves(0);
    QuartersOfHalves(2);
  }

  /** The values worker `n` writes. */
  function Quarter(n: nat): (bits: seq<bool>)
    requires n < 4
    ensures |bits| == W
  {
    [FirstBits, SecondBits, ThirdBits, FourthBits][n]
  }

  /** Whatever a worker's view held before, the last write to each offset
      `i` below `|bits|` stored `bits[i]`. */
  predicate Overwrites(writes: seq<BitSliceMut.Write>, bits: seq<bool>)
  {
    forall i: nat, default: bool :: i < |bits| ==> BitSliceMut.LastWrite(writes, i, default) == bits[i]
  }

  lemma WritesOfOverwrites(bits: seq<bool>, s: View)
    requires |bits| == s.capacity
    ensures Overwrites(WritesOf(bits), bits)
    ensures BitSliceMut.InBounds(s, WritesOf(bits))
  {
    forall i: nat, default: bool | i < |bits|
      ensures BitSliceMut.LastWrite(WritesOf(bits), i, default) == bits[i]
    {
      LastWriteOfWritesEach(WritesOf(bits), bits, i, default);
    }
  }

  /** Writes that overwrite every offset hide whatever was there before. */
  lemma OverlayOfOverwrites(writes: seq<BitSliceMut.Write>, bits: seq<bool>, before: seq<bool>)
    requires Overwrites(writes, bits) && |before| == |bits|
    ensures BitSliceMut.Overlay(writes, before) == bits
  {
  }

  /** A worker whose writes overwrite every offset of its view leaves the
      view reading exactly the values it wrote. */
  lemma WorkerReads(store: seq<bv8>, s: View, writes: seq<BitSliceMut.Write>, bits: seq<bool>)
    requires WithinStore(s, W, |store|) && BitSliceMut.InBounds(s, writes)
    requires Overwrites(writes, bits) && |bits| == s.capacity
    ensures BitSliceMut.ApplyWrites(store, s, writes).Ok?
    ensures var after := BitSliceMut.ApplyWrites(store, s, writes).value;
            WithinStore(s, W, |after|) && BitSlice.Contents(after, s) == bits
  {
    BitSliceMut.ApplyWritesContents(store, s, writes);
    OverlayOfOverwrites(writes, bits, BitSlice.Contents(store, s));
  }

  /** A five-word store whose four one-word quarters read the workers'
      values reads their concatenation through the 32-bit whole view. */
  lemma WholeFromQuarters(final: seq<bv8>)
    requires |final| == 5
    requires BitSlice.Contents(final, View(0, W)) == Quarter(0)
    requires BitSlice.Contents(final, View(1, W)) == Quarter(1)
    requires BitSlice.Contents(final, View(2, W)) == Quarter(2)
    requires BitSlice.Contents(final, View(3, W)) == Quarter(3)
    ensures BitSlice.Contents(final, View(0, 32)) == FirstBits + SecondBits + ThirdBits + FourthBits
  {
    BitSlice.AdjacentRuns(final, View(0, 16), View(0, W), View(1, W));
    BitSlice.AdjacentRuns(final, View(2, 16), View(2, W), View(3, W));
    BitSlice.AdjacentRuns(final, View(0, 32), View(0, 16), View(2, 16));
  }

  /** `jobs` are four workers, worker `n` holding word `n` and overwriting
      each of its offsets with `Quarter(n)`. */
  predicate QuarterJobs(jobs: seq<BitSliceMut.Job>)
  {
    && |jobs| == 4
    && forall n :: 0 <= n < 4 ==>
         && jobs[n].view == View(n, W)
         && BitSliceMut.InBounds(jobs[n].view, jobs[n].writes)
         && Overwrites(jobs[n].writes, Quarter(n))
  }

  lemma WorkersAreQuarterJobs()
    ensures QuarterJobs(Workers())
  {
    var jobs := Workers();
    forall n | 0 <= n < 4
      ensures BitSliceMut.InBounds(jobs[n].view, jobs[n].writes)
      ensures Overwrites(jobs[n].writes, Quarter(n))
    {
      assert jobs[n].writes == WritesOf(Quarter(n));
      WritesOfOverwrites(Quarter(n), View(n, W));
    }
  }

  /** The quarters fit any store of at least four words and have pairwise
      disjoint footprints, one word each. */
  lemma QuarterJobsFitAndDisjoint(jobs: seq<BitSliceMut.Job>, len: nat)
    requires QuarterJobs(jobs) && 4 <= len
    ensures BitSliceMut.JobsFit(jobs, len)
    ensures BitSliceMut.JobsDisjoint(jobs)
  {
    forall n | 0 <= n < 4
      ensures Footprint(jobs[n].view, W) == {n}
    {
      OneWordFootprint(n);
    }
  }

  /** After all four workers have run, worker `n`'s quarter reads exactly
      the values that worker wrote. */
  lemma QuarterReads(store: seq<bv8>, jobs: seq<BitSliceMut.Job>, n: nat)
    requires QuarterJobs(jobs) && 4 <= |store| && n < 4
    ensures BitSliceMut.JobsFit(jobs, |store|)
    ensures |BitSliceMut.RunJobs(store, jobs)| == |store|
    ensures BitSlice.Contents(BitSliceMut.RunJobs(store, jobs), View(n, W)) == Quarter(n)
  {
    QuarterJobsFitAndDisjoint(jobs, |store|);
    BitSliceMut.RunJobsVisibility(store, jobs, n);
    WorkerReads(store, View(n, W), jobs[n].writes, Quarter(n));
  }

  /** Four quarter workers leave a 32-bit vector reading their values in
      order, whatever it held before. */
  lemma QuarterJobsResult(vec: BitVector, jobs: seq<BitSliceMut.Job>)
    requires Valid(vec) && vec.capacity == 32 && QuarterJobs(jobs)
    ensures BitSliceMut.JobsFit(jobs, |vec.data|)
    ensures var after := BitVector(BitSliceMut.RunJobs(vec.data, jobs), 32);
            && Valid(after)
            && BitSlice.Contents(after.data, WholeView(after))
               == FirstBits + SecondBits + ThirdBits + FourthBits
  {
    var store := vec.data;
    QuarterReads(store, jobs, 0);
    QuarterReads(store, jobs, 1);
    QuarterReads(store, jobs, 2);
    QuarterReads(store, jobs, 3);
    WholeFromQuarters(BitSliceMut.RunJobs(store, jobs));
  }

  /** The scenario itself: after the four workers have run on a 32-bit
      vector (such as the fresh `WithCapacity(32)`), in whatever
      order, the vector reads each worker's eight values in its quarter. */
  lemma ParallelWorkersResult(vec: BitVector)
    requires Valid(vec) && vec.capacity == 32
    ensures BitSliceMut.JobsFit(Workers(), |vec.data|)
    ensures BitSliceMut.JobsDisjoint(Workers())
    ensures var after := BitVector(BitSliceMut.RunJobs(vec.data, Workers()), 32);
            && Valid(after)
            && BitSlice.Contents(after.data, WholeView(after))
               == FirstBits + SecondBits + ThirdBits + FourthBits
  {
    WorkersAreQuarterJobs();
    QuarterJobsFitAndDisjoint(Workers(), |vec.data|);
    QuarterJobsResult(vec, Workers());
  }
}
