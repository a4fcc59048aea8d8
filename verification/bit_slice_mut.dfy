/** `BitSliceMut`: a view that may also write. Reads are those of
    `BitSlice`; a write returns the new store. The lemmas here are the
    sequential content of the library's `Send`/`Sync` claims: a write stays
    inside its view's footprint, so writes through views with disjoint
    footprints commute and none of them is lost. */
module BitSliceMut {
  import opened Outcomes
  import opened BitStorage
  import opened Views
  import BitSlice

  /** `set`: panics past the capacity; otherwise rewrites offset `i % W` of
      word `pointer + i / W`. Exactly one bit of the store changes, and no
      word outside the footprint. */
  function Set(store: seq<bv8>, s: View, i: nat, value: bool): (r: Result<seq<bv8>>)
    requires WithinStore(s, W, |store|)
    ensures r.Panicked? <==> s.capacity <= i
    ensures r.Panicked? ==> r.reason == IndexOutOfBounds
    ensures r.Ok? ==> |r.value| == |store|
    ensures r.Ok? ==> BitOffset(s, W) + i < |Flatten(store)|
                      && Flatten(r.value) == Flatten(store)[BitOffset(s, W) + i := value]
    ensures r.Ok? ==> forall d :: 0 <= d < |store| && d !in Footprint(s, W) ==> r.value[d] == store[d]
  {
    if !(i < s.capacity) then Panicked(IndexOutOfBounds)
    else
      IndexInFootprint(s, W, i);
      BitsWithinStore(s, W, |store|);
      AddWords(s.pointer, i, W);
      FlattenUpdate(store, BitOffset(s, W) + i, value);
      var (dataIndex, remainder) := DataIndexAndRemainder(i, W);
      var d := s.pointer + dataIndex;
      Ok(store[d := SetBit(store[d], remainder, value)])
  }

  /** After `set(i, v)`, `get(i)` is `Some(v)` and every other index of the
      view reads as before, including the other bits of the same word. */
  lemma SetThenGet(store: seq<bv8>, s: View, i: nat, value: bool, j: nat)
    requires WithinStore(s, W, |store|) && i < s.capacity
    ensures Set(store, s, i, value).Ok?
    ensures WithinStore(s, W, |Set(store, s, i, value).value|)
    ensures BitSlice.Get(Set(store, s, i, value).value, s, j)
         == if j == i then Some(value) else BitSlice.Get(store, s, j)
  {
  }

  /** Setting the same index twice leaves only the second value. */
  lemma SetLastWins(store: seq<bv8>, s: View, i: nat, a: bool, b: bool)
    requires WithinStore(s, W, |store|) && i < s.capacity
    ensures Set(store, s, i, a).Ok?
    ensures Set(Set(store, s, i, a).value, s, i, b) == Set(store, s, i, b)
  {
    IndexInFootprint(s, W, i);
    var d, r := s.pointer + DataIndex(i, W), DataRemainder(i, W);
    var once := store[d := SetBit(store[d], r, a)];
    assert Set(store, s, i, a) == Ok(once);
    assert Set(once, s, i, b) == Ok(once[d := SetBit(once[d], r, b)]);
    assert Set(store, s, i, b) == Ok(store[d := SetBit(store[d], r, b)]);
    SetBitLastWins(store[d], r, a, b);
    assert once[d := SetBit(once[d], r, b)] == store[d := SetBit(store[d], r, b)];
  }

  /** Two stores that agree on a view's footprint still agree there after the
      same write through that view. */
  lemma SetLocal(store1: seq<bv8>, store2: seq<bv8>, s: View, i: nat, value: bool)
    requires WithinStore(s, W, |store1|) && WithinStore(s, W, |store2|) && i < s.capacity
    requires forall d :: d in Footprint(s, W) ==> store1[d] == store2[d]
    ensures Set(store1, s, i, value).Ok? && Set(store2, s, i, value).Ok?
    ensures forall d :: d in Footprint(s, W) ==>
              Set(store1, s, i, value).value[d] == Set(store2, s, i, value).value[d]
  {
    IndexInFootprint(s, W, i);
  }

  // ---------------------------------------------------------------------
  // Sequences of writes through one view (what one worker thread does)
  // ---------------------------------------------------------------------

  datatype Write = Write(index: nat, value: bool)

  /** The `set` calls of one worker, in program order. The first index
      out of bounds panics. */
  function ApplyWrites(store: seq<bv8>, s: View, writes: seq<Write>): (r: Result<seq<bv8>>)
    requires WithinStore(s, W, |store|)
    ensures r.Panicked? <==> exists j :: 0 <= j < |writes| && s.capacity <= writes[j].index
    ensures r.Ok? ==> |r.value| == |store|
    ensures r.Ok? ==> forall d :: 0 <= d < |store| && d !in Footprint(s, W) ==> r.value[d] == store[d]
    decreases |writes|
  {
    if |writes| == 0 then Ok(store)
    else
      match Set(store, s, writes[0].index, writes[0].value)
      case Panicked(reason) => Panicked(reason)
      case Ok(next) =>
        assert forall j :: 1 <= j < |writes| ==> writes[j] == writes[1..][j - 1];
        ApplyWrites(next, s, writes[1..])
  }

  predicate InBounds(s: View, writes: seq<Write>)
  {
    forall j :: 0 <= j < |writes| ==> writes[j].index < s.capacity
  }

  /** The value the last write to index `i` stored, or `default` when no
      write touched `i`. */
  function LastWrite(writes: seq<Write>, i: nat, default: bool): bool
  {
    if |writes| == 0 then default
    else if writes[|writes| - 1].index == i then writes[|writes| - 1].value
    else LastWrite(writes[..|writes| - 1], i, default)
  }

  lemma {:induction false} LastWriteFirst(writes: seq<Write>, i: nat, default: bool)
    requires |writes| > 0
    ensures LastWrite(writes, i, default)
         == LastWrite(writes[1..], i, if writes[0].index == i then writes[0].value else default)
    decreases |writes|
  {
    if |writes| > 1 {
      var n := |writes| - 1;
      assert writes[1..][..n - 1] == writes[..n][1..];
      LastWriteFirst(writes[..n], i, default);
    }
  }

  /** Last write wins: after a worker's writes, each index of its view reads
      the value last written to it, or what it read before. */
  lemma {:induction false} ApplyWritesReads(store: seq<bv8>, s: View, writes: seq<Write>)
    requires WithinStore(s, W, |store|) && InBounds(s, writes)
    ensures ApplyWrites(store, s, writes).Ok?
    ensures var after := ApplyWrites(store, s, writes).value;
            forall i :: 0 <= i < s.capacity ==>
              BitSlice.Contents(after, s)[i] == LastWrite(writes, i, BitSlice.Contents(store, s)[i])
    decreases |writes|
  {
    if |writes| > 0 {
      var next := Set(store, s, writes[0].index, writes[0].value).value;
      assert InBounds(s, writes[1..]);
      ApplyWritesReads(next, s, writes[1..]);
      forall i | 0 <= i < s.capacity
        ensures BitSlice.Contents(ApplyWrites(store, s, writes).value, s)[i]
             == LastWrite(writes, i, BitSlice.Contents(store, s)[i])
      {
        SetThenGet(store, s, writes[0].index, writes[0].value, i);
        LastWriteFirst(writes, i, BitSlice.Contents(store, s)[i]);
      }
    }
  }

  /** The contents a run of writes leaves over `before`: at each index, the
      last value written there, or the old bit. */
  function Overlay(writes: seq<Write>, before: seq<bool>): (after: seq<bool>)
    ensures |after| == |before|
    ensures forall i :: 0 <= i < |before| ==> after[i] == LastWrite(writes, i, before[i])
  {
    seq(|before|, i requires 0 <= i < |before| => LastWrite(writes, i, before[i]))
  }

  /** The whole of a view after a worker's writes is their overlay on what
      the view held before. */
  lemma ApplyWritesContents(store: seq<bv8>, s: View, writes: seq<Write>)
    requires WithinStore(s, W, |store|) && InBounds(s, writes)
    ensures ApplyWrites(store, s, writes).Ok?
    ensures WithinStore(s, W, |ApplyWrites(store, s, writes).value|)
    ensures BitSlice.Contents(ApplyWrites(store, s, writes).value, s)
         == Overlay(writes, BitSlice.Contents(store, s))
  {
    ApplyWritesReads(store, s, writes);
  }

  /** A worker's writes depend only on the words of its own footprint. */
  lemma {:induction false} ApplyWritesLocal(store1: seq<bv8>, store2: seq<bv8>, s: View, writes: seq<Write>)
    requires WithinStore(s, W, |store1|) && WithinStore(s, W, |store2|) && InBounds(s, writes)
    requires forall d :: d in Footprint(s, W) ==> store1[d] == store2[d]
    ensures ApplyWrites(store1, s, writes).Ok? && ApplyWrites(store2, s, writes).Ok?
    ensures forall d :: d in Footprint(s, W) ==>
              ApplyWrites(store1, s, writes).value[d] == ApplyWrites(store2, s, writes).value[d]
    decreases |writes|
  {
    if |writes| > 0 {
      SetLocal(store1, store2, s, writes[0].index, writes[0].value);
      assert InBounds(s, writes[1..]);
      ApplyWritesLocal(Set(store1, s, writes[0].index, writes[0].value).value,
                       Set(store2, s, writes[0].index, writes[0].value).value, s, writes[1..]);
    }
  }

  /** Two workers on views with disjoint footprints: running them in either
      order gives the same store. */
  lemma WritesCommute(store: seq<bv8>, a: View, wa: seq<Write>, b: View, wb: seq<Write>)
    requires WithinStore(a, W, |store|) && WithinStore(b, W, |store|)
    requires InBounds(a, wa) && InBounds(b, wb)
    requires Footprint(a, W) !! Footprint(b, W)
    ensures ApplyWrites(store, a, wa).Ok? && ApplyWrites(store, b, wb).Ok?
    ensures ApplyWrites(ApplyWrites(store, a, wa).value, b, wb).Ok?
    ensures ApplyWrites(ApplyWrites(store, b, wb).value, a, wa).Ok?
    ensures ApplyWrites(ApplyWrites(store, a, wa).value, b, wb).value
         == ApplyWrites(ApplyWrites(store, b, wb).value, a, wa).value
  {
    var sa := ApplyWrites(store, a, wa).value;
    var sb := ApplyWrites(store, b, wb).value;
    var ab := ApplyWrites(sa, b, wb).value;
    var ba := ApplyWrites(sb, a, wa).value;
    ApplyWritesLocal(store, sa, b, wb);
    ApplyWritesLocal(store, sb, a, wa);
    forall d | 0 <= d < |store|
      ensures ab[d] == ba[d]
    {
      if d in Footprint(a, W) {
        assert d !in Footprint(b, W);
      }
    }
  }

  // ---------------------------------------------------------------------
  // Many workers on pairwise disjoint views
  // ---------------------------------------------------------------------

  /** One worker: a view handed to it and the writes it performs. */
  datatype Job = Job(view: View, writes: seq<Write>)

  predicate JobsFit(jobs: seq<Job>, len: nat)
  {
    forall n :: 0 <= n < |jobs| ==> WithinStore(jobs[n].view, W, len) && InBounds(jobs[n].view, jobs[n].writes)
  }

  predicate JobsDisjoint(jobs: seq<Job>)
  {
    forall m, n :: 0 <= m < n < |jobs| ==> Footprint(jobs[m].view, W) !! Footprint(jobs[n].view, W)
  }

  /** The workers run one after the other, in the order given. */
  function RunJobs(store: seq<bv8>, jobs: seq<Job>): (r: seq<bv8>)
    requires JobsFit(jobs, |store|)
    ensures |r| == |store|
    decreases |jobs|
  {
    if |jobs| == 0 then store
    else
      var next := ApplyWrites(store, jobs[0].view, jobs[0].writes).value;
      RunJobs(next, jobs[1..])
  }

  /** What a worker leaves in the words of its own view when it runs alone. */
  function Alone(store: seq<bv8>, job: Job): seq<bv8>
    requires WithinStore(job.view, W, |store|) && InBounds(job.view, job.writes)
  {
    ApplyWrites(store, job.view, job.writes).value
  }

  /** No lost or corrupted updates: after all workers have run, every word
      of a worker's view holds what that worker alone would have left there,
      and every word outside all views is untouched. */
  lemma RunJobsCharacterised(store: seq<bv8>, jobs: seq<Job>)
    requires JobsFit(jobs, |store|) && JobsDisjoint(jobs)
    ensures forall n, d :: 0 <= n < |jobs| && d in Footprint(jobs[n].view, W) ==>
              RunJobs(store, jobs)[d] == Alone(store, jobs[n])[d]
    ensures forall d :: 0 <= d < |store| && (forall n :: 0 <= n < |jobs| ==> d !in Footprint(jobs[n].view, W)) ==>
              RunJobs(store, jobs)[d] == store[d]
  {
    RunJobsInside(store, jobs);
    RunJobsOutside(store, jobs);
  }

  /** Words outside every worker's view keep their value. */
  lemma {:induction false} RunJobsOutside(store: seq<bv8>, jobs: seq<Job>)
    requires JobsFit(jobs, |store|)
    ensures forall d :: 0 <= d < |store| && (forall n :: 0 <= n < |jobs| ==> d !in Footprint(jobs[n].view, W)) ==>
              RunJobs(store, jobs)[d] == store[d]
    decreases |jobs|
  {
    if |jobs| > 0 {
      var next := Alone(store, jobs[0]);
      var rest := jobs[1..];
      assert JobsFit(rest, |next|);
      RunJobsOutside(next, rest);
      forall d | 0 <= d < |store| && (forall n :: 0 <= n < |jobs| ==> d !in Footprint(jobs[n].view, W))
        ensures RunJobs(store, jobs)[d] == store[d]
      {
        assert d !in Footprint(jobs[0].view, W);
        forall m | 0 <= m < |rest|
          ensures d !in Footprint(rest[m].view, W)
        {
          assert rest[m] == jobs[m + 1];
        }
      }
    }
  }

  /** Each word of a worker's view ends up as that worker alone leaves it. */
  lemma {:induction false} RunJobsInside(store: seq<bv8>, jobs: seq<Job>)
    requires JobsFit(jobs, |store|) && JobsDisjoint(jobs)
    ensures forall n, d :: 0 <= n < |jobs| && d in Footprint(jobs[n].view, W) ==>
              RunJobs(store, jobs)[d] == Alone(store, jobs[n])[d]
    decreases |jobs|
  {
    if |jobs| > 0 {
      var next := Alone(store, jobs[0]);
      var rest := jobs[1..];
      assert JobsFit(rest, |next|);
      assert JobsDisjoint(rest);
      RunJobsInside(next, rest);
      RunJobsOutside(next, rest);
      forall n, d | 0 <= n < |jobs| && d in Footprint(jobs[n].view, W)
        ensures RunJobs(store, jobs)[d] == Alone(store, jobs[n])[d]
      {
        if n == 0 {
          forall m | 0 <= m < |rest|
            ensures d !in Footprint(rest[m].view, W)
          {
            assert rest[m] == jobs[m + 1];
          }
        } else {
          assert rest[n - 1] == jobs[n];
          ApplyWritesLocal(store, next, jobs[n].view, jobs[n].writes);
        }
      }
    }
  }

  /** The order in which the workers run does not matter. */
  lemma RunJobsOrderIrrelevant(store: seq<bv8>, jobs1: seq<Job>, jobs2: seq<Job>)
    requires JobsFit(jobs1, |store|) && JobsDisjoint(jobs1)
    requires JobsFit(jobs2, |store|) && JobsDisjoint(jobs2)
    requires forall job :: job in jobs1 <==> job in jobs2
    ensures RunJobs(store, jobs1) == RunJobs(store, jobs2)
  {
    RunJobsCharacterised(store, jobs1);
    RunJobsCharacterised(store, jobs2);
    var r1, r2 := RunJobs(store, jobs1), RunJobs(store, jobs2);
    forall d | 0 <= d < |store|
      ensures r1[d] == r2[d]
    {
      if n1 :| 0 <= n1 < |jobs1| && d in Footprint(jobs1[n1].view, W) {
        assert jobs1[n1] in jobs2;
        var n2 :| 0 <= n2 < |jobs2| && jobs2[n2] == jobs1[n1];
      } else {
        forall n2 | 0 <= n2 < |jobs2|
          ensures d !in Footprint(jobs2[n2].view, W)
        {
          assert jobs2[n2] in jobs1;
        }
      }
    }
  }

  /** Each worker's view reads, afterwards, exactly what that worker wrote
      into it, whatever the others did. */
  lemma RunJobsVisibility(store: seq<bv8>, jobs: seq<Job>, n: nat)
    requires JobsFit(jobs, |store|) && JobsDisjoint(jobs) && n < |jobs|
    ensures BitSlice.Contents(RunJobs(store, jobs), jobs[n].view)
         == BitSlice.Contents(Alone(store, jobs[n]), jobs[n].view)
  {
    RunJobsCharacterised(store, jobs);
    BitSlice.ContentsDependOnFootprint(RunJobs(store, jobs), Alone(store, jobs[n]), jobs[n].view);
  }

  // ---------------------------------------------------------------------
  // Splitting and reborrowing
  // ---------------------------------------------------------------------

  /** `split_at` on a mutable view: consumes it, yields read-only children. */
  function SplitAt(s: View, k: nat): (r: Result<(View, View)>)
    requires k <= s.capacity
    ensures r.Panicked? <==> !OnStorageBound(k, W)
    ensures r.Panicked? ==> r.reason == IndexNotOnStorageBound
    ensures r.Ok? ==> SplitsAt(s, r.value.0, r.value.1, W, k)
  {
    Split(s, k, W)
  }

  /** `split_at_mut`: consumes the view, yields two mutable children whose
      footprints are disjoint. */
  function SplitAtMut(s: View, k: nat): (r: Result<(View, View)>)
    requires k <= s.capacity
    ensures r.Panicked? <==> !OnStorageBound(k, W)
    ensures r.Panicked? ==> r.reason == IndexNotOnStorageBound
    ensures r.Ok? ==> SplitsAt(s, r.value.0, r.value.1, W, k)
  {
    Split(s, k, W)
  }

  /** `reborrow`: a second handle on the same words. */
  function Reborrow(s: View): (r: View)
    ensures r.capacity == s.capacity
    ensures BitOffset(r, W) == BitOffset(s, W)
    ensures Footprint(r, W) == Footprint(s, W)
  {
    View(s.pointer, s.capacity)
  }

  /** A reborrowed view reads exactly what the original reads. */
  lemma ReborrowReadsAgree(store: seq<bv8>, s: View)
    requires WithinStore(s, W, |store|)
    ensures WithinStore(Reborrow(s), W, |store|)
    ensures BitSlice.Contents(store, Reborrow(s)) == BitSlice.Contents(store, s)
  {
    BitSlice.SameRunSameContents(store, Reborrow(s), s);
  }

  /** Writes through the two mutable children of a split, in either order,
      leave the parent reading the left child's result followed by the right
      child's result. */
  lemma SplitWritesUnion(store: seq<bv8>, s: View, k: nat, wl: seq<Write>, wr: seq<Write>)
    requires WithinStore(s, W, |store|) && k <= s.capacity && SplitAtMut(s, k).Ok?
    requires InBounds(SplitAtMut(s, k).value.0, wl) && InBounds(SplitAtMut(s, k).value.1, wr)
    ensures var (left, right) := SplitAtMut(s, k).value;
            var jobs := [Job(left, wl), Job(right, wr)];
            && JobsFit(jobs, |store|)
            && BitSlice.Contents(RunJobs(store, jobs), s)
               == BitSlice.Contents(Alone(store, jobs[0]), left) + BitSlice.Contents(Alone(store, jobs[1]), right)
            && RunJobs(store, jobs) == RunJobs(store, [jobs[1], jobs[0]])
  {
    var (left, right) := SplitAtMut(s, k).value;
    SplitWithinStore(s, k, W, |store|);
    AdjacentWritersUnion(store, s, Job(left, wl), Job(right, wr));
    AdjacentWritersCommute(store, Job(left, wl), Job(right, wr));
  }

  /** Two writers on adjacent views with disjoint footprints leave the
      spanning view reading the first writer's result followed by the
      second's. */
  lemma AdjacentWritersUnion(store: seq<bv8>, s: View, a: Job, b: Job)
    requires WithinStore(s, W, |store|)
    requires WithinStore(a.view, W, |store|) && InBounds(a.view, a.writes)
    requires WithinStore(b.view, W, |store|) && InBounds(b.view, b.writes)
    requires Footprint(a.view, W) !! Footprint(b.view, W)
    requires a.view.capacity + b.view.capacity == s.capacity
    requires BitOffset(a.view, W) == BitOffset(s, W)
    requires BitOffset(b.view, W) == BitOffset(s, W) + a.view.capacity
    ensures BitSlice.Contents(RunJobs(store, [a, b]), s)
         == BitSlice.Contents(Alone(store, a), a.view) + BitSlice.Contents(Alone(store, b), b.view)
  {
    var jobs := [a, b];
    assert JobsFit(jobs, |store|) && JobsDisjoint(jobs);
    var after := RunJobs(store, jobs);
    BitSlice.AdjacentRuns(after, s, a.view, b.view);
    RunJobsVisibility(store, jobs, 0);
    RunJobsVisibility(store, jobs, 1);
  }

  /** Two writers on views with disjoint footprints may run in either
      order. */
  lemma AdjacentWritersCommute(store: seq<bv8>, a: Job, b: Job)
    requires WithinStore(a.view, W, |store|) && InBounds(a.view, a.writes)
    requires WithinStore(b.view, W, |store|) && InBounds(b.view, b.writes)
    requires Footprint(a.view, W) !! Footprint(b.view, W)
    ensures JobsFit([a, b], |store|) && JobsFit([b, a], |store|)
    ensures RunJobs(store, [a, b]) == RunJobs(store, [b, a])
  {
    assert JobsFit([a, b], |store|) && JobsDisjoint([a, b]);
    assert JobsFit([b, a], |store|);
    assert JobsDisjoint([b, a]);
    RunJobsOrderIrrelevant(store, [a, b], [b, a]);
  }

  // ---------------------------------------------------------------------
  // Iteration
  // ---------------------------------------------------------------------

  /** `Iter`: the view's pointer and capacity and two counters, the word
      reached and the offset inside it. */
  datatype Iter = Iter(pointer: nat, capacity: nat, dataIndexCounter: nat, remainderCounter: nat)

  /** The view an iterator walks. */
  function Walked(it: Iter): View
  {
    View(it.pointer, it.capacity)
  }

  /** `calculate_index`: the index of the next bit to yield. */
  function CalculateIndex(it: Iter): nat
  {
    BitIndex(it.dataIndexCounter, it.remainderCounter, W)
  }

  /** The states an iterator can be in while walking a view of the store. */
  predicate IterValid(it: Iter, len: nat)
  {
    && it.remainderCounter < W
    && CalculateIndex(it) <= it.capacity
    && WithinStore(Walked(it), W, len)
  }

  /** `iter()`: a fresh iterator at index 0. */
  function IterOf(s: View): (it: Iter)
    ensures Walked(it) == s && CalculateIndex(it) == 0 && it.remainderCounter == 0
  {
    Iter(s.pointer, s.capacity, 0, 0)
  }

  /** Move both counters past one bit, carrying into the word counter. */
  function Advance(it: Iter): (next: Iter)
    requires it.remainderCounter < W
    ensures Walked(next) == Walked(it)
    ensures next.remainderCounter < W
    ensures CalculateIndex(next) == CalculateIndex(it) + 1
  {
    var remainder := it.remainderCounter + 1;
    if remainder == W then it.(remainderCounter := 0, dataIndexCounter := it.dataIndexCounter + 1)
    else it.(remainderCounter := remainder)
  }

  /** One call of `next`: the item, the iterator afterwards, and the store
      word the call read, if any. */
  datatype Step = Step(item: Option<bool>, next: Iter, read: Option<nat>)

  /** The counters of a valid iterator address the bit `calculate_index`
      names, inside the walked view's footprint. */
  lemma CountersAddressIndex(it: Iter, len: nat)
    requires IterValid(it, len) && CalculateIndex(it) < it.capacity
    ensures DataIndex(CalculateIndex(it), W) == it.dataIndexCounter
    ensures DataRemainder(CalculateIndex(it), W) == it.remainderCounter
    ensures it.pointer + it.dataIndexCounter in Footprint(Walked(it), W)
    ensures it.pointer + it.dataIndexCounter < len
  {
    AddressRoundTrip(it.dataIndexCounter, it.remainderCounter, W);
    IndexInFootprint(Walked(it), W, CalculateIndex(it));
  }

  /** `Iter::next` as the library writes it: the word at the counters is read
      first, and only then is the end of the view checked. The value read on
      the last call is thrown away, but the read itself happens. */
  function NextAsWritten(store: seq<bv8>, it: Iter): (st: Step)
    requires IterValid(it, |store|)
    ensures st.read == Some(it.pointer + it.dataIndexCounter)
    ensures st.item.None? <==> CalculateIndex(it) == it.capacity
  {
    var read := it.pointer + it.dataIndexCounter;
    if CalculateIndex(it) == it.capacity then Step(None, it, Some(read))
    else
      CountersAddressIndex(it, |store|);
      Step(Some(GetBit(store[read], it.remainderCounter)), Advance(it), Some(read))
  }

  /** `Iter::next` with the end check first: it yields bit `calculate_index`
      and advances, or yields `None` and stays put, and it reads only words
      of the walked view. */
  function Next(store: seq<bv8>, it: Iter): (st: Step)
    requires IterValid(it, |store|)
    ensures IterValid(st.next, |store|) && Walked(st.next) == Walked(it)
    ensures st.item.None? <==> CalculateIndex(it) == it.capacity
    ensures st.item.None? ==> st.next == it
    ensures st.item.Some? ==> st.item == BitSlice.Get(store, Walked(it), CalculateIndex(it))
                              && CalculateIndex(st.next) == CalculateIndex(it) + 1
    ensures st.read.Some? ==> st.read.value in Footprint(Walked(it), W)
  {
    if CalculateIndex(it) == it.capacity then Step(None, it, None)
    else
      CountersAddressIndex(it, |store|);
      var read := it.pointer + it.dataIndexCounter;
      Step(Some(GetBit(store[read], it.remainderCounter)), Advance(it), Some(read))
  }

  /** Both versions of `next` yield the same items and move the same way;
      they differ only in the word they read on the final call. */
  lemma NextAgreesWithWritten(store: seq<bv8>, it: Iter)
    requires IterValid(it, |store|)
    ensures Next(store, it).item == NextAsWritten(store, it).item
    ensures Next(store, it).next == NextAsWritten(store, it).next
    ensures CalculateIndex(it) < it.capacity ==> Next(store, it).read == NextAsWritten(store, it).read
  {
  }

  /** On the final call, the library's `next` on the left child of an aligned
      split reads the first word of the right child: a word outside the left
      child's footprint that a concurrently running writer may own. */
  lemma NextAsWrittenReadsSibling(store: seq<bv8>, s: View, k: nat, it: Iter)
    requires WithinStore(s, W, |store|) && k < s.capacity && SplitAtMut(s, k).Ok?
    requires Walked(it) == SplitAtMut(s, k).value.0
    requires IterValid(it, |store|) && CalculateIndex(it) == it.capacity
    ensures var (left, right) := SplitAtMut(s, k).value;
            var read := NextAsWritten(store, it).read.value;
            && NextAsWritten(store, it).item.None?
            && read !in Footprint(left, W)
            && read in Footprint(right, W)
  {
    var (left, right) := SplitAtMut(s, k).value;
    AlignedSpans(s.capacity, k, W);
    AddressRoundTrip(it.dataIndexCounter, it.remainderCounter, W);
    AddressRoundTrip(k / W, 0, W);
    assert it.dataIndexCounter == k / W;
    assert right.pointer == s.pointer + k / W;
    IndexInFootprint(right, W, 0);
  }

  /** Concretely: a 16-bit vector of bytes split at 8, as in the iterator
      test. After the left iterator's eight items, its ninth call reads
      word 1, the right child's word. */
  lemma LeftIteratorOverreads(store: seq<bv8>)
    requires |store| == 3
    ensures SplitAtMut(View(0, 16), 8) == Ok((View(0, 8), View(1, 8)))
    ensures NextAsWritten(store, Iter(0, 8, 1, 0)).item == None
    ensures NextAsWritten(store, Iter(0, 8, 1, 0)).read == Some(1)
    ensures 1 in Footprint(View(1, 8), W) && 1 !in Footprint(View(0, 8), W)
  {
    SixteenBitsAtEight();
    assert Span(8, W) == 1;
    assert IterValid(Iter(0, 8, 1, 0), |store|);
    assert InFootprint(View(1, 8), W, 1) && !InFootprint(View(0, 8), W, 1);
  }

  /** After all `capacity` items of a view, the final call of `next` as
      written reads word `pointer + capacity / W`. That word is in the
      view's footprint exactly when the capacity is not a whole number of
      words. */
  lemma FinalReadAsWritten(store: seq<bv8>, s: View)
    requires WithinStore(s, W, |store|)
    ensures IterValid(IterOf(s), |store|)
    ensures var done := Drive(store, IterOf(s), s.capacity);
            && NextAsWritten(store, done).item == None
            && NextAsWritten(store, done).read.Some?
            && NextAsWritten(store, done).read.value == s.pointer + DataIndex(s.capacity, W)
    ensures s.pointer + DataIndex(s.capacity, W) in Footprint(s, W) <==> !OnStorageBound(s.capacity, W)
  {
    DrivenToEnd(store, s);
    FinalWordInFootprint(s);
  }

  /** After all `capacity` items, the counters are the word index and offset
      of the capacity. */
  lemma DrivenToEnd(store: seq<bv8>, s: View)
    requires WithinStore(s, W, |store|)
    ensures IterValid(IterOf(s), |store|)
    ensures var done := Drive(store, IterOf(s), s.capacity);
            && Walked(done) == s
            && done.dataIndexCounter == DataIndex(s.capacity, W)
            && done.remainderCounter == DataRemainder(s.capacity, W)
  {
    var done := Drive(store, IterOf(s), s.capacity);
    AddressRoundTrip(done.dataIndexCounter, done.remainderCounter, W);
  }

  /** Word `capacity / W` of a view is one of its words exactly when the
      capacity is not a whole number of words. */
  lemma FinalWordInFootprint(s: View)
    ensures s.pointer + DataIndex(s.capacity, W) in Footprint(s, W) <==> !OnStorageBound(s.capacity, W)
  {
    if OnStorageBound(s.capacity, W) {
      AlignedSpans(s.capacity, s.capacity, W);
    } else {
      SpanIsCeiling(s.capacity, W);
      if Span(s.capacity, W) <= DataIndex(s.capacity, W) {
        MulMonotone(Span(s.capacity, W), DataIndex(s.capacity, W), W);
        assert false;
      }
    }
  }

  /** Concretely: a 16-bit view over exactly the two bytes of the
      `from_pointer` test. Once all sixteen items are out, the counters are
      word 2, offset 0 (`FinalReadAsWritten` with `16 / W == 2`), and the
      final call of `next` as written reads word 2, one past the end of the
      buffer. */
  lemma WholeIteratorOverreadsBuffer(store: seq<bv8>)
    requires |store| == 2
    ensures IterValid(Iter(0, 16, 2, 0), |store|) && CalculateIndex(Iter(0, 16, 2, 0)) == 16
    ensures DataIndex(16, W) == 2 && DataRemainder(16, W) == 0
    ensures NextAsWritten(store, Iter(0, 16, 2, 0)).item == None
    ensures NextAsWritten(store, Iter(0, 16, 2, 0)).read.Some?
    ensures NextAsWritten(store, Iter(0, 16, 2, 0)).read.value == 2 >= |store|
  {
    assert Span(16, W) == 2;
  }

  /** A 16-bit view of bytes split at 8: one byte each. */
  lemma SixteenBitsAtEight()
    ensures SplitAtMut(View(0, 16), 8) == Ok((View(0, 8), View(1, 8)))
  {
    assert DataIndex(8, W) == 1;
  }

  /** Run `next` `n` times. */
  function Drive(store: seq<bv8>, it: Iter, n: nat): (after: Iter)
    requires IterValid(it, |store|) && CalculateIndex(it) + n <= it.capacity
    ensures IterValid(after, |store|) && Walked(after) == Walked(it)
    ensures CalculateIndex(after) == CalculateIndex(it) + n
    decreases n
  {
    if n == 0 then it else Drive(store, Next(store, it).next, n - 1)
  }

  /** A fresh iterator yields `Some` exactly `capacity` times, and from then
      on `None` on every call. */
  lemma ExhaustedAfterCapacity(store: seq<bv8>, s: View)
    requires WithinStore(s, W, |store|)
    ensures IterValid(IterOf(s), |store|)
    ensures var done := Drive(store, IterOf(s), s.capacity);
            && Next(store, done).item.None?
            && Next(store, done).next == done
  {
  }

  /** `collect()`: every item the iterator still yields, in order. */
  function Collect(store: seq<bv8>, it: Iter): (bits: seq<bool>)
    requires IterValid(it, |store|)
    ensures |bits| == it.capacity - CalculateIndex(it)
    ensures bits == BitSlice.Contents(store, Walked(it))[CalculateIndex(it)..]
    decreases it.capacity - CalculateIndex(it)
  {
    var st := Next(store, it);
    match st.item
    case None => []
    case Some(b) =>
      CollectStep(store, it);
      [b] + Collect(store, st.next)
  }

  /** One item of `next` is the head of the contents still to come, and the
      iterator it leaves walks the rest. */
  lemma CollectStep(store: seq<bv8>, it: Iter)
    requires IterValid(it, |store|) && CalculateIndex(it) < it.capacity
    ensures var all, c := BitSlice.Contents(store, Walked(it)), CalculateIndex(it);
            && Next(store, it).item == Some(all[c])
            && all[c..] == [all[c]] + all[c + 1..]
  {
  }

  /** Iterating a view yields exactly its contents, the `i`-th item being
      `get(i)`. */
  lemma IterYieldsContents(store: seq<bv8>, s: View)
    requires WithinStore(s, W, |store|)
    ensures IterValid(IterOf(s), |store|)
    ensures Collect(store, IterOf(s)) == BitSlice.Contents(store, s)
    ensures CollectAsWritten(store, IterOf(s)) == BitSlice.Contents(store, s)
    ensures forall i :: 0 <= i < s.capacity ==>
              BitSlice.Get(store, s, i) == Some(Collect(store, IterOf(s))[i])
  {
    var it := IterOf(s);
    assert IterValid(it, |store|);
    var all := BitSlice.Contents(store, s);
    assert Collect(store, it) == all[0..];
    assert all[0..] == all;
  }

  /** `collect()` with `next` as the library writes it. It yields the same
      items as the corrected `next`, so the extra final read changes nothing
      a caller sees. */
  function CollectAsWritten(store: seq<bv8>, it: Iter): (bits: seq<bool>)
    requires IterValid(it, |store|)
    ensures bits == Collect(store, it)
    decreases it.capacity - CalculateIndex(it)
  {
    NextAgreesWithWritten(store, it);
    var st := NextAsWritten(store, it);
    match st.item
    case None => []
    case Some(b) => [b] + CollectAsWritten(store, st.next)
  }

  /** Iterating the two children of an aligned split, one after the other,
      yields what iterating the parent yields. */
  lemma IterSplitConcat(store: seq<bv8>, s: View, k: nat)
    requires WithinStore(s, W, |store|) && k <= s.capacity && SplitAtMut(s, k).Ok?
    ensures var (left, right) := SplitAtMut(s, k).value;
            && IterValid(IterOf(left), |store|) && IterValid(IterOf(right), |store|)
            && IterValid(IterOf(s), |store|)
            && Collect(store, IterOf(s)) == Collect(store, IterOf(left)) + Collect(store, IterOf(right))
  {
    var (left, right) := SplitAtMut(s, k).value;
    BitSlice.SplitAtReads(store, s, k);
    IterYieldsContents(store, s);
    IterYieldsContents(store, left);
    IterYieldsContents(store, right);
  }
}
