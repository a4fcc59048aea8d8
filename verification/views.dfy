/** The shape shared by `BitSlice` and `BitSliceMut`: a view is nothing but a
    word offset into one shared store and a capacity in bits. This module
    holds the split arithmetic (`compute_capacities`, `compute_pointers`,
    the storage-bound check) symbolically in the word width `w`, and the
    footprint facts the library's `Send`/`Sync` claims rest on. */
module Views {
  import opened Outcomes
  import opened BitStorage

  /** A window into a word store. `pointer` is the word offset the raw
      pointer designates; `capacity` is the number of bits it covers. */
  datatype View = View(pointer: nat, capacity: nat)

  /** The number of words a run of `cap` bits touches. */
  function Span(cap: nat, w: nat): nat
    requires 0 < w
  {
    (cap + w - 1) / w
  }

  /** `Span` is the ceiling of `cap / w`: enough words, and no word more. */
  lemma SpanIsCeiling(cap: nat, w: nat)
    requires 0 < w
    ensures Span(cap, w) * w >= cap
    ensures Span(cap, w) == 0 || (Span(cap, w) - 1) * w < cap
  {
    var s := Span(cap, w);
    assert s * w + (cap + w - 1) % w == cap + w - 1;
    if s > 0 {
      assert (s - 1) * w == s * w - w;
    }
  }

  /** Word `d` is one of the words the view may read or write. */
  predicate InFootprint(v: View, w: nat, d: nat)
    requires 0 < w
  {
    v.pointer <= d < v.pointer + Span(v.capacity, w)
  }

  /** The words a view may read or write. The explicit range shows the set
      is finite; the `InFootprint` conjunct is what quantifiers over the set
      are triggered on. */
  function Footprint(v: View, w: nat): set<nat>
    requires 0 < w
  {
    set d: nat | v.pointer <= d < v.pointer + Span(v.capacity, w) && InFootprint(v, w, d)
  }

  /** Where the view's bit 0 sits in the flat bit sequence of the store. */
  function BitOffset(v: View, w: nat): nat
  {
    v.pointer * w
  }

  /** The view's footprint lies inside a store of `len` words. */
  predicate WithinStore(v: View, w: nat, len: nat)
    requires 0 < w
  {
    v.pointer + Span(v.capacity, w) <= len
  }

  /** The bits of a view that fits in a store are bits of that store. */
  lemma BitsWithinStore(v: View, w: nat, len: nat)
    requires 0 < w && WithinStore(v, w, len)
    ensures BitOffset(v, w) + v.capacity <= w * len
  {
    SpanIsCeiling(v.capacity, w);
    MulMonotone(v.pointer + Span(v.capacity, w), len, w);
    assert (v.pointer + Span(v.capacity, w)) * w == v.pointer * w + Span(v.capacity, w) * w;
  }

  /** Every bit index below the capacity addresses a word of the footprint. */
  lemma IndexInFootprint(v: View, w: nat, i: nat)
    requires 0 < w && i < v.capacity
    ensures DataIndex(i, w) < Span(v.capacity, w)
    ensures v.pointer + DataIndex(i, w) in Footprint(v, w)
  {
    DivMonotone(i, v.capacity - 1, w);
    AddWords(1, v.capacity - 1, w);
  }

  /** `compute_capacities`: the two children's capacities. */
  function ComputeCapacities(cap: nat, k: nat): (caps: (nat, nat))
    requires k <= cap
    ensures caps.0 == k
    ensures caps.0 + caps.1 == cap
  {
    (k, cap - k)
  }

  /** One more than the largest 64-bit `usize`. */
  const UsizeModulus: nat := 0x1_0000_0000_0000_0000

  /** `compute_capacities` as the library states it on a 64-bit target: no
      caller checks that the split point lies within the capacity, so the
      subtraction wraps (in a build without overflow checks) when it does
      not. On every split point within the capacity it is the guarded
      version. */
  function ComputeCapacitiesWrapping(cap: nat, k: nat): (caps: (nat, nat))
    requires cap < UsizeModulus && k < UsizeModulus
    ensures caps.0 == k && caps.1 < UsizeModulus
    ensures k <= cap ==> caps == ComputeCapacities(cap, k)
  {
    (k, (cap - k) % UsizeModulus)
  }

  /** Splitting an 8-bit `u8` view at bit 16, an aligned index: the right
      child starts at word 2 and claims 2^64 - 8 bits. The capacities no
      longer add up to the parent's, and the right child lies wholly outside
      the `8 / W + 1` words `with_capacity(8)` allocates. */
  lemma SplitPastCapacityWraps()
    ensures OnStorageBound(16, W)
    ensures var (pointerLeft, pointerRight) := ComputePointers(0, DataIndex(16, W));
            var (capLeft, capRight) := ComputeCapacitiesWrapping(8, 16);
            && pointerRight == 2 && capRight == UsizeModulus - 8
            && capLeft + capRight != 8
            && pointerRight >= 8 / W + 1
            && !WithinStore(View(pointerRight, capRight), W, 8 / W + 1)
  {
  }

  /** `compute_pointers`: the left child keeps the pointer, the right child
      starts `dataIndex` words further. */
  function ComputePointers(pointer: nat, dataIndex: nat): (nat, nat)
  {
    (pointer, pointer + dataIndex)
  }

  /** At an aligned cut `k`, the left pointer is the parent's and the right
      pointer's first bit is the parent's bit `k`. */
  lemma PointersMeetAtCut(pointer: nat, k: nat, w: nat)
    requires 0 < w && OnStorageBound(k, w)
    ensures ComputePointers(pointer, DataIndex(k, w)).0 == pointer
    ensures BitIndex(ComputePointers(pointer, DataIndex(k, w)).1, 0, w) == BitIndex(pointer, 0, w) + k
  {
    var m := k / w;
    assert m * w == k;
    assert (pointer + m) * w == pointer * w + m * w;
  }

  /** `left` and `right` partition `v` at bit `k`: capacities add up, the
      bits of `right` continue where those of `left` stop, and the two
      footprints are disjoint and together exactly cover the parent's. */
  predicate SplitsAt(v: View, left: View, right: View, w: nat, k: nat)
    requires 0 < w
  {
    && left.capacity == k
    && left.capacity + right.capacity == v.capacity
    && BitOffset(left, w) == BitOffset(v, w)
    && BitOffset(right, w) == BitOffset(v, w) + k
    && Footprint(left, w) !! Footprint(right, w)
    && Footprint(left, w) + Footprint(right, w) == Footprint(v, w)
  }

  /** `split_at` / `split_at_mut` on a view: panic unless `k` is a multiple
      of the word width, otherwise the children `(pointer, k)` and
      `(pointer + k / w, capacity - k)`. */
  function Split(v: View, k: nat, w: nat): (r: Result<(View, View)>)
    requires 0 < w && k <= v.capacity
    ensures r.Panicked? <==> !OnStorageBound(k, w)
    ensures r.Panicked? ==> r.reason == IndexNotOnStorageBound
    ensures r.Ok? ==> SplitsAt(v, r.value.0, r.value.1, w, k)
  {
    if !OnStorageBound(k, w) then
      Panicked(IndexNotOnStorageBound)
    else
      var dataIndex := DataIndex(k, w);
      var (capLeft, capRight) := ComputeCapacities(v.capacity, k);
      var (pointerLeft, pointerRight) := ComputePointers(v.pointer, dataIndex);
      var left, right := View(pointerLeft, capLeft), View(pointerRight, capRight);
      AlignedSplitFacts(v, k, w);
      Ok((left, right))
  }

  lemma AlignedSplitFacts(v: View, k: nat, w: nat)
    requires 0 < w && k <= v.capacity && k % w == 0
    ensures SplitsAt(v, View(v.pointer, k), View(v.pointer + k / w, v.capacity - k), w, k)
  {
    var m := k / w;
    assert m * w == k;
    assert (v.pointer + m) * w == v.pointer * w + m * w;
    AlignedSpans(v.capacity, k, w);
  }

  /** An aligned cut at `k` spends exactly `k / w` words on the left and
      the rest of the parent's words on the right. */
  lemma AlignedSpans(cap: nat, k: nat, w: nat)
    requires 0 < w && k <= cap && k % w == 0
    ensures Span(k, w) == k / w
    ensures k / w + Span(cap - k, w) == Span(cap, w)
  {
    var m := k / w;
    assert m * w == k;
    AddWords(m, w - 1, w);
    AddWords(m, cap - k + w - 1, w);
  }

  /** A child of a view that fits in a store fits in that store too. */
  lemma SplitWithinStore(v: View, k: nat, w: nat, len: nat)
    requires 0 < w && k <= v.capacity && WithinStore(v, w, len)
    requires Split(v, k, w).Ok?
    ensures WithinStore(Split(v, k, w).value.0, w, len)
    ensures WithinStore(Split(v, k, w).value.1, w, len)
  {
    AlignedSpans(v.capacity, k, w);
  }

  /** Splits associate: cutting at `k1` and then the left child at `k2`
      gives the same three pieces as cutting at `k2` and then the right child
      at `k1 - k2`. */
  lemma SplitAssociative(v: View, k1: nat, k2: nat, w: nat)
    requires 0 < w && k2 <= k1 <= v.capacity
    requires OnStorageBound(k1, w) && OnStorageBound(k2, w)
    ensures Split(v, k1, w).Ok? && Split(v, k2, w).Ok?
    ensures Split(Split(v, k1, w).value.0, k2, w).Ok?
    ensures Split(Split(v, k2, w).value.1, k1 - k2, w).Ok?
    ensures Split(Split(v, k1, w).value.0, k2, w).value.0 == Split(v, k2, w).value.0
    ensures Split(Split(v, k1, w).value.0, k2, w).value.1
         == Split(Split(v, k2, w).value.1, k1 - k2, w).value.0
    ensures Split(v, k1, w).value.1 == Split(Split(v, k2, w).value.1, k1 - k2, w).value.1
  {
    var m1, m2 := k1 / w, k2 / w;
    assert m1 * w == k1 && m2 * w == k2;
    assert (m1 - m2) * w == k1 - k2;
    AddressRoundTrip(m1 - m2, 0, w);
    assert (k1 - k2) % w == 0;
  }

  // ---------------------------------------------------------------------
  // Peeling a view into many pieces (the helper of the parallel tests)
  // ---------------------------------------------------------------------

  function SumCapacities(views: seq<View>): nat
  {
    if |views| == 0 then 0 else views[0].capacity + SumCapacities(views[1..])
  }

  /** The indices are sorted and none lies before `from`. */
  predicate Increasing(indices: seq<nat>, from: nat)
  {
    && (forall i :: 0 <= i < |indices| ==> from <= indices[i])
    && (forall i, j :: 0 <= i <= j < |indices| ==> indices[i] <= indices[j])
  }

  predicate PairwiseDisjoint(views: seq<View>, w: nat)
    requires 0 < w
  {
    forall i, j :: 0 <= i < j < |views| ==> Footprint(views[i], w) !! Footprint(views[j], w)
  }

  /** Each piece starts at the bit where the one before it stops. */
  predicate Contiguous(views: seq<View>, w: nat)
  {
    forall i :: 0 < i < |views| ==> BitOffset(views[i], w) == BitOffset(views[i - 1], w) + views[i - 1].capacity
  }

  /** Every piece's footprint lies inside the footprint of `v`. */
  predicate Inside(views: seq<View>, v: View, w: nat)
    requires 0 < w
  {
    forall i :: 0 <= i < |views| ==> Footprint(views[i], w) <= Footprint(v, w)
  }

  /** `split_into_bit_slices`: start from one view, and for each absolute
      index cut the last piece at that index minus the previous one.
      `done` is the absolute index the first piece of `v` starts at. */
  function SplitIntoSlices(v: View, indices: seq<nat>, done: nat, w: nat): (r: Result<seq<View>>)
    requires 0 < w
    requires Increasing(indices, done)
    requires forall i :: 0 <= i < |indices| ==> indices[i] <= done + v.capacity
    ensures (forall i :: 0 <= i < |indices| ==> OnStorageBound(indices[i] - done, w)) <==> r.Ok?
    ensures r.Ok? ==> |r.value| == |indices| + 1
    ensures r.Ok? ==> Peeled(v, r.value, w)
    decreases |indices|
  {
    if |indices| == 0 then Ok([v])
    else
      var cut := indices[0] - done;
      match Split(v, cut, w)
      case Panicked(reason) => Panicked(reason)
      case Ok((left, right)) =>
        AlignedTail(indices, done, w);
        match SplitIntoSlices(right, indices[1..], indices[0], w)
        case Panicked(reason) => Panicked(reason)
        case Ok(rest) =>
          PeelStep(v, left, right, rest, w, cut);
          Ok([left] + rest)
  }

  /** `pieces` cut `v` up: their capacities add up to the parent's, the
      first starts where `v` does, each continues the one before it, and
      their footprints are pairwise disjoint and inside the parent's. */
  predicate Peeled(v: View, pieces: seq<View>, w: nat)
    requires 0 < w
  {
    && |pieces| > 0
    && SumCapacities(pieces) == v.capacity
    && BitOffset(pieces[0], w) == BitOffset(v, w)
    && Contiguous(pieces, w)
    && Inside(pieces, v, w)
    && PairwiseDisjoint(pieces, w)
  }

  /** Putting the left child of a cut in front of a peeling of the right
      child peels the parent. */
  lemma PeelStep(v: View, left: View, right: View, rest: seq<View>, w: nat, cut: nat)
    requires 0 < w && SplitsAt(v, left, right, w, cut) && Peeled(right, rest, w)
    ensures Peeled(v, [left] + rest, w)
  {
    var pieces := [left] + rest;
    assert pieces[1..] == rest;
    forall i | 0 < i < |pieces|
      ensures Footprint(pieces[i], w) <= Footprint(v, w)
    {
      assert pieces[i] == rest[i - 1];
    }
    forall i, j | 0 <= i < j < |pieces|
      ensures Footprint(pieces[i], w) !! Footprint(pieces[j], w)
    {
      if i > 0 {
        assert pieces[i] == rest[i - 1] && pieces[j] == rest[j - 1];
      } else {
        assert pieces[j] == rest[j - 1];
      }
    }
    forall i | 1 < i < |pieces|
      ensures BitOffset(pieces[i], w) == BitOffset(pieces[i - 1], w) + pieces[i - 1].capacity
    {
      assert pieces[i] == rest[i - 1] && pieces[i - 1] == rest[i - 2];
    }
  }

  /** Once the first index is aligned relative to `done`, every index is
      aligned relative to `done` iff every later one is aligned relative to
      the first. */
  lemma AlignedTail(indices: seq<nat>, done: nat, w: nat)
    requires 0 < w && |indices| > 0 && Increasing(indices, done)
    requires OnStorageBound(indices[0] - done, w)
    ensures (forall i :: 0 <= i < |indices| ==> OnStorageBound(indices[i] - done, w)) <==>
            forall i :: 0 <= i < |indices[1..]| ==> OnStorageBound(indices[1..][i] - indices[0], w)
  {
    var m := (indices[0] - done) / w;
    assert m * w == indices[0] - done;
    forall i | 0 < i < |indices|
      ensures OnStorageBound(indices[i] - done, w) <==> OnStorageBound(indices[1..][i - 1] - indices[0], w)
    {
      AddWords(m, indices[i] - indices[0], w);
    }
  }

  /** The difference of two aligned indices is aligned. */
  lemma AlignedDifference(a: nat, b: nat, w: nat)
    requires 0 < w && b <= a && a % w == 0 && b % w == 0
    ensures (a - b) % w == 0
  {
    var ma, mb := a / w, b / w;
    assert ma * w == a && mb * w == b;
    assert ma >= mb;
    assert (ma - mb) * w == a - b;
    AddressRoundTrip(ma - mb, 0, w);
  }

  /** The `u32` test: cutting a 1000-bit vector at 128, 224, ..., 928 yields
      ten pieces whose footprints are pairwise disjoint and whose capacities
      add up to 1000. */
  lemma PeelThousandBitsU32(indices: seq<nat>, w: nat)
    requires indices == [128, 224, 320, 416, 512, 608, 704, 800, 928]
    requires w == StorageSize(U32)
    ensures Increasing(indices, 0) && forall i :: 0 <= i < |indices| ==> indices[i] <= 1000
    ensures var r := SplitIntoSlices(View(0, 1000), indices, 0, w);
            && r.Ok?
            && |r.value| == 10
            && SumCapacities(r.value) == 1000
            && PairwiseDisjoint(r.value, w)
            && Peeled(View(0, 1000), r.value, w)
  {
    assert w == 32;
    assert Increasing(indices, 0) by {
      assert forall i, j :: 0 <= i <= j < |indices| ==> indices[i] <= indices[j];
    }
    assert forall i :: 0 <= i < |indices| ==> indices[i] <= 0 + 1000;
    assert forall i :: 0 <= i < |indices| ==> OnStorageBound(indices[i] - 0, w) by {
      forall i | 0 <= i < |indices|
        ensures OnStorageBound(indices[i] - 0, w)
      {
        assert indices[i] == 32 * (indices[i] / 32);
      }
    }
  }
}
