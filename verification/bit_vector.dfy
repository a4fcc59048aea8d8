/** `BitVector`: the owning container. It allocates `capacity / W + 1` words
    once, reads and writes bits in place, and hands out the first pair of
    views over its words. */
module BitVector {
  import opened Outcomes
  import opened BitStorage
  import opened Views
  import BitSlice
  import BitSliceMut

  /** The words the vector owns and the number of bits it holds. */
  datatype BitVector = BitVector(data: seq<bv8>, capacity: nat)

  /** The allocation rule of `with_capacity`: `capacity / W + 1` words, one
      more than strictly needed whenever `capacity` is a multiple of `W`. */
  predicate Valid(vec: BitVector)
  {
    |vec.data| == vec.capacity / W + 1
  }

  /** `with_capacity(capacity)`: `capacity / W + 1` zero words, so every bit
      reads `false`. */
  function WithCapacity(capacity: nat): (vec: BitVector)
    ensures Valid(vec) && vec.capacity == capacity
    ensures forall i :: 0 <= i < capacity ==> Get(vec, i) == Some(false)
    ensures forall d :: 0 <= d < |vec.data| ==> vec.data[d] == 0
  {
    var len := capacity / W + 1;
    var vec := BitVector(seq(len, _ => 0), capacity);
    assert forall i :: 0 <= i < capacity ==> DataIndex(i, W) < len;
    vec
  }

  /** The two-argument constructor the library's tests call: the same
      allocation, every word all ones or all zeros. Filling with `false` is
      exactly `with_capacity`. */
  function WithCapacityFill(capacity: nat, fill: bool): (vec: BitVector)
    ensures Valid(vec) && vec.capacity == capacity
    ensures forall i :: 0 <= i < capacity ==> Get(vec, i) == Some(fill)
    ensures !fill ==> vec == WithCapacity(capacity)
  {
    var len := capacity / W + 1;
    var word: bv8 := if fill then 0xFF else 0;
    var vec := BitVector(seq(len, _ => word), capacity);
    assert forall i :: 0 <= i < capacity ==> DataIndex(i, W) < len;
    assert forall r :: 0 <= r < W ==> GetBit(word, r) == fill;
    vec
  }

  /** Every index below the capacity addresses an allocated word, and every
      aligned split point up to the capacity is a valid cut of the buffer. */
  lemma AllocationCovers(vec: BitVector, i: nat, k: nat)
    requires Valid(vec)
    ensures i < vec.capacity ==> DataIndex(i, W) < |vec.data|
    ensures k <= vec.capacity && OnStorageBound(k, W) ==> DataIndex(k, W) < |vec.data|
  {
    if i < vec.capacity {
      DivMonotone(i, vec.capacity, W);
    }
    if k <= vec.capacity {
      DivMonotone(k, vec.capacity, W);
    }
  }

  /** The view of all the vector's bits: what `split_at(0)` yields on the
      right and what `iter()` walks. */
  function WholeView(vec: BitVector): (v: View)
    requires Valid(vec)
    ensures WithinStore(v, W, |vec.data|) && BitOffset(v, W) == 0 && v.capacity == vec.capacity
  {
    AllocationSlack(vec.capacity);
    View(0, vec.capacity)
  }

  /** The allocation always covers the bits, with at most one word to
      spare; the spare word is there exactly when `capacity` is a multiple
      of `W`. */
  lemma AllocationSlack(cap: nat)
    ensures Span(cap, W) <= cap / W + 1 <= Span(cap, W) + 1
    ensures cap / W + 1 == Span(cap, W) + 1 <==> OnStorageBound(cap, W)
  {
  }

  /** `get_unchecked`: bit `i` of the flat bit sequence of the words. */
  function GetUnchecked(vec: BitVector, i: nat): (b: bool)
    requires Valid(vec) && i < vec.capacity
    ensures i < |Flatten(vec.data)| && b == Flatten(vec.data)[i]
  {
    AllocationCovers(vec, i, 0);
    FlattenIndex(vec.data, i);
    var (dataIndex, remainder) := DataIndexAndRemainder(i, W);
    GetBit(vec.data[dataIndex], remainder)
  }

  /** `get`: `None` past the capacity, never a panic. */
  function Get(vec: BitVector, i: nat): (r: Option<bool>)
    requires Valid(vec)
    ensures r.None? <==> vec.capacity <= i
    ensures r.Some? ==> i < |Flatten(vec.data)| && r.value == Flatten(vec.data)[i]
  {
    if i < vec.capacity then Some(GetUnchecked(vec, i)) else None
  }

  /** `vec[i]`: panics past the capacity, otherwise what `get` returns. */
  function Index(vec: BitVector, i: nat): (r: Result<bool>)
    requires Valid(vec)
    ensures r.Panicked? <==> vec.capacity <= i
    ensures r.Panicked? ==> r.reason == IndexOutOfBounds
    ensures r.Ok? ==> Get(vec, i) == Some(r.value)
  {
    if !(i < vec.capacity) then Panicked(IndexOutOfBounds)
    else Ok(GetUnchecked(vec, i))
  }

  /** `set`: panics past the capacity; otherwise rewrites offset `i % W` of
      word `i / W`, which changes exactly bit `i` of the flat sequence. */
  function Set(vec: BitVector, i: nat, value: bool): (r: Result<BitVector>)
    requires Valid(vec)
    ensures r.Panicked? <==> vec.capacity <= i
    ensures r.Panicked? ==> r.reason == IndexOutOfBounds
    ensures r.Ok? ==> Valid(r.value) && r.value.capacity == vec.capacity
    ensures r.Ok? ==> i < |Flatten(vec.data)| && Flatten(r.value.data) == Flatten(vec.data)[i := value]
  {
    if !(i < vec.capacity) then Panicked(IndexOutOfBounds)
    else
      AllocationCovers(vec, i, 0);
      FlattenUpdate(vec.data, i, value);
      var (dataIndex, remainder) := DataIndexAndRemainder(i, W);
      Ok(vec.(data := vec.data[dataIndex := SetBit(vec.data[dataIndex], remainder, value)]))
  }

  /** After `set(i, v)`, `get(i)` is `Some(v)` and every other index reads as
      before, the other bits of the same word included. */
  lemma SetThenGet(vec: BitVector, i: nat, value: bool, j: nat)
    requires Valid(vec) && i < vec.capacity
    ensures Set(vec, i, value).Ok?
    ensures Get(Set(vec, i, value).value, j) == if j == i then Some(value) else Get(vec, j)
  {
  }

  /** A run of `set(i, value)` calls, one per index in order: the way the
      library's tests populate a vector. The first index past the capacity
      panics. */
  function SetEach(vec: BitVector, indices: seq<nat>, value: bool): (r: Result<BitVector>)
    requires Valid(vec)
    ensures r.Panicked? <==> exists n :: 0 <= n < |indices| && vec.capacity <= indices[n]
    ensures r.Ok? ==> Valid(r.value) && r.value.capacity == vec.capacity
    ensures r.Ok? ==> forall j :: Get(r.value, j) == if j in indices then Some(value) else Get(vec, j)
    decreases |indices|
  {
    if |indices| == 0 then Ok(vec)
    else
      match Set(vec, indices[0], value)
      case Panicked(reason) => Panicked(reason)
      case Ok(next) =>
        assert forall j :: j in indices <==> j == indices[0] || j in indices[1..];
        SetEach(next, indices[1..], value)
  }

  /** The vector's own `get` and `set` are those of its whole view. */
  lemma VectorIsWholeView(vec: BitVector, i: nat, value: bool)
    requires Valid(vec)
    ensures Get(vec, i) == BitSlice.Get(vec.data, WholeView(vec), i)
    ensures Set(vec, i, value).Ok? <==> BitSliceMut.Set(vec.data, WholeView(vec), i, value).Ok?
    ensures Set(vec, i, value).Ok? ==>
              Set(vec, i, value).value.data == BitSliceMut.Set(vec.data, WholeView(vec), i, value).value
  {
  }

  /** `split_at` / `split_at_mut` on the vector: panic unless `k` is aligned;
      otherwise the views `(word 0, k)` and `(word k / W, capacity - k)`,
      both inside the allocation. */
  function SplitAt(vec: BitVector, k: nat): (r: Result<(View, View)>)
    requires Valid(vec) && k <= vec.capacity
    ensures r.Panicked? <==> !OnStorageBound(k, W)
    ensures r.Panicked? ==> r.reason == IndexNotOnStorageBound
    ensures r.Ok? ==> SplitsAt(WholeView(vec), r.value.0, r.value.1, W, k)
    ensures r.Ok? ==> WithinStore(r.value.0, W, |vec.data|) && WithinStore(r.value.1, W, |vec.data|)
  {
    AllocationCovers(vec, 0, k);
    var r := Split(WholeView(vec), k, W);
    if r.Ok? then
      SplitWithinStore(WholeView(vec), k, W, |vec.data|);
      r
    else
      r
  }

  /** `split_at_mut`: the same cut, handed out as two mutable views. */
  function SplitAtMut(vec: BitVector, k: nat): (r: Result<(View, View)>)
    requires Valid(vec) && k <= vec.capacity
    ensures r.Panicked? <==> !OnStorageBound(k, W)
    ensures r.Panicked? ==> r.reason == IndexNotOnStorageBound
    ensures r.Ok? ==> SplitsAt(WholeView(vec), r.value.0, r.value.1, W, k)
    ensures r.Ok? ==> WithinStore(r.value.0, W, |vec.data|) && WithinStore(r.value.1, W, |vec.data|)
  {
    SplitAt(vec, k)
  }

  /** After an aligned split at `k`, the left view reads the vector's bits
      `0 .. k` and the right view its bits `k .. capacity`. */
  lemma SplitAtReads(vec: BitVector, k: nat)
    requires Valid(vec) && k <= vec.capacity && SplitAt(vec, k).Ok?
    ensures var (left, right) := SplitAt(vec, k).value;
            && (forall j :: 0 <= j < k ==> BitSlice.Get(vec.data, left, j) == Get(vec, j))
            && (forall j :: k <= j < vec.capacity ==> BitSlice.Get(vec.data, right, j - k) == Get(vec, j))
  {
  }

  /** `iter()` on the vector walks its whole view. */
  function Iter(vec: BitVector): (it: BitSliceMut.Iter)
    requires Valid(vec)
    ensures BitSliceMut.IterValid(it, |vec.data|)
    ensures BitSliceMut.Collect(vec.data, it) == BitSlice.Contents(vec.data, WholeView(vec))
  {
    BitSliceMut.IterYieldsContents(vec.data, WholeView(vec));
    BitSliceMut.IterOf(WholeView(vec))
  }

  /** The vector's iteration equals the left child's followed by the right
      child's, for any aligned mutable split. */
  lemma IterSplitConcat(vec: BitVector, k: nat, left: View, right: View)
    requires Valid(vec) && k <= vec.capacity && SplitAtMut(vec, k) == Ok((left, right))
    ensures BitSliceMut.IterValid(BitSliceMut.IterOf(left), |vec.data|)
    ensures BitSliceMut.IterValid(BitSliceMut.IterOf(right), |vec.data|)
    ensures BitSliceMut.Collect(vec.data, Iter(vec))
            == BitSliceMut.Collect(vec.data, BitSliceMut.IterOf(left))
               + BitSliceMut.Collect(vec.data, BitSliceMut.IterOf(right))
  {
    BitSliceMut.IterSplitConcat(vec.data, WholeView(vec), k);
  }

  /** Thanks to the extra word, the read the library's `next` performs on
      its final call over the whole vector stays inside the allocation. */
  lemma WholeIterFinalReadAllocated(vec: BitVector, it: BitSliceMut.Iter)
    requires Valid(vec) && BitSliceMut.Walked(it) == WholeView(vec)
    requires BitSliceMut.IterValid(it, |vec.data|)
    ensures BitSliceMut.NextAsWritten(vec.data, it).read.value < |vec.data|
  {
    AddressRoundTrip(it.dataIndexCounter, it.remainderCounter, W);
    DivMonotone(BitSliceMut.CalculateIndex(it), vec.capacity, W);
  }
}
