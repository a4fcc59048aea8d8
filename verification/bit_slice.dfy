/** `BitSlice`: a read-only window over a word store. Reads go to word
    `pointer + i / W` at offset `i % W`; a view never owns the store it reads. */
module BitSlice {
  import opened Outcomes
  import opened BitStorage
  import opened Views

  /** `get_unchecked`: reads bit `i` of the view, which is bit
      `BitOffset(s) + i` of the store's flat bit sequence. */
  function GetUnchecked(store: seq<bv8>, s: View, i: nat): (b: bool)
    requires WithinStore(s, W, |store|) && i < s.capacity
    ensures BitOffset(s, W) + i < |Flatten(store)|
    ensures b == Flatten(store)[BitOffset(s, W) + i]
  {
    IndexInFootprint(s, W, i);
    BitsWithinStore(s, W, |store|);
    AddWords(s.pointer, i, W);
    FlattenIndex(store, BitOffset(s, W) + i);
    var (dataIndex, remainder) := DataIndexAndRemainder(i, W);
    GetBit(store[s.pointer + dataIndex], remainder)
  }

  /** `get`: `None` past the capacity, never a panic. */
  function Get(store: seq<bv8>, s: View, i: nat): (r: Option<bool>)
    requires WithinStore(s, W, |store|)
    ensures r.None? <==> s.capacity <= i
    ensures r.Some? ==> BitOffset(s, W) + i < |Flatten(store)|
                        && r.value == Flatten(store)[BitOffset(s, W) + i]
  {
    if i < s.capacity then Some(GetUnchecked(store, s, i)) else None
  }

  /** `slice[i]`: panics past the capacity, otherwise the bit `get` sees. */
  function Index(store: seq<bv8>, s: View, i: nat): (r: Result<bool>)
    requires WithinStore(s, W, |store|)
    ensures r.Panicked? <==> s.capacity <= i
    ensures r.Panicked? ==> r.reason == IndexOutOfBounds
    ensures r.Ok? ==> Get(store, s, i) == Some(r.value)
  {
    if !(i < s.capacity) then Panicked(IndexOutOfBounds)
    else Ok(GetUnchecked(store, s, i))
  }

  /** `split_at`: two read-only children cut at an aligned index `k`. */
  function SplitAt(s: View, k: nat): (r: Result<(View, View)>)
    requires k <= s.capacity
    ensures r.Panicked? <==> !OnStorageBound(k, W)
    ensures r.Panicked? ==> r.reason == IndexNotOnStorageBound
    ensures r.Ok? ==> SplitsAt(s, r.value.0, r.value.1, W, k)
  {
    Split(s, k, W)
  }

  /** All bits of a view, in index order. */
  function Contents(store: seq<bv8>, s: View): (bits: seq<bool>)
    requires WithinStore(s, W, |store|)
    ensures |bits| == s.capacity
    ensures forall i :: 0 <= i < s.capacity ==> Get(store, s, i) == Some(bits[i])
  {
    seq(s.capacity, i requires 0 <= i < s.capacity => GetUnchecked(store, s, i))
  }

  /** A view shows exactly its own run of the store's flat bit sequence. */
  lemma ContentsIsFlatRun(store: seq<bv8>, s: View)
    requires WithinStore(s, W, |store|)
    ensures BitOffset(s, W) + s.capacity <= |Flatten(store)|
    ensures Contents(store, s) == Flatten(store)[BitOffset(s, W) .. BitOffset(s, W) + s.capacity]
  {
    BitsWithinStore(s, W, |store|);
  }

  /** Two views showing the same run of bits have the same contents. */
  lemma SameRunSameContents(store: seq<bv8>, a: View, b: View)
    requires WithinStore(a, W, |store|) && WithinStore(b, W, |store|)
    requires BitOffset(a, W) == BitOffset(b, W) && a.capacity == b.capacity
    ensures Contents(store, a) == Contents(store, b)
  {
    ContentsIsFlatRun(store, a);
    ContentsIsFlatRun(store, b);
  }

  /** Two views whose runs of the flat bit sequence meet read, one after
      the other, what a view spanning both runs reads. */
  lemma AdjacentRuns(store: seq<bv8>, s: View, left: View, right: View)
    requires WithinStore(s, W, |store|) && WithinStore(left, W, |store|) && WithinStore(right, W, |store|)
    requires left.capacity + right.capacity == s.capacity
    requires BitOffset(left, W) == BitOffset(s, W)
    requires BitOffset(right, W) == BitOffset(s, W) + left.capacity
    ensures Contents(store, s) == Contents(store, left) + Contents(store, right)
  {
    var all, l, r := Contents(store, s), Contents(store, left), Contents(store, right);
    var k := left.capacity;
    forall j | 0 <= j < s.capacity
      ensures all[j] == (l + r)[j]
    {
      if j < k {
        assert Get(store, left, j) == Some(l[j]);
      } else {
        assert Get(store, right, j - k) == Some(r[j - k]);
      }
    }
  }

  /** Reading through the children of an aligned split is reading the
      parent: the left child shows bits `0 .. k`, the right child bits
      `k .. capacity`, and together they show all of the parent. */
  lemma SplitAtReads(store: seq<bv8>, s: View, k: nat)
    requires WithinStore(s, W, |store|) && k <= s.capacity
    requires SplitAt(s, k).Ok?
    ensures var (left, right) := SplitAt(s, k).value;
            && WithinStore(left, W, |store|) && WithinStore(right, W, |store|)
            && (forall j :: 0 <= j < k ==> Get(store, left, j) == Get(store, s, j))
            && (forall j :: 0 <= j < s.capacity - k ==> Get(store, right, j) == Get(store, s, k + j))
            && Contents(store, s) == Contents(store, left) + Contents(store, right)
  {
    var (left, right) := SplitAt(s, k).value;
    SplitWithinStore(s, k, W, |store|);
    AdjacentRuns(store, s, left, right);
    var all := Contents(store, s);
    assert forall j :: 0 <= j < k ==> Contents(store, left)[j] == all[j];
    assert forall j :: 0 <= j < s.capacity - k ==> Contents(store, right)[j] == all[k + j];
  }

  /** Splitting both halves again composes: the four quarters show bits
      `0 ..`, `kl ..`, `k ..` and `k + kr ..` of the parent. */
  lemma NestedSplitReads(store: seq<bv8>, s: View, k: nat, kl: nat, kr: nat)
    requires WithinStore(s, W, |store|) && k <= s.capacity && kl <= k && kr <= s.capacity - k
    requires OnStorageBound(k, W) && OnStorageBound(kl, W) && OnStorageBound(kr, W)
    ensures SplitAt(s, k).Ok?
    ensures var (left, right) := SplitAt(s, k).value;
            && SplitAt(left, kl).Ok? && SplitAt(right, kr).Ok?
            && var (ll, lr) := SplitAt(left, kl).value;
               var (rl, rr) := SplitAt(right, kr).value;
               && WithinStore(ll, W, |store|) && WithinStore(lr, W, |store|)
               && WithinStore(rl, W, |store|) && WithinStore(rr, W, |store|)
               && (forall j :: 0 <= j < kl ==> Get(store, ll, j) == Get(store, s, j))
               && (forall j :: 0 <= j < k - kl ==> Get(store, lr, j) == Get(store, s, kl + j))
               && (forall j :: 0 <= j < kr ==> Get(store, rl, j) == Get(store, s, k + j))
               && (forall j :: 0 <= j < s.capacity - k - kr ==> Get(store, rr, j) == Get(store, s, k + kr + j))
  {
    var (left, right) := SplitAt(s, k).value;
    SplitAtReads(store, s, k);
    SplitAtReads(store, left, kl);
    SplitAtReads(store, right, kr);
  }

  /** What a view shows depends only on the words of its footprint. */
  lemma ContentsDependOnFootprint(store1: seq<bv8>, store2: seq<bv8>, s: View)
    requires WithinStore(s, W, |store1|) && WithinStore(s, W, |store2|)
    requires forall d :: d in Footprint(s, W) ==> store1[d] == store2[d]
    ensures Contents(store1, s) == Contents(store2, s)
  {
    forall i | 0 <= i < s.capacity
      ensures Contents(store1, s)[i] == Contents(store2, s)[i]
    {
      IndexInFootprint(s, W, i);
    }
  }

  /** Bits are numbered from the least significant bit of each word: the
      bytes `0b11001111, 0b01001001` read as the sixteen bits below. */
  lemma FromPointerIsLsbFirst(store: seq<bv8>)
    requires store == [0xCF, 0x49]  // 0b11001111, 0b01001001
    ensures WithinStore(View(0, 16), W, |store|)
    ensures Contents(store, View(0, 16))
         == [true, true, true, true, false, false, true, true,
             true, false, false, true, false, false, true, false]
  {
    assert WithinStore(View(0, 16), W, |store|);
    var bits := Contents(store, View(0, 16));
    forall i | 0 <= i < 16
      ensures bits[i] == GetBit(store[i / 8], i % 8)
    {
    }
  }
}
