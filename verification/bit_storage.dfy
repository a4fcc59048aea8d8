/** The storage-word abstraction: the bit width of a word type, the
    translation of a bit index into (word index, in-word offset), and the
    single-word get/set primitives written with the same shift and mask
    operations as the library. */
module BitStorage {

  /** The unsigned integer types a vector can be instantiated with. */
  datatype WordType = U8 | U16 | U32 | U64

  function ByteSize(t: WordType): nat
  {
    match t
    case U8 => 1
    case U16 => 2
    case U32 => 4
    case U64 => 8
  }

  /** `storage_size()`: the number of bits in one word, eight per byte. */
  function StorageSize(t: WordType): (w: nat)
    ensures 0 < w && w % 8 == 0
    ensures w / 8 == ByteSize(t)
  {
    ByteSize(t) * 8
  }

  function Pow2(n: nat): (p: nat)
    ensures 0 < p
  {
    if n == 0 then 1 else 2 * Pow2(n - 1)
  }

  lemma {:induction false} BelowPow2(n: nat)
    ensures n < Pow2(n)
  {
    if n > 0 {
      BelowPow2(n - 1);
    }
  }

  // ---------------------------------------------------------------------
  // Addressing, symbolic in the word width w
  // ---------------------------------------------------------------------

  /** `compute_data_index`: the word that holds bit `i`. */
  function DataIndex(i: nat, w: nat): nat
    requires 0 < w
  {
    i / w
  }

  /** `compute_data_remainder`: the position of bit `i` inside its word. */
  function DataRemainder(i: nat, w: nat): nat
    requires 0 < w
  {
    i % w
  }

  /** The bit index of offset `r` inside word `d` (also how the iterator
      recovers its position from its two counters). */
  function BitIndex(d: nat, r: nat, w: nat): nat
  {
    d * w + r
  }

  /** `compute_data_index_and_remainder`: a lossless decomposition of `i`. */
  function DataIndexAndRemainder(i: nat, w: nat): (dr: (nat, nat))
    requires 0 < w
    ensures dr.1 < w
    ensures BitIndex(dr.0, dr.1, w) == i
  {
    (DataIndex(i, w), DataRemainder(i, w))
  }

  /** Composing a word index with an in-word offset and decomposing again
      gives back the same pair: the decomposition is unique. */
  lemma AddressRoundTrip(d: nat, r: nat, w: nat)
    requires r < w
    ensures DataIndex(BitIndex(d, r, w), w) == d
    ensures DataRemainder(BitIndex(d, r, w), w) == r
  {
    var i := d * w + r;
    var q, m := i / w, i % w;
    assert q * w + m == d * w + r;
    if q > d {
      MulMonotone(d + 1, q, w);
    } else if q < d {
      MulMonotone(q + 1, d, w);
    }
  }

  /** `compute_data_index` is floor division: `d` is the word of bit `i`
      exactly when bit `i` lies among the `w` bits word `d` holds. */
  lemma DataIndexIsFloor(i: nat, w: nat, d: nat)
    requires 0 < w
    ensures d * w <= i < d * w + w <==> d == DataIndex(i, w)
  {
    if d * w <= i < d * w + w {
      AddressRoundTrip(d, i - d * w, w);
    } else {
      AddressRoundTrip(DataIndex(i, w), DataRemainder(i, w), w);
    }
  }

  /** `compute_data_remainder` is the offset left over once the whole words
      below bit `i` are taken away, and it is the only such offset. */
  lemma DataRemainderIsOffset(i: nat, w: nat, r: nat)
    requires 0 < w
    ensures r < w && DataIndex(i, w) * w + r == i <==> r == DataRemainder(i, w)
  {
    AddressRoundTrip(DataIndex(i, w), DataRemainder(i, w), w);
  }

  lemma MulMonotone(a: nat, b: nat, w: nat)
    requires a <= b
    ensures a * w <= b * w
  {
    assert b * w == a * w + (b - a) * w;
  }

  /** Adding whole words moves the word index and keeps the offset. */
  lemma AddWords(m: nat, x: nat, w: nat)
    requires 0 < w
    ensures (m * w + x) / w == m + x / w
    ensures (m * w + x) % w == x % w
  {
    var q, r := x / w, x % w;
    assert m * w + x == BitIndex(m + q, r, w) by {
      assert (m + q) * w == m * w + q * w;
    }
    AddressRoundTrip(m + q, r, w);
  }

  /** Division by a word width is monotone. */
  lemma DivMonotone(a: nat, b: nat, w: nat)
    requires 0 < w && a <= b
    ensures a / w <= b / w
  {
    if a / w > b / w {
      MulMonotone(b / w + 1, a / w, w);
      assert false;
    }
  }

  /** A split index is accepted iff it is a multiple of the word width. */
  predicate OnStorageBound(k: nat, w: nat)
    requires 0 < w
  {
    k % w == 0
  }

  /** The storage-bound check accepts `k` exactly when `k` is a whole
      number of words, so the split point starts a word. */
  lemma OnStorageBoundIsWhole(k: nat, w: nat)
    requires 0 < w
    ensures OnStorageBound(k, w) <==> BitIndex(DataIndex(k, w), 0, w) == k
  {
    AddressRoundTrip(DataIndex(k, w), DataRemainder(k, w), w);
  }

  /** The in-word offset always fits in the word type, so converting it to
      the word type before shifting cannot fail. */
  lemma OffsetFitsWord(i: nat, t: WordType)
    ensures DataRemainder(i, StorageSize(t)) < StorageSize(t) < Pow2(StorageSize(t))
  {
    BelowPow2(StorageSize(t));
  }

  /** For `u8`, the split points 0, 8 and 16 are accepted and 4 is not. */
  lemma U8StorageBounds()
    ensures StorageSize(U8) == 8
    ensures OnStorageBound(0, 8) && OnStorageBound(8, 8) && OnStorageBound(16, 8)
    ensures !OnStorageBound(4, 8)
  {
  }

  // ---------------------------------------------------------------------
  // Words of type u8
  // ---------------------------------------------------------------------

  /** Width of the `u8` word every concrete store in this model uses. */
  const W: nat := 8

  /** Reads offset `r` of a word: `(word & (1 << r)) != 0`. */
  function GetBit(word: bv8, r: nat): bool
    requires r < W
  {
    word & (1 << r) != 0
  }

  /** Writes offset `r` of a word: `|= 1 << r` or `&= !(1 << r)`. */
  function SetBit(word: bv8, r: nat, value: bool): (out: bv8)
    requires r < W
    ensures GetBit(out, r) == value
    ensures forall q :: 0 <= q < W && q != r ==> GetBit(out, q) == GetBit(word, q)
  {
    if value then
      SetOffset(word, r);
      word | (1 << r)
    else
      ClearOffset(word, r);
      word & !(1 << r)
  }

  /** `|= 1 << r` turns offset `r` on and no other offset. */
  lemma SetOffset(word: bv8, r: nat)
    requires r < W
    ensures GetBit(word | (1 << r), r)
    ensures forall q :: 0 <= q < W && q != r ==> GetBit(word | (1 << r), q) == GetBit(word, q)
  {
    if r == 0 {} else if r == 1 {} else if r == 2 {} else if r == 3 {}
    else if r == 4 {} else if r == 5 {} else if r == 6 {} else {}
  }

  /** `&= !(1 << r)` turns offset `r` off and no other offset. */
  lemma ClearOffset(word: bv8, r: nat)
    requires r < W
    ensures !GetBit(word & !(1 << r), r)
    ensures forall q :: 0 <= q < W && q != r ==> GetBit(word & !(1 << r), q) == GetBit(word, q)
  {
    if r == 0 {} else if r == 1 {} else if r == 2 {} else if r == 3 {}
    else if r == 4 {} else if r == 5 {} else if r == 6 {} else {}
  }

  /** A later write to the same offset overwrites an earlier one. */
  lemma SetBitLastWins(word: bv8, r: nat, a: bool, b: bool)
    requires r < W
    ensures SetBit(SetBit(word, r, a), r, b) == SetBit(word, r, b)
  {
    var m: bv8 := 1 << r;
    MaskAbsorbs(word, m);
  }

  /** Or-ing and and-not-ing the same mask in a row: the later one wins. */
  lemma MaskAbsorbs(x: bv8, m: bv8)
    ensures (x | m) | m == x | m && (x | m) & !m == x & !m
    ensures (x & !m) | m == x | m && (x & !m) & !m == x & !m
  {
  }

  // ---------------------------------------------------------------------
  // Reference semantics: a store as one flat sequence of bits
  // ---------------------------------------------------------------------

  /** The bits of one word, least significant first. */
  function WordBits(word: bv8): (bits: seq<bool>)
    ensures |bits| == W
    ensures forall q :: 0 <= q < W ==> bits[q] == GetBit(word, q)
  {
    seq(W, q requires 0 <= q < W => GetBit(word, q))
  }

  /** `b` as the word holding only mask `m`, or zero. */
  function Digit(b: bool, m: bv8): bv8
  {
    if b then m else 0
  }

  /** The word whose offsets 0 to 7 are `b0` to `b7`, built with masks rather
      than shifts, independently of `GetBit`. */
  function Pack(b0: bool, b1: bool, b2: bool, b3: bool, b4: bool, b5: bool, b6: bool, b7: bool): bv8
  {
    Digit(b0, 1) | Digit(b1, 2) | Digit(b2, 4) | Digit(b3, 8)
    | Digit(b4, 16) | Digit(b5, 32) | Digit(b6, 64) | Digit(b7, 128)
  }

  /** The word whose bits, least significant first, are `bits`. */
  function WordOfBits(bits: seq<bool>): bv8
    requires |bits| == W
  {
    Pack(bits[0], bits[1], bits[2], bits[3], bits[4], bits[5], bits[6], bits[7])
  }

  /** The eight reads of a word determine it: packing them gives the word
      back, so `GetBit` loses nothing. */
  lemma WordBitsRoundTrip(word: bv8)
    ensures WordOfBits(WordBits(word)) == word
  {
    WordBitsListed(word);
    PackedWord(word);
  }

  /** Every pattern of eight bits is what the reads of some word give: the
      one packed from the pattern. */
  lemma BitsWordRoundTrip(bits: seq<bool>)
    requires |bits| == W
    ensures WordBits(WordOfBits(bits)) == bits
  {
    PackedReads(bits[0], bits[1], bits[2], bits[3], bits[4], bits[5], bits[6], bits[7]);
    WordBitsListed(WordOfBits(bits));
    EightListed(bits);
  }

  lemma WordBitsListed(word: bv8)
    ensures WordBits(word) == [GetBit(word, 0), GetBit(word, 1), GetBit(word, 2), GetBit(word, 3),
                               GetBit(word, 4), GetBit(word, 5), GetBit(word, 6), GetBit(word, 7)]
  {
  }

  lemma EightListed(bits: seq<bool>)
    requires |bits| == W
    ensures bits == [bits[0], bits[1], bits[2], bits[3], bits[4], bits[5], bits[6], bits[7]]
  {
  }

  lemma PackedWord(word: bv8)
    ensures Pack(GetBit(word, 0), GetBit(word, 1), GetBit(word, 2), GetBit(word, 3),
                 GetBit(word, 4), GetBit(word, 5), GetBit(word, 6), GetBit(word, 7)) == word
  {
  }

  lemma PackedReads(b0: bool, b1: bool, b2: bool, b3: bool, b4: bool, b5: bool, b6: bool, b7: bool)
    ensures var word := Pack(b0, b1, b2, b3, b4, b5, b6, b7);
            && GetBit(word, 0) == b0 && GetBit(word, 1) == b1
            && GetBit(word, 2) == b2 && GetBit(word, 3) == b3
            && GetBit(word, 4) == b4 && GetBit(word, 5) == b5
            && GetBit(word, 6) == b6 && GetBit(word, 7) == b7
  {
  }

  /** The whole store as one bit sequence, word after word. */
  function Flatten(store: seq<bv8>): (bits: seq<bool>)
    ensures |bits| == W * |store|
  {
    if |store| == 0 then [] else WordBits(store[0]) + Flatten(store[1..])
  }

  /** Bit `j` of the flat sequence is offset `j % W` of word `j / W`:
      the addressing rule agrees with the reference semantics. */
  lemma {:induction false} FlattenIndex(store: seq<bv8>, j: nat)
    requires j < W * |store|
    ensures |Flatten(store)| == W * |store|
    ensures Flatten(store)[j] == GetBit(store[DataIndex(j, W)], DataRemainder(j, W))
  {
    if j >= W {
      FlattenIndex(store[1..], j - W);
      assert (j - W) / W == j / W - 1 && (j - W) % W == j % W;
    }
  }

  /** Writing one bit of one word changes exactly that bit of the flat
      sequence. */
  lemma FlattenUpdate(store: seq<bv8>, j: nat, value: bool)
    requires j < W * |store|
    ensures |Flatten(store)| == W * |store|
    ensures var d, r := DataIndex(j, W), DataRemainder(j, W);
            Flatten(store[d := SetBit(store[d], r, value)]) == Flatten(store)[j := value]
  {
    var d, r := DataIndex(j, W), DataRemainder(j, W);
    var store' := store[d := SetBit(store[d], r, value)];
    forall k | 0 <= k < W * |store|
      ensures Flatten(store')[k] == Flatten(store)[j := value][k]
    {
      FlattenIndex(store, k);
      FlattenIndex(store', k);
      var dk, rk := DataIndex(k, W), DataRemainder(k, W);
      if dk != d {
        assert k != j && store'[dk] == store[dk];
      } else if rk != r {
        assert k != j && GetBit(store'[d], rk) == GetBit(store[d], rk);
      } else {
        assert k == BitIndex(d, r, W) == j;
      }
    }
    assert |Flatten(store')| == |Flatten(store)[j := value]|;
  }
}
