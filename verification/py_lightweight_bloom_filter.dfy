/**
 * The Python blocked Bloom filter, class `LightweightBloomFilter` of
 * bf_light/lightweight_bloom_filter.py: an `array('Q')` of 64-bit words,
 * `ceil(size / 64)` of them. Each item selects the word `h % num_words` of its
 * xxHash64 digest h and sets or tests a mask of `num_hashes` bits, at
 * positions drawn from the top 6 bits of a Knuth MMIX linear congruential
 * generator seeded with h.
 *
 * The `xxhash` library is not part of this model; each filter holds
 * `xxhash.xxh64(item, seed=seed).intdigest()` as a function fixed when it is
 * created.
 */
module PyLightweightBloomFilter {
  import opened NatBits
  import opened HashUtils
  import opened Wrappers

  /** The MMIX multiplier and increment. */
  const LcgA: nat := 6364136223846793005
  const LcgC: nat := 1442695040888963407

  /**
   * One generator step, `(current_h * a + c) & 0xFFFFFFFFFFFFFFFF`: masking
   * keeps the low 64 bits, so the state is the product-sum modulo 2^64
   * (`LcgNextIsMasked`) and always a `uint64`.
   */
  function LcgNext(h: nat): (r: U64)
  {
    (h * LcgA + LcgC) % M64
  }

  /** The step as written, with the `& 0xFFFFFFFFFFFFFFFF` mask. */
  lemma LcgNextIsMasked(h: nat)
    ensures LcgNext(h) == BitAnd(h * LcgA + LcgC, 0xFFFF_FFFF_FFFF_FFFF)
  {
    Pow2Of64();
    LowBitsMask(h * LcgA + LcgC, 64);
  }

  /** `current_h >> 58`: the top 6 bits of the state, a bit position in 0 .. 63 (`BitPosIsShift`). */
  function BitPos(h: U64): (p: nat)
    ensures p < 64
  {
    h / 0x400_0000_0000_0000
  }

  /** The position as written, a right shift by 58. */
  lemma BitPosIsShift(h: U64)
    ensures BitPos(h) == Shr(h, 58)
  {
    Pow2Of32();
    Pow2Add(32, 26);
    Pow2Add(16, 10);
    Pow2Add(8, 2);
    Pow2Add(8, 8);
    assert Pow2(58) == 0x400_0000_0000_0000;
    ShrDiv(h, 58);
  }

  /** The k positions drawn in turn from the generator started at h. */
  function Positions(h: U64, k: nat): (ps: seq<nat>)
    ensures |ps| == k
    ensures forall i :: 0 <= i < k ==> ps[i] < 64
    decreases k
  {
    if k == 0 then [] else [BitPos(LcgNext(h))] + Positions(LcgNext(h), k - 1)
  }

  /** `mask |= 1 << bit_pos` for each position of ps, in order. */
  function MaskWith(mask: nat, ps: seq<nat>): nat
    decreases |ps|
  {
    if ps == [] then mask else MaskWith(BitOr(mask, Pow2(ps[0])), ps[1..])
  }

  /** After or-ing in the positions ps, bit b is set exactly when it was before or b is one of ps. */
  lemma {:induction false} MaskWithBit(mask: nat, ps: seq<nat>, b: nat)
    ensures Bit(MaskWith(mask, ps), b) == (Bit(mask, b) || b in ps)
    decreases |ps|
  {
    if ps != [] {
      MaskWithBit(BitOr(mask, Pow2(ps[0])), ps[1..], b);
      BitOrBit(mask, Pow2(ps[0]), b);
      BitOfPow2(ps[0], b);
      assert ps == [ps[0]] + ps[1..];
    }
  }

  /** Or-ing a position below 64 into a 64-bit mask keeps it a 64-bit value. */
  lemma MaskBitBelow(mask: U64, p: nat)
    requires p < 64
    ensures BitOr(mask, Pow2(p)) < M64
  {
    Pow2Of64();
    Pow2Monotone(p + 1, 64);
    BitOrBelow(mask, Pow2(p), 64);
  }

  /** Or-ing positions below 64 into a 64-bit mask keeps it a 64-bit value. */
  lemma {:induction false} MaskWithBelow(mask: nat, ps: seq<nat>)
    requires mask < M64
    requires forall i :: 0 <= i < |ps| ==> ps[i] < 64
    ensures MaskWith(mask, ps) < M64
    decreases |ps|
  {
    if ps != [] {
      MaskBitBelow(mask, ps[0]);
      MaskWithBelow(BitOr(mask, Pow2(ps[0])), ps[1..]);
    }
  }

  /** The mask `add` and `__contains__` build for digest h: one bit per drawn position. */
  function ItemMask(h: U64, k: nat): (mask: U64)
  {
    MaskWithBelow(0, Positions(h, k));
    MaskWith(0, Positions(h, k))
  }

  /** The bits of the mask are exactly the drawn positions. */
  lemma ItemMaskBits(h: U64, k: nat, b: nat)
    ensures Bit(ItemMask(h, k), b) == (b in Positions(h, k))
  {
    MaskWithBit(0, Positions(h, k), b);
    NoBitOfZero(b);
  }

  /** The number of bits set among bits 0 .. 63. */
  function PopCount(m: nat): nat
  {
    |set b | 0 <= b < 64 && Bit(m, b)|
  }

  /** The distinct elements of a sequence. */
  function Elements(ps: seq<nat>): set<nat>
  {
    set p | p in ps
  }

  /** A sequence has at least as many elements as it has distinct ones. */
  lemma {:induction false} DistinctAtMost(ps: seq<nat>)
    ensures |Elements(ps)| <= |ps|
    decreases |ps|
  {
    if ps != [] {
      DistinctAtMost(ps[1..]);
      var rest := Elements(ps[1..]);
      assert Elements(ps) == rest + {ps[0]};
      if ps[0] !in rest {
        assert |rest + {ps[0]}| == |rest| + 1;
      } else {
        assert rest + {ps[0]} == rest;
      }
    }
  }

  /** The mask has at least one and at most num_hashes bits set: positions may coincide. */
  lemma ItemMaskPopCount(h: U64, k: nat)
    requires k >= 1
    ensures 1 <= PopCount(ItemMask(h, k)) <= k
  {
    var ps := Positions(h, k);
    var bits := set b | 0 <= b < 64 && Bit(ItemMask(h, k), b);
    forall b | 0 <= b < 64
      ensures Bit(ItemMask(h, k), b) == (b in ps)
    {
      ItemMaskBits(h, k, b);
    }
    assert bits == Elements(ps);
    DistinctAtMost(ps);
    assert ps[0] in bits;
  }

  /** `_bit_array[word_index] |= mask`, on 64-bit values. */
  function WordOr(w: U64, mask: U64): (r: U64)
    ensures forall i :: Bit(r, i) == (Bit(w, i) || Bit(mask, i))
  {
    Pow2Of64();
    BitOrBelow(w, mask, 64);
    BitOrBits(w, mask);
    BitOr(w, mask)
  }

  /** The words after `add` of an item with digest h: only word `h % num_words` changes. */
  function Insert(words: seq<U64>, k: nat, h: U64): (r: seq<U64>)
    requires |words| > 0
    ensures |r| == |words|
  {
    words[h % |words| := WordOr(words[h % |words|], ItemMask(h, k))]
  }

  /** What `item in filter` answers for an item with digest h: `(word & mask) == mask`. */
  predicate Member(words: seq<U64>, k: nat, h: U64)
    requires |words| > 0
  {
    BitAnd(words[h % |words|], ItemMask(h, k)) == ItemMask(h, k)
  }

  /** An item is a member exactly when every drawn position is set in its word. */
  lemma MemberMeaning(words: seq<U64>, k: nat, h: U64)
    requires |words| > 0
    ensures Member(words, k, h) == (forall p :: p in Positions(h, k) ==> Bit(words[h % |words|], p))
  {
    var w := words[h % |words|];
    var ps := Positions(h, k);
    Pow2Of64();
    BitAndCovers(w, ItemMask(h, k), 64);
    forall b | 0 <= b
      ensures Bit(ItemMask(h, k), b) == (b in ps)
    {
      ItemMaskBits(h, k, b);
    }
  }

  /**
   * `add` leaves every other word as it was and only sets bits in the
   * selected one: exactly the drawn positions are added to it.
   */
  lemma InsertSetsOnly(words: seq<U64>, k: nat, h: U64, x: nat, b: nat)
    requires |words| > 0 && x < |words|
    ensures x != h % |words| ==> Insert(words, k, h)[x] == words[x]
    ensures x == h % |words| ==> Bit(Insert(words, k, h)[x], b) == (Bit(words[x], b) || b in Positions(h, k))
  {
    BitOrBit(words[x], ItemMask(h, k), b);
    ItemMaskBits(h, k, b);
  }

  /** After `add`, the item is a member. */
  lemma InsertThenMember(words: seq<U64>, k: nat, h: U64)
    requires |words| > 0
    ensures Member(Insert(words, k, h), k, h)
  {
    var r := Insert(words, k, h);
    MemberMeaning(r, k, h);
    forall p | p in Positions(h, k)
      ensures Bit(r[h % |words|], p)
    {
      InsertSetsOnly(words, k, h, h % |words|, p);
    }
  }

  /** `add` never removes a member. */
  lemma InsertKeepsMember(words: seq<U64>, k: nat, h: U64, other: U64)
    requires |words| > 0 && Member(words, k, other)
    ensures Member(Insert(words, k, h), k, other)
  {
    var r := Insert(words, k, h);
    MemberMeaning(words, k, other);
    MemberMeaning(r, k, other);
    forall p | p in Positions(other, k)
      ensures Bit(r[other % |words|], p)
    {
      InsertSetsOnly(words, k, h, other % |words|, p);
    }
  }

  /** The words after `add` of items with these digests, in order. */
  function InsertAll(words: seq<U64>, k: nat, digests: seq<U64>): (r: seq<U64>)
    requires |words| > 0
    ensures |r| == |words|
    decreases |digests|
  {
    if digests == [] then words
    else Insert(InsertAll(words, k, digests[..|digests| - 1]), k, digests[|digests| - 1])
  }

  /** No false negatives: every added item stays a member through all later adds. */
  lemma {:induction false} NoFalseNegatives(words: seq<U64>, k: nat, digests: seq<U64>, j: nat)
    requires |words| > 0 && j < |digests|
    ensures Member(InsertAll(words, k, digests), k, digests[j])
    decreases |digests|
  {
    var init := digests[..|digests| - 1];
    var last := digests[|digests| - 1];
    var before := InsertAll(words, k, init);
    if j == |digests| - 1 {
      InsertThenMember(before, k, last);
    } else {
      NoFalseNegatives(words, k, init, j);
      assert init[j] == digests[j];
      InsertKeepsMember(before, k, last, digests[j]);
    }
  }

  /** In an all-zero array no item is a member, since its mask has a bit set. */
  lemma FreshArrayRejects(words: seq<U64>, k: nat, h: U64)
    requires |words| > 0 && k >= 1
    requires forall x :: 0 <= x < |words| ==> words[x] == 0
    ensures !Member(words, k, h)
  {
    MemberMeaning(words, k, h);
    NoBitOfZero(Positions(h, k)[0]);
  }

  /** One turn of the mask loop: draw the next position and or it in. */
  lemma MaskStep(mask: nat, h: U64, m: nat)
    requires m >= 1
    ensures MaskWith(mask, Positions(h, m))
         == MaskWith(BitOr(mask, Pow2(BitPos(LcgNext(h)))), Positions(LcgNext(h), m - 1))
  {
    var ps := Positions(h, m);
    assert ps[0] == BitPos(LcgNext(h)) && ps[1..] == Positions(LcgNext(h), m - 1);
  }

  /** The mask-building loop shared by `add` and `__contains__`. */
  method BuildMask(h: U64, k: nat) returns (mask: U64)
    ensures mask == ItemMask(h, k)
  {
    mask := 0;
    var currentH := h;
    var i := 0;
    while i < k
      invariant i <= k
      invariant MaskWith(mask, Positions(currentH, k - i)) == ItemMask(h, k)
    {
      MaskStep(mask, currentH, k - i);
      currentH := LcgNext(currentH);
      var bitPos := BitPos(currentH);
      MaskBitBelow(mask, bitPos);
      mask := BitOr(mask, Pow2(bitPos));
      i := i + 1;
    }
  }

  class LightweightBloomFilter {
    var numHashes: int
    var seed: int
    var numWords: int
    var size: int
    var bitArray: array<U64>

    /** `xxhash.xxh64(item, seed=seed).intdigest()`. */
    const xxh64: (string, int) -> U64

    /** The state `__init__` establishes and the operations keep. */
    ghost predicate Valid()
      reads this
    {
      numHashes > 0 && numWords > 0 && bitArray.Length == numWords && size == 64 * numWords
    }

    /**
     * The body of `__init__` once both checks have passed: `ceil(size / 64)`
     * zero words, at least one, and `size` rounded up to a multiple of 64
     * that is at least the requested size.
     */
    constructor (size: int, numHashes: int, seed: int, xxh64: (string, int) -> U64)
      requires size > 0 && numHashes > 0
      ensures Valid() && fresh(bitArray)
      ensures forall x :: 0 <= x < bitArray.Length ==> bitArray[x] == 0
      ensures this.numHashes == numHashes && this.seed == seed && this.xxh64 == xxh64
      ensures 64 * numWords >= size && 64 * (numWords - 1) < size
    {
      this.numHashes := numHashes;
      this.seed := seed;
      this.xxh64 := xxh64;
      var words := (size + 63) / 64;
      numWords := words;
      this.size := words * 64;
      bitArray := new U64[words](_ => 0);
    }

    /**
     * `LightweightBloomFilter(size, num_hashes, seed)`: a `ValueError` when
     * size or num_hashes is not positive, size being checked first;
     * otherwise a new empty filter.
     */
    static method New(size: int, numHashes: int, seed: int, xxh64: (string, int) -> U64)
      returns (r: Result<LightweightBloomFilter>)
      ensures size <= 0 ==> r == Failure("size must be positive")
      ensures size > 0 && numHashes <= 0 ==> r == Failure("num_hashes must be positive")
      ensures size > 0 && numHashes > 0 ==> r.Success? && fresh(r.value) && fresh(r.value.bitArray)
      ensures r.Success? ==> r.value.Valid() && r.value.numHashes == numHashes && r.value.seed == seed
      ensures r.Success? ==> r.value.xxh64 == xxh64
      ensures r.Success? ==> 64 * r.value.numWords >= size && 64 * (r.value.numWords - 1) < size
      ensures r.Success? ==> forall x :: 0 <= x < r.value.bitArray.Length ==> r.value.bitArray[x] == 0
    {
      if size <= 0 {
        return Failure("size must be positive");
      }
      if numHashes <= 0 {
        return Failure("num_hashes must be positive");
      }
      var f := new LightweightBloomFilter(size, numHashes, seed, xxh64);
      return Success(f);
    }

    /** The digests of the items, in order. */
    function Digests(items: seq<string>): (ds: seq<U64>)
      reads this
      ensures |ds| == |items|
      ensures forall j :: 0 <= j < |items| ==> ds[j] == xxh64(items[j], seed)
      decreases |items|
    {
      if items == [] then [] else Digests(items[..|items| - 1]) + [xxh64(items[|items| - 1], seed)]
    }

    /** `add(item)`: ORs the item's mask into its word with a single write. */
    method Add(item: string)
      requires Valid()
      modifies bitArray
      ensures Valid()
      ensures bitArray[..] == Insert(old(bitArray[..]), numHashes, xxh64(item, seed))
    {
      var h := xxh64(item, seed);
      var wordIndex := h % numWords;
      var mask := BuildMask(h, numHashes);
      bitArray[wordIndex] := WordOr(bitArray[wordIndex], mask);
    }

    /** `update(items)`: `add` of each item, in order. */
    method Update(items: seq<string>)
      requires Valid()
      modifies bitArray
      ensures Valid()
      ensures bitArray[..] == InsertAll(old(bitArray[..]), numHashes, Digests(items))
    {
      var j := 0;
      while j < |items|
        invariant j <= |items|
        invariant bitArray[..] == InsertAll(old(bitArray[..]), numHashes, Digests(items[..j]))
      {
        Add(items[j]);
        assert items[..j + 1][..j] == items[..j];
        j := j + 1;
      }
      assert items[..j] == items;
    }

    /** `item in filter`: `(word & mask) == mask` for the item's word and mask. It changes nothing. */
    method Contains(item: string) returns (found: bool)
      requires Valid()
      ensures found == Member(bitArray[..], numHashes, xxh64(item, seed))
    {
      var h := xxh64(item, seed);
      var wordIndex := h % numWords;
      var mask := BuildMask(h, numHashes);
      found := BitAnd(bitArray[wordIndex], mask) == mask;
    }
  }
}
