/**
 * The C blocked ("lightweight") Bloom filter
 * (c_impl/lightweight_bloom_filter.c): a power-of-two number of 64-bit
 * words; each key selects one word from the top bits of its `XXH64` digest
 * and sets or tests `num_hashes` bits inside it, at positions drawn from a
 * SplitMix64 sequence seeded with the digest.
 *
 * `size_t` values are unsigned integers below 2^64 and the bitwise operators
 * are those of NatBits. The xxHash library's `XXH64` is not part of this
 * model; it is a parameter, any deterministic function onto `uint64_t`.
 */
module CLightweightBloomFilter {
  import opened NatBits
  import opened HashUtils
  import opened Wrappers
  import opened CStrings

  /** `MIN_SIZE`: the smallest accepted number of bits. */
  const MinSize: nat := 1

  /**
   * The largest request, 2^63 bits, whose power-of-two capacity in bits still
   * fits in a 64-bit `size_t` (see the findings in README.md).
   */
  const MaxSize: nat := 0x8000_0000_0000_0000

  // ---------------------------------------------------------------------------
  // next_power_of_two

  /** Copying the highest set bit into every lower position: the shifts by 1, 2, 4, 8, 16 and 32. */
  function Smear(v: nat): nat
  {
    var v := BitOr(v, Shr(v, 1));
    var v := BitOr(v, Shr(v, 2));
    var v := BitOr(v, Shr(v, 4));
    var v := BitOr(v, Shr(v, 8));
    var v := BitOr(v, Shr(v, 16));
    BitOr(v, Shr(v, 32))
  }

  /** `next_power_of_two` on a 64-bit `size_t`, whose final `+ 1` wraps. */
  function NextPowerOfTwo(value: nat): nat
    requires value < M64
  {
    if value <= 1 then 1 else Add64(Smear(value - 1), 1)
  }

  /** The exponent of the least power of two that is at least v. */
  function CeilLog2(v: nat): nat
  {
    if v <= 1 then 0 else BitLength(v - 1)
  }

  /** The bits n - c .. n - 1 of x are set. */
  predicate TopOnes(x: nat, n: nat, c: nat)
  {
    forall i :: 0 <= i < n && n <= i + c ==> Bit(x, i)
  }

  /** One smearing step by t doubles a run of at least t set top bits. */
  lemma SmearStep(x: nat, n: nat, c: nat, t: nat)
    requires x < Pow2(n) && TopOnes(x, n, c) && t <= c
    ensures BitOr(x, Shr(x, t)) < Pow2(n)
    ensures TopOnes(BitOr(x, Shr(x, t)), n, c + t)
  {
    ShrAtMost(x, t);
    BitOrBelow(x, Shr(x, t), n);
    forall i | 0 <= i < n && n <= i + c + t
      ensures Bit(BitOr(x, Shr(x, t)), i)
    {
      BitOrBit(x, Shr(x, t), i);
      if i + c < n {
        ShrBit(x, t, i);
        assert Bit(x, t + i);
      }
    }
  }

  /** Smearing a value with n binary digits, n at most 64, sets all n of them. */
  lemma SmearAllOnes(w: nat, n: nat)
    requires 1 <= n <= 64 && Pow2(n - 1) <= w < Pow2(n)
    ensures Smear(w) == Pow2(n) - 1
  {
    TopBit(w, n);
    assert TopOnes(w, n, 1);
    var v1 := BitOr(w, Shr(w, 1));
    SmearStep(w, n, 1, 1);
    var v2 := BitOr(v1, Shr(v1, 2));
    SmearStep(v1, n, 2, 2);
    var v4 := BitOr(v2, Shr(v2, 4));
    SmearStep(v2, n, 4, 4);
    var v8 := BitOr(v4, Shr(v4, 8));
    SmearStep(v4, n, 8, 8);
    var v16 := BitOr(v8, Shr(v8, 16));
    SmearStep(v8, n, 16, 16);
    var v32 := BitOr(v16, Shr(v16, 32));
    SmearStep(v16, n, 32, 32);
    assert Smear(w) == v32;
    AllOnes(v32, n);
  }

  /** Comparing powers of two compares their exponents. */
  lemma Pow2Order(a: nat, b: nat)
    requires Pow2(a) < Pow2(b)
    ensures a < b
  {
    if a >= b {
      Pow2Monotone(b, a);
    }
  }

  /** 2^63, the largest accepted request. */
  lemma MaxSizeIsPow2()
    ensures MaxSize == Pow2(63) && Pow2(64) == M64
  {
    Pow2Of64();
  }

  /** Above 1, `next_power_of_two` yields 2^n for the n binary digits of value - 1. */
  lemma NextPowerOfTwoExact(value: nat)
    requires 2 <= value <= MaxSize
    ensures NextPowerOfTwo(value) == Pow2(BitLength(value - 1))
    ensures BitLength(value - 1) <= 63
  {
    MaxSizeIsPow2();
    var w := value - 1;
    var n := BitLength(w);
    assert Pow2(n - 1) < Pow2(63);
    Pow2Order(n - 1, 63);
    SmearAllOnes(w, n);
    Pow2Monotone(n, 63);
    SmearedPlusOne(value, Pow2(n));
  }

  /** When value - 1 smears to p - 1, `next_power_of_two` returns p, or 0 when p is 2^64. */
  lemma SmearedPlusOne(value: nat, p: nat)
    requires 2 <= value < M64 && 1 <= p <= M64 && Smear(value - 1) == p - 1
    ensures p < M64 ==> NextPowerOfTwo(value) == p
    ensures p == M64 ==> NextPowerOfTwo(value) == 0
  {
    assert NextPowerOfTwo(value) == Add64(p - 1, 1);
    if p < M64 {
      DivModUnique(p, M64, 0, p);
    } else {
      assert Add64(M64 - 1, 1) == 0;
    }
  }

  /**
   * For every value up to 2^63, `next_power_of_two` returns the least power
   * of two that is at least the value; for 0 and 1 it returns 1.
   */
  lemma NextPowerOfTwoIsLeast(value: nat)
    requires value <= MaxSize
    ensures NextPowerOfTwo(value) == Pow2(CeilLog2(value))
    ensures value <= NextPowerOfTwo(value)
    ensures forall e :: value <= Pow2(e) ==> NextPowerOfTwo(value) <= Pow2(e)
  {
    CeilLog2IsLeast(value);
    if value >= 2 {
      NextPowerOfTwoExact(value);
    } else {
      assert Pow2(0) == 1;
    }
  }

  /** 2^CeilLog2(v) reaches v, and no power of two that reaches v is smaller. */
  lemma CeilLog2IsLeast(v: nat)
    ensures v <= Pow2(CeilLog2(v))
    ensures forall e :: v <= Pow2(e) ==> Pow2(CeilLog2(v)) <= Pow2(e)
  {
    if v >= 2 {
      var n := BitLength(v - 1);
      forall e | v <= Pow2(e)
        ensures Pow2(n) <= Pow2(e)
      {
        Pow2Order(n - 1, e);
        Pow2Monotone(n, e);
      }
    } else {
      forall e | v <= Pow2(e)
        ensures Pow2(0) <= Pow2(e)
      {
        Pow2Monotone(0, e);
      }
    }
  }

  /** Above 2^63 the final `+ 1` wraps and `next_power_of_two` returns 0. */
  lemma NextPowerOfTwoWraps(value: nat)
    requires MaxSize < value < M64
    ensures NextPowerOfTwo(value) == 0
  {
    MaxSizeIsPow2();
    var w := value - 1;
    var n := BitLength(w);
    Pow2Order(63, n);
    Pow2Order(n - 1, 64);
    assert n == 64;
    SmearAllOnes(w, n);
    SmearedPlusOne(value, M64);
  }

  // ---------------------------------------------------------------------------
  // block_index_from_hash

  /** `block_index_from_hash`: the top block_bits bits of the digest, masked; 0 when block_bits is 0. */
  function BlockIndexFromHash(digest: nat, blockBits: nat, mask: nat): (r: nat)
    requires blockBits <= 64
    ensures r <= mask
  {
    if blockBits == 0 then 0
    else
      BitAndAtMost(Shr(digest, 64 - blockBits), mask);
      BitAnd(Shr(digest, 64 - blockBits), mask)
  }

  /**
   * With the mask `2^block_bits - 1` the index is exactly the top block_bits
   * bits of the 64-bit digest, and so below the word count `2^block_bits`.
   */
  lemma BlockIndexIsTopBits(digest: nat, blockBits: nat)
    requires digest < M64 && blockBits <= 64
    ensures BlockIndexFromHash(digest, blockBits, Pow2(blockBits) - 1) < Pow2(blockBits)
    ensures blockBits >= 1 ==> BlockIndexFromHash(digest, blockBits, Pow2(blockBits) - 1) == Shr(digest, 64 - blockBits)
  {
    if blockBits >= 1 {
      Pow2Of64();
      ShrBelow(digest, 64, 64 - blockBits);
      BitAndLowMask(Shr(digest, 64 - blockBits), blockBits);
    }
  }

  /** The word a digest selects in a table of 2^block_bits words. */
  function BlockOf(digest: U64, blockBits: nat): (idx: nat)
    requires blockBits < 64
    ensures idx < Pow2(blockBits)
  {
    BlockIndexIsTopBits(digest, blockBits);
    BlockIndexFromHash(digest, blockBits, Pow2(blockBits) - 1)
  }

  // ---------------------------------------------------------------------------
  // splitmix64_next

  const Gamma: nat := 0x9E3779B97F4A7C15
  const Mul1: nat := 0xBF58476D1CE4E5B9
  const Mul2: nat := 0x94D049BB133111EB

  /** The output of `splitmix64_next` for the advanced state x: two xor-shift-multiply rounds and an xor-shift. */
  function Mix64(x: nat): (r: nat)
    ensures r < M64
  {
    var y := Mul64(BitXor(x, Shr(x, 30)), Mul1);
    var z := Mul64(BitXor(y, Shr(y, 27)), Mul2);
    Pow2Of64();
    ShrAtMost(z, 31);
    BitXorBelow(z, Shr(z, 31), 64);
    BitXor(z, Shr(z, 31))
  }

  /**
   * `splitmix64_next(&state)`: the state advances by the golden-ratio
   * constant modulo 2^64, and the result is the mix of the advanced state.
   */
  method SplitMix64Next(state: U64) returns (next: U64, x: U64)
    ensures next == (state + Gamma) % M64
    ensures x == Mix64(next)
  {
    next := (state + Gamma) % M64;
    var y: nat := next;
    y := Mul64(BitXor(y, Shr(y, 30)), Mul1);
    y := Mul64(BitXor(y, Shr(y, 27)), Mul2);
    y := BitXor(y, Shr(y, 31));
    assert y == Mix64(next);
    x := y;
  }

  /** The bit position `x & 63` taken from the output for the advanced state x. */
  function DrawPosition(x: nat): (p: nat)
    ensures p < 64
  {
    BitAndAtMost(Mix64(x), 63);
    BitAnd(Mix64(x), 63)
  }

  /**
   * The k bit positions `splitmix64_next(&state) & 63` drawn in turn from the
   * given state; each lies in 0 .. 63.
   */
  function BitPositions(state: nat, k: nat): (ps: seq<nat>)
    ensures |ps| == k
    ensures forall i :: 0 <= i < k ==> ps[i] < 64
    decreases k
  {
    if k == 0 then [] else [DrawPosition((state + Gamma) % M64)] + BitPositions((state + Gamma) % M64, k - 1)
  }

  // ---------------------------------------------------------------------------
  // Words

  /** The positions drawn from a state are covered when the first one is and the rest are. */
  lemma CoversStep(w: nat, state: nat, m: nat)
    requires m >= 1
    ensures Covers(w, BitPositions(state, m))
        == (Bit(w, DrawPosition((state + Gamma) % M64)) && Covers(w, BitPositions((state + Gamma) % M64, m - 1)))
  {
    var next := (state + Gamma) % M64;
    var p := DrawPosition(next);
    var rest := BitPositions(next, m - 1);
    var ps := BitPositions(state, m);
    assert ps == [p] + rest;
    if Covers(w, ps) {
      assert Bit(w, ps[0]);
      forall i | 0 <= i < |rest|
        ensures Bit(w, rest[i])
      {
        assert rest[i] == ps[i + 1];
      }
    }
    if Bit(w, p) && Covers(w, rest) {
      forall i | 0 <= i < |ps|
        ensures Bit(w, ps[i])
      {
        if i > 0 {
          assert ps[i] == rest[i - 1];
        }
      }
    }
  }

  /** `word |= UINT64_C(1) << bit_pos`. */
  function SetPosition(w: U64, p: nat): (r: U64)
    requires p < 64
    ensures forall i :: Bit(r, i) == (Bit(w, i) || i == p)
  {
    Pow2Of64();
    Pow2Monotone(p + 1, 64);
    BitOrBelow(w, Pow2(p), 64);
    BitOrBits(w, Pow2(p));
    Pow2Bits(p);
    BitOr(w, Pow2(p))
  }

  /** The word after setting the bits at ps, in order. */
  function WithPositions(w: U64, ps: seq<nat>): U64
    requires forall i :: 0 <= i < |ps| ==> ps[i] < 64
    decreases |ps|
  {
    if ps == [] then w else WithPositions(SetPosition(w, ps[0]), ps[1..])
  }

  /** Every bit at ps is set in w. */
  predicate Covers(w: nat, ps: seq<nat>)
  {
    forall i :: 0 <= i < |ps| ==> Bit(w, ps[i])
  }

  /** After setting the bits at ps, bit b is set exactly when it was before or b is one of ps. */
  lemma {:induction false} WithPositionsBit(w: U64, ps: seq<nat>, b: nat)
    requires forall i :: 0 <= i < |ps| ==> ps[i] < 64
    ensures Bit(WithPositions(w, ps), b) == (Bit(w, b) || b in ps)
    decreases |ps|
  {
    if ps != [] {
      WithPositionsBit(SetPosition(w, ps[0]), ps[1..], b);
      BitOrBit(w, Pow2(ps[0]), b);
      BitOfPow2(ps[0], b);
      assert ps == [ps[0]] + ps[1..];
    }
  }

  /** The words after `lbf_add` of a key with this digest: only the selected word changes. */
  function Insert(words: seq<U64>, blockBits: nat, numHashes: nat, digest: U64): (r: seq<U64>)
    requires blockBits < 64 && |words| == Pow2(blockBits)
    ensures |r| == |words|
  {
    var idx := BlockOf(digest, blockBits);
    words[idx := WithPositions(words[idx], BitPositions(digest, numHashes))]
  }

  /** What `lbf_contains` answers for a key with this digest. */
  predicate Member(words: seq<U64>, blockBits: nat, numHashes: nat, digest: U64)
    requires blockBits < 64 && |words| == Pow2(blockBits)
  {
    Covers(words[BlockOf(digest, blockBits)], BitPositions(digest, numHashes))
  }

  /**
   * An insertion leaves every other word as it was and only sets bits in the
   * selected one: exactly the drawn positions are added to it.
   */
  lemma InsertSetsOnly(words: seq<U64>, blockBits: nat, numHashes: nat, digest: U64, x: nat, b: nat)
    requires blockBits < 64 && |words| == Pow2(blockBits) && x < |words|
    ensures x != BlockOf(digest, blockBits) ==> Insert(words, blockBits, numHashes, digest)[x] == words[x]
    ensures x == BlockOf(digest, blockBits) ==>
      Bit(Insert(words, blockBits, numHashes, digest)[x], b) == (Bit(words[x], b) || b in BitPositions(digest, numHashes))
  {
    WithPositionsBit(words[x], BitPositions(digest, numHashes), b);
  }

  /** After inserting a digest, it is a member. */
  lemma InsertThenMember(words: seq<U64>, blockBits: nat, numHashes: nat, digest: U64)
    requires blockBits < 64 && |words| == Pow2(blockBits)
    ensures Member(Insert(words, blockBits, numHashes, digest), blockBits, numHashes, digest)
  {
    var idx := BlockOf(digest, blockBits);
    var ps := BitPositions(digest, numHashes);
    forall i | 0 <= i < |ps|
      ensures Bit(WithPositions(words[idx], ps), ps[i])
    {
      WithPositionsBit(words[idx], ps, ps[i]);
    }
  }

  /** Inserting never removes a member. */
  lemma InsertKeepsMember(words: seq<U64>, blockBits: nat, numHashes: nat, digest: U64, other: U64)
    requires blockBits < 64 && |words| == Pow2(blockBits)
    requires Member(words, blockBits, numHashes, other)
    ensures Member(Insert(words, blockBits, numHashes, digest), blockBits, numHashes, other)
  {
    var idx := BlockOf(digest, blockBits);
    var x := BlockOf(other, blockBits);
    var qs := BitPositions(other, numHashes);
    if x == idx {
      forall i | 0 <= i < |qs|
        ensures Bit(WithPositions(words[idx], BitPositions(digest, numHashes)), qs[i])
      {
        WithPositionsBit(words[idx], BitPositions(digest, numHashes), qs[i]);
      }
    }
  }

  /** The words after `lbf_add` of keys with these digests, in order. */
  function InsertAll(words: seq<U64>, blockBits: nat, numHashes: nat, digests: seq<U64>): (r: seq<U64>)
    requires blockBits < 64 && |words| == Pow2(blockBits)
    ensures |r| == |words|
    decreases |digests|
  {
    if digests == [] then words
    else Insert(InsertAll(words, blockBits, numHashes, digests[..|digests| - 1]), blockBits, numHashes, digests[|digests| - 1])
  }

  /** No false negatives: every inserted digest stays a member through all later insertions. */
  lemma {:induction false} NoFalseNegatives(words: seq<U64>, blockBits: nat, numHashes: nat, digests: seq<U64>, j: nat)
    requires blockBits < 64 && |words| == Pow2(blockBits) && j < |digests|
    ensures Member(InsertAll(words, blockBits, numHashes, digests), blockBits, numHashes, digests[j])
    decreases |digests|
  {
    var init := digests[..|digests| - 1];
    var last := digests[|digests| - 1];
    var before := InsertAll(words, blockBits, numHashes, init);
    if j == |digests| - 1 {
      InsertThenMember(before, blockBits, numHashes, last);
    } else {
      NoFalseNegatives(words, blockBits, numHashes, init, j);
      assert init[j] == digests[j];
      InsertKeepsMember(before, blockBits, numHashes, last, digests[j]);
    }
  }

  /** In an all-zero table nothing is a member, since at least one bit is tested. */
  lemma FreshTableRejects(words: seq<U64>, blockBits: nat, numHashes: nat, digest: U64)
    requires blockBits < 64 && |words| == Pow2(blockBits) && numHashes >= 1
    requires forall x :: 0 <= x < |words| ==> words[x] == 0
    ensures !Member(words, blockBits, numHashes, digest)
  {
    NoBitOfZero(BitPositions(digest, numHashes)[0]);
  }

  // ---------------------------------------------------------------------------
  // The filter

  /** The `LightweightBloomFilter` struct. */
  class LightweightBloomFilter {
    var sizeBits: nat
    var numHashes: nat
    var seed: nat
    var wordCount: nat
    var wordMask: nat
    var blockBits: nat
    var bitArray: array?<U64>

    /**
     * The xxHash library's `XXH64`, which this filter hashes its keys with.
     * It is not a field of the C struct; the model fixes it per filter so
     * that every add and test of one filter uses the same hash.
     */
    const xxh64: (seq<Byte>, nat) -> U64

    /** A zero-initialised struct, ready to be passed to `Init`. */
    constructor (xxh64: (seq<Byte>, nat) -> U64)
      ensures Zeroed() && this.xxh64 == xxh64
    {
      this.xxh64 := xxh64;
      sizeBits, numHashes, seed := 0, 0, 0;
      wordCount, wordMask, blockBits, bitArray := 0, 0, 0, null;
    }

    /** Every field 0 or NULL, as after `memset(filter, 0, sizeof(*filter))`. */
    ghost predicate Zeroed()
      reads this
    {
      && sizeBits == 0 && numHashes == 0 && seed == 0
      && wordCount == 0 && wordMask == 0 && blockBits == 0 && bitArray == null
    }

    /** A filter set up by a successful `Init` and not yet freed. */
    ghost predicate Ready()
      reads this
    {
      && bitArray != null
      && 1 <= numHashes < M32
      && seed < M64
      && blockBits < 64
      && wordCount == Pow2(blockBits) == bitArray.Length
      && wordMask == wordCount - 1
      && sizeBits == 64 * wordCount
    }
  }

  /** The number of words requested, `(size_bits + 63) / 64`, without wrap-around. */
  function RequestedWords(sizeBits: nat): (n: nat)
    ensures 64 * n >= sizeBits && 64 * n < sizeBits + 64
  {
    (sizeBits + 63) / 64
  }

  /** The word count `lbf_init` computes as written, with `size_t` wrap-around and the clamp to 1. */
  function WordCountAsWritten(sizeBits: nat): nat
    requires sizeBits < M64
  {
    var requested := ((sizeBits + 63) % M64) / 64;
    NextPowerOfTwo(if requested == 0 then 1 else requested)
  }

  /**
   * For a request of `SIZE_MAX` bits the sum wraps, the clamp turns 0 words
   * into 1, and the filter gets 64 bits.
   */
  lemma SizeMaxGetsOneWord()
    ensures WordCountAsWritten(M64 - 1) == 1
    ensures 64 * WordCountAsWritten(M64 - 1) < M64 - 1
  {
    assert (M64 - 1 + 63) % M64 == 62;
  }

  /** The `size_bits` field `lbf_init` stores as written: `word_count * 64` in `size_t` arithmetic. */
  function SizeBitsAsWritten(sizeBits: nat): nat
    requires sizeBits < M64
  {
    (WordCountAsWritten(sizeBits) * 64) % M64
  }

  /**
   * Whatever the request, `(size_bits + 63) / 64` in `size_t` arithmetic is
   * below 2^58, so `next_power_of_two` is never called above 2^63 and its own
   * final `+ 1` never wraps inside `lbf_init`.
   */
  lemma RequestBelowPow58(sizeBits: nat)
    requires sizeBits < M64
    ensures ((sizeBits + 63) % M64) / 64 < Pow2(58) < MaxSize
  {
    MaxWords();
    Pow2Add(57, 1);
    Pow2Add(58, 5);
    assert Pow2(1) == 2 && Pow2(5) == 32;
  }

  /**
   * As written, a request between 2^63 and `SIZE_MAX - 63` bits gets 2^58
   * words, and `word_count * 64` wraps: the stored `size_bits` is 0.
   */
  lemma LargeRequestStoresZeroBits(sizeBits: nat)
    requires MaxSize < sizeBits <= M64 - 64
    ensures WordCountAsWritten(sizeBits) == Pow2(58)
    ensures SizeBitsAsWritten(sizeBits) == 0
  {
    var r := LargeRequestWords(sizeBits);
    NextPowerOfTwoIsLeast(r);
    var c := CeilLog2(r);
    assert WordCountAsWritten(sizeBits) == Pow2(c) <= Pow2(58);
    Pow2Order(57, c);
    Pow2Monotone(58, c);
    WrapsToZero();
  }

  /** The request of such a size_bits, as written, lies strictly between 2^57 and 2^58 words. */
  lemma LargeRequestWords(sizeBits: nat) returns (r: nat)
    requires MaxSize < sizeBits <= M64 - 64
    ensures r == ((sizeBits + 63) % M64) / 64 && Pow2(57) < r <= Pow2(58)
  {
    MaxWords();
    Pow2Add(57, 1);
    assert Pow2(1) == 2;
    DivModUnique(sizeBits + 63, M64, 0, sizeBits + 63);
    r := RequestedWords(sizeBits);
  }

  /** 2^58 words of 64 bits are 2^64 bits, which `size_t` holds as 0. */
  lemma WrapsToZero()
    ensures (Pow2(58) * 64) % M64 == 0
  {
    MaxWords();
    Pow2Add(57, 1);
    assert Pow2(1) == 2;
    DivModUnique(M64, M64, 1, 0);
  }

  /**
   * The block_bits loop: halving a power-of-two word count down to 1 counts
   * its exponent, so `2^block_bits == word_count`.
   */
  method CountBlockBits(wordCount: nat, ghost n: nat) returns (bits: nat)
    requires wordCount == Pow2(n)
    ensures bits == n && Pow2(bits) == wordCount
  {
    bits := 0;
    var tmp := wordCount;
    while tmp > 1
      invariant bits <= n && tmp == Pow2(n - bits)
      decreases tmp
    {
      bits := bits + 1;
      tmp := tmp / 2;
    }
  }

  /**
   * `lbf_init`. It fails without writing anything for a NULL filter, fewer
   * than `MIN_SIZE` bits or no hashes, and also for requests above 2^63 bits
   * (see the findings in README.md). On success the word count is the least
   * power of two whose 64-bit words hold size_bits bits, `size_bits` is
   * rounded up to it, the mask and block_bits match it, and every word is 0.
   */
  method Init(filter: LightweightBloomFilter?, sizeBits: nat, numHashes: nat, seed: nat) returns (ok: bool)
    requires sizeBits < M64 && numHashes < M32 && seed < M64
    modifies filter
    ensures ok == (filter != null && sizeBits >= MinSize && numHashes != 0 && sizeBits <= MaxSize)
    ensures !ok && filter != null ==> unchanged(filter)
    ensures ok ==> filter.Ready() && fresh(filter.bitArray)
    ensures ok ==> filter.numHashes == numHashes && filter.seed == seed
    ensures ok ==> filter.sizeBits >= sizeBits
    ensures ok ==> forall e :: sizeBits <= 64 * Pow2(e) ==> filter.wordCount <= Pow2(e)
    ensures ok ==> forall x :: 0 <= x < filter.bitArray.Length ==> filter.bitArray[x] == 0
  {
    if filter == null || sizeBits < MinSize || numHashes == 0 {
      return false;
    }
    if sizeBits > MaxSize {
      return false;
    }
    var requestedWords := (sizeBits + 63) / 64;
    if requestedWords == 0 {
      requestedWords := 1;
    }
    var wordCount := WordCount(sizeBits, requestedWords);
    var words := new U64[wordCount](_ => 0);
    filter.sizeBits := wordCount * 64;
    filter.numHashes := numHashes;
    filter.seed := seed;
    filter.wordCount := wordCount;
    filter.wordMask := wordCount - 1;
    var bits := CountBlockBits(wordCount, CeilLog2(requestedWords));
    filter.blockBits := bits;
    filter.bitArray := words;
    return true;
  }

  /**
   * `next_power_of_two(requested_words)` for an accepted request: the least
   * power of two, at most 2^57, whose words hold size_bits bits.
   */
  method WordCount(sizeBits: nat, requestedWords: nat) returns (wordCount: nat)
    requires MinSize <= sizeBits <= MaxSize && requestedWords == RequestedWords(sizeBits)
    ensures wordCount == Pow2(CeilLog2(requestedWords)) && CeilLog2(requestedWords) < 64
    ensures 64 * wordCount >= sizeBits
    ensures forall e :: sizeBits <= 64 * Pow2(e) ==> wordCount <= Pow2(e)
  {
    MaxWords();
    NextPowerOfTwoIsLeast(requestedWords);
    wordCount := NextPowerOfTwo(requestedWords);
    ghost var c := CeilLog2(requestedWords);
    assert requestedWords <= Pow2(57);
    assert Pow2(c) <= Pow2(57);
    Pow2Order(c, 64);
    forall e | sizeBits <= 64 * Pow2(e)
      ensures wordCount <= Pow2(e)
    {
      assert requestedWords <= Pow2(e);
    }
  }

  /** 2^57 words of 64 bits hold the largest request, and 2^57 is below 2^64. */
  lemma MaxWords()
    ensures 64 * Pow2(57) == MaxSize && Pow2(57) < Pow2(64)
  {
    MaxSizeIsPow2();
    Pow2Add(57, 6);
    assert Pow2(6) == 64;
  }

  /** `lbf_free`: drops the words and zeroes every field; harmless on a zeroed struct. */
  method Free(filter: LightweightBloomFilter?)
    modifies filter
    ensures filter != null ==> filter.Zeroed()
  {
    if filter == null {
      return;
    }
    filter.sizeBits, filter.numHashes, filter.seed := 0, 0, 0;
    filter.wordCount, filter.wordMask, filter.blockBits, filter.bitArray := 0, 0, 0, null;
  }

  /**
   * `lbf_add`: ORs the key's bit positions into its one word and writes that
   * word back; nothing for a NULL filter or item.
   */
  method Add(filter: LightweightBloomFilter?, item: Option<seq<Byte>>)
    requires filter != null && item.Some? ==> filter.Ready()
    requires item.Some? ==> 0 in item.value
    modifies if filter != null && item.Some? then {filter.bitArray} else {}
    ensures filter != null && item.Some? ==> filter.Ready()
    ensures filter != null && item.Some? ==>
      filter.bitArray[..]
      == Insert(old(filter.bitArray[..]), filter.blockBits, filter.numHashes, filter.xxh64(Key(item.value), filter.seed))
  {
    if filter == null || item.None? {
      return;
    }
    var data := item.value;
    var len := StrLen(data);
    var digest := filter.xxh64(data[..len], filter.seed);
    var blockIndex := BlockIndexFromHash(digest, filter.blockBits, filter.wordMask);
    assert blockIndex == BlockOf(digest, filter.blockBits);
    var word := filter.bitArray[blockIndex];
    word := SetPositions(word, digest, filter.numHashes);
    filter.bitArray[blockIndex] := word;
  }

  /** The `lbf_add` loop: k positions from the SplitMix64 sequence OR-ed into word. */
  method SetPositions(word0: U64, digest: U64, k: nat) returns (word: U64)
    ensures word == WithPositions(word0, BitPositions(digest, k))
  {
    word := word0;
    var state := digest;
    var i := 0;
    while i < k
      invariant i <= k
      invariant WithPositions(word, BitPositions(state, k - i)) == WithPositions(word0, BitPositions(digest, k))
    {
      var x;
      state, x := SplitMix64Next(state);
      var bitPos := BitAnd(x, 63);
      assert bitPos == DrawPosition(state);
      word := SetPosition(word, bitPos);
      i := i + 1;
    }
  }

  /** `lbf_contains`: whether every drawn position is set in the key's word; false for a NULL filter or item. */
  method Contains(filter: LightweightBloomFilter?, item: Option<seq<Byte>>) returns (found: bool)
    requires filter != null && item.Some? ==> filter.Ready()
    requires item.Some? ==> 0 in item.value
    ensures found == (filter != null && item.Some? &&
                      Member(filter.bitArray[..], filter.blockBits, filter.numHashes, filter.xxh64(Key(item.value), filter.seed)))
  {
    if filter == null || item.None? {
      return false;
    }
    var data := item.value;
    var len := StrLen(data);
    var digest := filter.xxh64(data[..len], filter.seed);
    var blockIndex := BlockIndexFromHash(digest, filter.blockBits, filter.wordMask);
    assert blockIndex == BlockOf(digest, filter.blockBits);
    var word := filter.bitArray[blockIndex];
    found := TestPositions(word, digest, filter.numHashes);
  }

  /** The `lbf_contains` loop: false at the first drawn position that is clear. */
  method TestPositions(word: U64, digest: U64, k: nat) returns (found: bool)
    ensures found == Covers(word, BitPositions(digest, k))
  {
    var state := digest;
    var i := 0;
    while i < k
      invariant i <= k
      invariant Covers(word, BitPositions(state, k - i)) == Covers(word, BitPositions(digest, k))
    {
      CoversStep(word, state, k - i);
      var x;
      state, x := SplitMix64Next(state);
      var bitPos := BitAnd(x, 63);
      assert bitPos == DrawPosition(state);
      BitAndPow2(word, bitPos);
      if BitAnd(word, Pow2(bitPos)) == 0 {
        return false;
      }
      i := i + 1;
    }
    return true;
  }
}
