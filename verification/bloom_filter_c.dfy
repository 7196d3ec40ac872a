/**
 * The C standard Bloom filter (c_impl/bloom_filter.c): a flat array of
 * `ceil(size_bits / 8)` bytes; each key sets and tests `num_hashes` bits
 * chosen by double hashing over `murmur3_32` and `xxhash64`.
 *
 * Pointers that may be NULL are `BloomFilter?` and `Option`; a key is the
 * memory of a NUL-terminated string. Fields have their C types' ranges:
 * `size_t` and `uint64_t` below 2^64, `uint32_t` below 2^32.
 */
module CBloomFilter {
  import opened NatBits
  import opened HashUtils
  import opened Wrappers
  import opened ByteBits
  import opened DoubleHashing
  import opened CStrings

  /** `BLOOM_MIN_SIZE`: the smallest accepted number of bits. */
  const MinSize: nat := 1

  /** The `BloomFilter` struct. */
  class BloomFilter {
    var sizeBits: nat
    var numHashes: nat
    var seed1: nat
    var seed2: nat
    var bitArray: array?<Byte>
    var byteLength: nat

    /** A zero-initialised struct, ready to be passed to `Init`. */
    constructor ()
      ensures Zeroed()
    {
      sizeBits, numHashes, seed1, seed2 := 0, 0, 0, 0;
      bitArray, byteLength := null, 0;
    }

    /** Every field 0 or NULL, as after `memset(filter, 0, sizeof(*filter))`. */
    ghost predicate Zeroed()
      reads this
    {
      sizeBits == 0 && numHashes == 0 && seed1 == 0 && seed2 == 0 && bitArray == null && byteLength == 0
    }

    /** A filter set up by a successful `Init` and not yet freed. */
    ghost predicate Ready()
      reads this
    {
      && MinSize <= sizeBits < M64
      && 1 <= numHashes < M32
      && seed1 < M32
      && seed2 < M64
      && bitArray != null
      && byteLength == bitArray.Length == ByteLength(sizeBits)
    }
  }

  /** `(size_bits + 7u) / 8u` as written, in `size_t` arithmetic. */
  function ByteLengthAsWritten(sizeBits: nat): nat
    requires sizeBits < M64
  {
    ((sizeBits + 7) % M64) / 8
  }

  /** Without wrap-around the computed length is the ceiling. */
  lemma ByteLengthAsWrittenAgrees(sizeBits: nat)
    requires sizeBits + 7 < M64
    ensures ByteLengthAsWritten(sizeBits) == ByteLength(sizeBits)
  {
  }

  /**
   * For a request of `SIZE_MAX` bits the sum wraps and the buffer is empty,
   * although probe indices reach up to `SIZE_MAX - 1`.
   */
  lemma ByteLengthWrapsAtSizeMax()
    ensures ByteLengthAsWritten(M64 - 1) == 0
    ensures 8 * ByteLengthAsWritten(M64 - 1) < M64 - 1
  {
    assert (M64 - 1 + 7) % M64 == 6;
  }

  /**
   * The bit indices `bloom_add` sets and `bloom_contains` tests for a key:
   * h1 is `murmur3_32(key, seed1)`, the stride is `xxhash64(key, seed2)`
   * modulo size_bits moved off 0, and the indices are computed in `uint64_t`.
   * Each index lands in the byte buffer.
   */
  function KeyProbes(sizeBits: nat, numHashes: nat, seed1: nat, seed2: nat, key: seq<Byte>): (ps: seq<nat>)
    requires sizeBits >= 1
    ensures |ps| == numHashes
    ensures forall i :: 0 <= i < |ps| ==> ps[i] < sizeBits
    ensures InBounds(ByteLength(sizeBits), ps)
  {
    WrappedProbes(Murmur3(key, seed1), Stride(XxHash64(key, seed2), sizeBits), numHashes, sizeBits)
  }

  /** The probes of a key in a ready filter. */
  function ProbesOf(filter: BloomFilter, key: seq<Byte>): (ps: seq<nat>)
    reads filter
    requires filter.Ready()
    ensures InBounds(filter.byteLength, ps) && InBounds(filter.bitArray.Length, ps)
  {
    KeyProbes(filter.sizeBits, filter.numHashes, filter.seed1, filter.seed2, key)
  }

  /**
   * For tables of at most 2^32 bits the 64-bit sum never wraps: the probes are
   * exactly `(h1 + i * h2) % size_bits`.
   */
  lemma KeyProbesExact(sizeBits: nat, numHashes: nat, seed1: nat, seed2: nat, key: seq<Byte>)
    requires 1 <= sizeBits <= M32 && numHashes < M32
    ensures KeyProbes(sizeBits, numHashes, seed1, seed2, key)
         == Probes(Murmur3(key, seed1), Stride(XxHash64(key, seed2), sizeBits), numHashes, sizeBits)
  {
    Murmur3Range(key, seed1);
    WrappedProbesExact(Murmur3(key, seed1), Stride(XxHash64(key, seed2), sizeBits), numHashes, sizeBits);
  }

  /** The buffer after `bloom_add` of each key in turn. */
  function Inserted(sizeBits: nat, numHashes: nat, seed1: nat, seed2: nat, bytes: seq<Byte>, keys: seq<seq<Byte>>): (r: seq<Byte>)
    requires sizeBits >= 1 && |bytes| == ByteLength(sizeBits)
    ensures |r| == |bytes|
  {
    WithAll(bytes, seq(|keys|, j requires 0 <= j < |keys| => KeyProbes(sizeBits, numHashes, seed1, seed2, keys[j])))
  }

  /**
   * No false negatives: once a key has been added, every one of its probe
   * bits is set, whatever keys are added after it.
   */
  lemma NoFalseNegatives(sizeBits: nat, numHashes: nat, seed1: nat, seed2: nat, bytes: seq<Byte>, keys: seq<seq<Byte>>, j: nat)
    requires sizeBits >= 1 && |bytes| == ByteLength(sizeBits) && j < |keys|
    ensures AllSet(Inserted(sizeBits, numHashes, seed1, seed2, bytes, keys), KeyProbes(sizeBits, numHashes, seed1, seed2, keys[j]))
  {
    var lists := seq(|keys|, i requires 0 <= i < |keys| => KeyProbes(sizeBits, numHashes, seed1, seed2, keys[i]));
    assert lists[j] in lists;
    WithAllAllSet(bytes, lists, lists[j]);
  }

  /** A freshly initialised filter, all bytes 0, contains no key. */
  lemma FreshFilterRejects(sizeBits: nat, numHashes: nat, seed1: nat, seed2: nat, bytes: seq<Byte>, key: seq<Byte>)
    requires sizeBits >= 1 && numHashes >= 1 && |bytes| == ByteLength(sizeBits) && Zero(bytes)
    ensures !AllSet(bytes, KeyProbes(sizeBits, numHashes, seed1, seed2, key))
  {
    ZeroNoneSet(bytes, KeyProbes(sizeBits, numHashes, seed1, seed2, key));
  }

  /** `bloom_set_bit`: `array[bit_index >> 3] |= 1 << (bit_index & 7)`. */
  method SetBit(bits: array<Byte>, bitIndex: nat)
    requires bitIndex / 8 < bits.Length
    modifies bits
    ensures bits[..] == WithBit(old(bits[..]), bitIndex)
  {
    bits[bitIndex / 8] := ByteOr(bits[bitIndex / 8], Mask(bitIndex));
  }

  /**
   * `bloom_init`. It fails without writing anything for a NULL filter, fewer
   * than `BLOOM_MIN_SIZE` bits or no hashes, and also when `size_bits + 7`
   * does not fit in `size_t` (see the findings in README.md). On success the
   * fields hold the arguments and a fresh all-zero buffer of
   * `ceil(size_bits / 8)` bytes.
   */
  method Init(filter: BloomFilter?, sizeBits: nat, numHashes: nat, seed1: nat, seed2: nat) returns (ok: bool)
    requires sizeBits < M64 && numHashes < M32 && seed1 < M32 && seed2 < M64
    modifies filter
    ensures ok == (filter != null && sizeBits >= MinSize && numHashes != 0 && sizeBits + 7 < M64)
    ensures !ok && filter != null ==> unchanged(filter)
    ensures ok ==> filter.Ready() && fresh(filter.bitArray)
    ensures ok ==> filter.sizeBits == sizeBits && filter.numHashes == numHashes
    ensures ok ==> filter.seed1 == seed1 && filter.seed2 == seed2
    ensures ok ==> filter.byteLength == ByteLength(sizeBits) && Zero(filter.bitArray[..])
  {
    if filter == null || sizeBits < MinSize || numHashes == 0 {
      return false;
    }
    if sizeBits + 7 >= M64 {
      return false;
    }
    var byteLength := (sizeBits + 7) / 8;
    var bits := new Byte[byteLength](_ => 0);
    filter.sizeBits := sizeBits;
    filter.numHashes := numHashes;
    filter.seed1 := seed1;
    filter.seed2 := seed2;
    filter.bitArray := bits;
    filter.byteLength := byteLength;
    return true;
  }

  /**
   * `bloom_free`: drops the buffer and zeroes every field. On a zeroed struct
   * it is harmless, so freeing twice is allowed.
   */
  method Free(filter: BloomFilter?)
    modifies filter
    ensures filter != null ==> filter.Zeroed()
  {
    if filter == null {
      return;
    }
    filter.sizeBits, filter.numHashes, filter.seed1, filter.seed2 := 0, 0, 0, 0;
    filter.bitArray, filter.byteLength := null, 0;
  }

  /**
   * The two hashes of a key, as `bloom_add` and `bloom_contains` both derive
   * them: h1 from `murmur3_32`, and the stride from `xxhash64` modulo
   * size_bits, with 0 replaced by 1.
   */
  method KeyHashes(key: seq<Byte>, sizeBits: nat, seed1: nat, seed2: nat) returns (h1: nat, h2: nat)
    requires sizeBits >= 1 && seed1 < M32 && seed2 < M64
    ensures h1 == Murmur3(key, seed1) && h1 < M32
    ensures h2 == Stride(XxHash64(key, seed2), sizeBits) && 1 <= h2
  {
    h1 := ComputeMurmur3(key, seed1);
    Murmur3Range(key, seed1);
    h2 := ComputeXxHash64(key, seed2);
    h2 := h2 % sizeBits;
    if h2 == 0 {
      h2 := 1;
    }
  }

  /**
   * The loop of `bloom_add`: sets bit `(h1 + i * h2) % size_bits` for each i
   * below `num_hashes`, in order.
   */
  method SetProbes(bits: array<Byte>, h1: nat, h2: nat, k: nat, sizeBits: nat)
    requires sizeBits >= 1 && bits.Length == ByteLength(sizeBits)
    modifies bits
    ensures bits[..] == WithBits(old(bits[..]), WrappedProbes(h1, h2, k, sizeBits))
  {
    ghost var ps := WrappedProbes(h1, h2, k, sizeBits);
    assert InBounds(bits.Length, ps);
    var i := 0;
    while i < k
      invariant i <= k
      invariant bits[..] == WithBits(old(bits[..]), ps[..i])
    {
      var bitIndex := WrappedProbe(h1, h2, i, sizeBits);
      assert bitIndex == ps[i];
      SetBit(bits, bitIndex);
      assert ps[..i + 1][..i] == ps[..i];
      i := i + 1;
    }
    assert ps[..i] == ps;
  }

  /**
   * The loop of `bloom_contains`: true exactly when every probe bit is set,
   * returning false at the first clear one.
   */
  method TestProbes(bits: array<Byte>, h1: nat, h2: nat, k: nat, sizeBits: nat) returns (found: bool)
    requires sizeBits >= 1 && bits.Length == ByteLength(sizeBits)
    ensures found == AllSet(bits[..], WrappedProbes(h1, h2, k, sizeBits))
  {
    ghost var ps := WrappedProbes(h1, h2, k, sizeBits);
    assert InBounds(bits.Length, ps);
    var i := 0;
    while i < k
      invariant i <= k
      invariant forall t :: 0 <= t < i ==> IsSet(bits[..], ps[t])
    {
      var bitIndex := WrappedProbe(h1, h2, i, sizeBits);
      assert bitIndex == ps[i];
      if BitAnd(bits[bitIndex / 8], Mask(bitIndex)) == 0 {
        assert !IsSet(bits[..], ps[i]);
        return false;
      }
      i := i + 1;
    }
    return true;
  }

  /**
   * `bloom_add`: sets the probe bits of the key and nothing else; does nothing
   * for a NULL filter or item.
   */
  method Add(filter: BloomFilter?, item: Option<seq<Byte>>)
    requires filter != null && item.Some? ==> filter.Ready()
    requires item.Some? ==> 0 in item.value
    modifies if filter != null && item.Some? then {filter.bitArray} else {}
    ensures filter != null && item.Some? ==> filter.Ready() && filter.bitArray == old(filter.bitArray)
    ensures filter != null && item.Some? ==>
      filter.bitArray[..] == WithBits(old(filter.bitArray[..]), ProbesOf(filter, Key(item.value)))
  {
    if filter == null || item.None? {
      return;
    }
    var data := item.value;
    var len := StrLen(data);
    var key := data[..len];
    var h1, h2 := KeyHashes(key, filter.sizeBits, filter.seed1, filter.seed2);
    SetProbes(filter.bitArray, h1, h2, filter.numHashes, filter.sizeBits);
  }

  /**
   * `bloom_contains`: true exactly when every probe bit of the key is set;
   * false for a NULL filter or item. It changes nothing.
   */
  method Contains(filter: BloomFilter?, item: Option<seq<Byte>>) returns (found: bool)
    requires filter != null && item.Some? ==> filter.Ready()
    requires item.Some? ==> 0 in item.value
    ensures found == (filter != null && item.Some? && AllSet(filter.bitArray[..], ProbesOf(filter, Key(item.value))))
  {
    if filter == null || item.None? {
      return false;
    }
    var data := item.value;
    var len := StrLen(data);
    var key := data[..len];
    var h1, h2 := KeyHashes(key, filter.sizeBits, filter.seed1, filter.seed2);
    found := TestProbes(filter.bitArray, h1, h2, filter.numHashes, filter.sizeBits);
  }
}
