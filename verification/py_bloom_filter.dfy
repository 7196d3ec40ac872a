/**
 * The Python standard Bloom filter, class `BloomFilter` of
 * bf_std/bloom_filter.py and of its copy standard_bf/bloom_filter.py, whose
 * operations behave identically: a `bytearray` of `(size + 7) // 8` bytes,
 * with `num_hashes` bits per item chosen by double hashing over MurmurHash3
 * and xxHash64.
 *
 * Python integers are unbounded, so the probe arithmetic does not wrap. The
 * `mmh3` and `xxhash` libraries and `str.encode("utf-8")` are not part of this
 * model; each filter holds them as functions fixed when it is created.
 */
module PyBloomFilter {
  import opened NatBits
  import opened HashUtils
  import opened Wrappers
  import opened ByteBits
  import opened DoubleHashing

  class BloomFilter {
    var size: int
    var numHashes: int
    var seed1: int
    var seed2: int
    var bitArray: array<Byte>

    /** `str.encode("utf-8")`. */
    const encode: string -> seq<Byte>
    /** `mmh3.hash(data, seed, signed=False)`. */
    const mmh3: (seq<Byte>, int) -> U32
    /** `xxhash.xxh64(data, seed=seed).intdigest()`. */
    const xxh64: (seq<Byte>, int) -> U64

    /** The state `__init__` establishes and the operations keep. */
    ghost predicate Valid()
      reads this
    {
      size > 0 && numHashes > 0 && bitArray.Length == ByteLength(size)
    }

    /**
     * The body of `__init__` once both checks have passed: the parameters are
     * stored unchanged and the bit array is `(size + 7) // 8` zero bytes.
     */
    constructor (size: int, numHashes: int, seed1: int, seed2: int,
                 encode: string -> seq<Byte>, mmh3: (seq<Byte>, int) -> U32, xxh64: (seq<Byte>, int) -> U64)
      requires size > 0 && numHashes > 0
      ensures Valid() && fresh(bitArray) && Zero(bitArray[..])
      ensures this.size == size && this.numHashes == numHashes && this.seed1 == seed1 && this.seed2 == seed2
      ensures this.encode == encode && this.mmh3 == mmh3 && this.xxh64 == xxh64
    {
      this.size := size;
      this.numHashes := numHashes;
      this.seed1 := seed1;
      this.seed2 := seed2;
      this.encode := encode;
      this.mmh3 := mmh3;
      this.xxh64 := xxh64;
      bitArray := new Byte[(size + 7) / 8](_ => 0);
    }

    /**
     * `BloomFilter(size, num_hashes, seed1=..., seed2=...)`: a `ValueError`
     * when size or num_hashes is not positive, size being checked first;
     * otherwise a new empty filter.
     */
    static method New(size: int, numHashes: int, seed1: int, seed2: int,
                      encode: string -> seq<Byte>, mmh3: (seq<Byte>, int) -> U32, xxh64: (seq<Byte>, int) -> U64)
      returns (r: Result<BloomFilter>)
      ensures size <= 0 ==> r == Failure("size must be positive")
      ensures size > 0 && numHashes <= 0 ==> r == Failure("num_hashes must be positive")
      ensures size > 0 && numHashes > 0 ==> r.Success? && fresh(r.value) && fresh(r.value.bitArray)
      ensures r.Success? ==> r.value.Valid() && Zero(r.value.bitArray[..])
      ensures r.Success? ==> r.value.size == size && r.value.numHashes == numHashes
      ensures r.Success? ==> r.value.seed1 == seed1 && r.value.seed2 == seed2
      ensures r.Success? ==> r.value.encode == encode && r.value.mmh3 == mmh3 && r.value.xxh64 == xxh64
    {
      if size <= 0 {
        return Failure("size must be positive");
      }
      if numHashes <= 0 {
        return Failure("num_hashes must be positive");
      }
      var f := new BloomFilter(size, numHashes, seed1, seed2, encode, mmh3, xxh64);
      return Success(f);
    }

    /**
     * `_hashes(item)`: `num_hashes` indices `(h1 + i * h2) % size`, with h1
     * the unsigned MurmurHash3 and h2 the xxHash64 digest modulo size moved
     * off 0. Each index lies in [0, size), so its byte is in the array.
     */
    function Hashes(item: string): (ps: seq<nat>)
      reads this
      requires Valid()
      ensures |ps| == numHashes
      ensures forall i :: 0 <= i < |ps| ==> ps[i] < size
      ensures InBounds(bitArray.Length, ps)
    {
      var data := encode(item);
      Probes(mmh3(data, seed1), Stride(xxh64(data, seed2), size), numHashes, size)
    }

    /** The indices of each item in turn. */
    function HashLists(items: seq<string>): (lists: seq<seq<nat>>)
      reads this
      requires Valid()
      ensures |lists| == |items|
      ensures forall j :: 0 <= j < |items| ==> lists[j] == Hashes(items[j])
      ensures AllInBounds(bitArray.Length, lists)
      decreases |items|
    {
      if items == [] then [] else HashLists(items[..|items| - 1]) + [Hashes(items[|items| - 1])]
    }

    /** `add(item)`: sets the bit of every index of the item, and nothing else. */
    method Add(item: string)
      requires Valid()
      modifies bitArray
      ensures Valid()
      ensures bitArray[..] == WithBits(old(bitArray[..]), Hashes(item))
    {
      var ps := Hashes(item);
      var i := 0;
      while i < |ps|
        invariant i <= |ps|
        invariant bitArray[..] == WithBits(old(bitArray[..]), ps[..i])
      {
        var bitIndex := ps[i];
        var byteIndex := bitIndex / 8;
        var mask := Mask(bitIndex);
        bitArray[byteIndex] := ByteOr(bitArray[byteIndex], mask);
        assert ps[..i + 1][..i] == ps[..i];
        i := i + 1;
      }
      assert ps[..i] == ps;
    }

    /** `update(items)`: `add` of each item, in order. */
    method Update(items: seq<string>)
      requires Valid()
      modifies bitArray
      ensures Valid()
      ensures bitArray[..] == WithAll(old(bitArray[..]), HashLists(items))
    {
      var j := 0;
      while j < |items|
        invariant j <= |items|
        invariant bitArray[..] == WithAll(old(bitArray[..]), HashLists(items[..j]))
      {
        Add(items[j]);
        assert items[..j + 1][..j] == items[..j];
        j := j + 1;
      }
      assert items[..j] == items;
    }

    /**
     * `item in filter`: true exactly when the bit of every index of the item
     * is set; false at the first clear one. It changes nothing.
     */
    method Contains(item: string) returns (found: bool)
      requires Valid()
      ensures found == AllSet(bitArray[..], Hashes(item))
    {
      var ps := Hashes(item);
      var i := 0;
      while i < |ps|
        invariant i <= |ps|
        invariant forall t :: 0 <= t < i ==> IsSet(bitArray[..], ps[t])
      {
        var bitIndex := ps[i];
        var byteIndex := bitIndex / 8;
        var mask := Mask(bitIndex);
        if BitAnd(bitArray[byteIndex], mask) == 0 {
          return false;
        }
        i := i + 1;
      }
      return true;
    }
  }

  /**
   * No false negatives: after `update(items)` every item tests as present,
   * however many items were added after it.
   */
  lemma NoFalseNegatives(f: BloomFilter, bytes: seq<Byte>, items: seq<string>, j: nat)
    requires f.Valid() && |bytes| == f.bitArray.Length && j < |items|
    ensures AllSet(WithAll(bytes, f.HashLists(items)), f.Hashes(items[j]))
  {
    var lists := f.HashLists(items);
    assert lists[j] in lists;
    WithAllAllSet(bytes, lists, lists[j]);
  }

  /** A new filter, all bytes 0, reports every item absent. */
  lemma FreshFilterRejects(f: BloomFilter, item: string)
    requires f.Valid() && Zero(f.bitArray[..])
    ensures !AllSet(f.bitArray[..], f.Hashes(item))
  {
    ZeroNoneSet(f.bitArray[..], f.Hashes(item));
  }
}
