/**
 * The two hash primitives of the C implementation, `murmur3_32` and
 * `xxhash64` (c_impl/hash_utils.c), bit for bit.
 *
 * Each is given twice: as a specification function that folds over the
 * complete chunks of the input and then its tail, and as methods with the
 * same `while` loops and index variables as the C code, proved equal to it.
 * Words are unsigned integers and every `uint32_t`/`uint64_t` operation is
 * written with its wrap-around (`% 2^32`, `% 2^64`); multi-byte words are
 * read little-endian, as `memcpy` does on the little-endian hosts the code
 * targets.
 */
module HashUtils {
  import opened NatBits

  /** A byte of the input. */
  type Byte = b: nat | b < 0x100

  const M32: nat := 0x1_0000_0000
  const M64: nat := 0x1_0000_0000_0000_0000

  /** The values of a `uint32_t` and of a `uint64_t`. */
  type U32 = x: nat | x < M32
  type U64 = x: nat | x < M64

  // ---------------------------------------------------------------------------
  // Bytes, chunks and words

  /** The complete n-byte chunks of d, in order (a trailing partial chunk is not included). */
  function Chunks(d: seq<Byte>, n: nat): (cs: seq<seq<Byte>>)
    requires n > 0
    ensures |cs| == |d| / n
    ensures forall j :: 0 <= j < |cs| ==> |cs[j]| == n
    decreases |d|
  {
    if |d| < n then []
    else
      SubDivMod(|d|, n);
      [d[..n]] + Chunks(d[n..], n)
  }

  /** The chunks laid end to end. */
  function Flatten(cs: seq<seq<Byte>>): seq<Byte>
  {
    if cs == [] then [] else cs[0] + Flatten(cs[1..])
  }

  /** The bytes after the last complete n-byte chunk. */
  function Remainder(d: seq<Byte>, n: nat): seq<Byte>
    requires n > 0
  {
    d[|d| - |d| % n..]
  }

  /** Reading the chunk at offset i and moving on by n. */
  lemma ChunksStep(d: seq<Byte>, i: nat, n: nat)
    requires n > 0 && i + n <= |d|
    ensures Chunks(d[i..], n) == [d[i..i + n]] + Chunks(d[i + n..], n)
  {
    assert d[i..][..n] == d[i..i + n];
    assert d[i..][n..] == d[i + n..];
  }

  /** An 8-byte window of a slice is the same window of the whole sequence. */
  lemma SliceOfSlice(d: seq<Byte>, i: nat, k: nat, n: nat)
    requires k + 8 <= n && i + n <= |d|
    ensures d[i..i + n][k..k + 8] == d[i + k..i + k + 8]
  {
    var w := d[i..i + n][k..k + 8];
    assert |w| == 8;
    forall j | 0 <= j < 8
      ensures w[j] == d[i + k + j]
    {
      assert w[j] == d[i..i + n][k + j];
    }
  }

  /**
   * Every byte of d is consumed exactly once, in order: first inside one of the
   * complete chunks, then in the remainder, which is shorter than a chunk.
   */
  lemma {:induction false} ChunksCover(d: seq<Byte>, n: nat)
    requires n > 0
    ensures Flatten(Chunks(d, n)) + Remainder(d, n) == d
    ensures |Remainder(d, n)| < n
    decreases |d|
  {
    if |d| >= n {
      var rest := d[n..];
      ChunksCover(rest, n);
      var cs := Chunks(d, n);
      assert cs[0] == d[..n] && cs[1..] == Chunks(rest, n);
      assert Flatten(cs) == d[..n] + Flatten(Chunks(rest, n));
      RemainderStep(d, n);
      assert d == d[..n] + rest;
    } else {
      DivModUnique(|d|, n, 0, |d|);
      assert Remainder(d, n) == d;
    }
  }

  /** Dropping one whole chunk leaves the same remainder. */
  lemma RemainderStep(d: seq<Byte>, n: nat)
    requires 0 < n <= |d|
    ensures Remainder(d[n..], n) == Remainder(d, n)
  {
    SubDivMod(|d|, n);
    var r := |d| % n;
    assert |d[n..]| - r == |d| - r - n;
  }

  lemma SubDivMod(x: nat, n: nat)
    requires 0 < n <= x
    ensures (x - n) / n == x / n - 1 && (x - n) % n == x % n
  {
    var q, r := x / n, x % n;
    assert x - n == n * (q - 1) + r;
    DivModUnique(x - n, n, q - 1, r);
  }

  /** The little-endian 32-bit word held in four bytes. */
  function Le32(b: seq<Byte>): nat
    requires |b| >= 4
  {
    (b[0] as nat) + 0x100 * (b[1] as nat) + 0x1_0000 * (b[2] as nat) + 0x100_0000 * (b[3] as nat)
  }

  /** The little-endian 64-bit word held in eight bytes. */
  function Le64(b: seq<Byte>): nat
    requires |b| >= 8
  {
    Le32(b) + M32 * Le32(b[4..])
  }

  /** 32-bit and 64-bit wrapping addition, subtraction and multiplication. */
  function Add32(a: nat, b: nat): nat { (a + b) % M32 }
  function Mul32(a: nat, b: nat): nat { (a * b) % M32 }
  function Add64(a: nat, b: nat): nat { (a + b) % M64 }
  function Sub64(a: nat, b: nat): nat { (a - b) % M64 }
  function Mul64(a: nat, b: nat): nat { (a * b) % M64 }

  /** `(x << r) | (x >> (32 - r))` on a `uint32_t`, for a rotation strictly between 0 and 32. */
  function Rotl32(x: nat, r: nat): nat
    requires 0 < r < 32
  {
    BitOr((x * Pow2(r)) % M32, Shr(x, 32 - r))
  }

  /** `(x << r) | (x >> (64 - r))` on a `uint64_t`, for a rotation strictly between 0 and 64. */
  function Rotl64(x: nat, r: nat): nat
    requires 0 < r < 64
  {
    BitOr((x * Pow2(r)) % M64, Shr(x, 64 - r))
  }

  /** `(uint32_t)len` and `(uint64_t)len`. */
  function Len32(d: seq<Byte>): nat
  {
    |d| % M32
  }

  function Len64(d: seq<Byte>): nat
  {
    |d| % M64
  }

  // ---------------------------------------------------------------------------
  // murmur3_32

  const C1: nat := 0xcc9e2d51
  const C2: nat := 0x1b873593

  /** The scrambling applied to every key word, block or tail. */
  function MixK1(k: nat): nat
  {
    Mul32(Rotl32(Mul32(k, C1), 15), C2)
  }

  /** A scrambled key word folded into the running hash. */
  function MixH1(h: nat, k: nat): nat
  {
    Add32(Mul32(Rotl32(BitXor(h, k), 13), 5), 0xe6546b64)
  }

  /** One 4-byte block folded into the running hash. */
  function MurmurStep(h: nat, block: seq<Byte>): nat
    requires |block| == 4
  {
    MixH1(h, MixK1(Le32(block)))
  }

  function MurmurBlocks(h: nat, blocks: seq<seq<Byte>>): nat
    requires forall j :: 0 <= j < |blocks| ==> |blocks[j]| == 4
    decreases |blocks|
  {
    if blocks == [] then h else MurmurBlocks(MurmurStep(h, blocks[0]), blocks[1..])
  }

  /** The 1 to 3 trailing bytes as one word: byte 0 lowest, as the fall-through switch builds it. */
  function TailWord(tail: seq<Byte>): nat
    requires 0 < |tail| < 4
  {
    BitXor(BitXor(if |tail| == 3 then (tail[2] as nat) * 0x1_0000 else 0,
                  if |tail| >= 2 then (tail[1] as nat) * 0x100 else 0),
           tail[0])
  }

  function MurmurTail(h: nat, tail: seq<Byte>): (r: nat)
    requires |tail| < 4
    ensures tail == [] ==> r == h
  {
    if tail == [] then h else BitXor(h, MixK1(TailWord(tail)))
  }

  /** The fmix32 finaliser. */
  function Fmix32(h: nat): nat
  {
    var h := BitXor(h, Shr(h, 16));
    var h := Mul32(h, 0x85ebca6b);
    var h := BitXor(h, Shr(h, 13));
    var h := Mul32(h, 0xc2b2ae35);
    BitXor(h, Shr(h, 16))
  }

  /** MurmurHash3_x86_32 of data under seed. */
  function Murmur3(data: seq<Byte>, seed: nat): nat
  {
    Fmix32(BitXor(MurmurTail(MurmurBlocks(seed, Chunks(data, 4)), Remainder(data, 4)), Len32(data)))
  }

  /** `murmur3_32` always fits its `uint32_t` result. */
  lemma Murmur3Range(data: seq<Byte>, seed: nat)
    ensures Murmur3(data, seed) < M32
  {
    var h := BitXor(MurmurTail(MurmurBlocks(seed, Chunks(data, 4)), Remainder(data, 4)), Len32(data));
    var g := Mul32(BitXor(h, Shr(h, 16)), 0x85ebca6b);
    var g2 := Mul32(BitXor(g, Shr(g, 13)), 0xc2b2ae35);
    Pow2Of32();
    ShrAtMost(g2, 16);
    BitXorBelow(g2, Shr(g2, 16), 32);
  }

  /**
   * With no input and seed 0 the hash is 0: the running hash stays 0 through
   * the empty block loop, the empty tail, the length xor and fmix32.
   */
  lemma Murmur3EmptyZeroSeed()
    ensures Murmur3([], 0) == 0
  {
    var empty: seq<Byte> := [];
    assert Chunks(empty, 4) == [];
    assert Remainder(empty, 4) == [];
    assert MurmurTail(MurmurBlocks(0, Chunks(empty, 4)), Remainder(empty, 4)) == 0;
    ZeroFmix32();
  }

  lemma ZeroFmix32()
    ensures Fmix32(0) == 0
  {
    ShrAtMost(0, 16);
    ShrAtMost(0, 13);
    var h := BitXor(0, Shr(0, 16));
    assert h == 0;
    assert Mul32(h, 0x85ebca6b) == 0;
    assert BitXor(0, Shr(0, 13)) == 0;
    assert Mul32(0, 0xc2b2ae35) == 0;
  }

  /**
   * The block loop: it stops at the start of the tail, after exactly
   * |data| / 4 blocks, never reading past the end.
   */
  method MurmurBlockLoop(data: seq<Byte>, seed: nat) returns (h1: nat, i: nat)
    requires seed < M32
    ensures i == |data| - |data| % 4 && i % 4 == 0
    ensures h1 == MurmurBlocks(seed, Chunks(data, 4))
  {
    h1 := seed;
    i := 0;
    ghost var blocks := 0;
    while i + 4 <= |data|
      invariant i <= |data| && i == 4 * blocks
      invariant MurmurBlocks(h1, Chunks(data[i..], 4)) == MurmurBlocks(seed, Chunks(data, 4))
    {
      ChunksStep(data, i, 4);
      var k1 := Le32(data[i..i + 4]);
      i := i + 4;
      k1 := Mul32(k1, C1);
      k1 := Rotl32(k1, 15);
      k1 := Mul32(k1, C2);
      h1 := BitXor(h1, k1);
      h1 := Rotl32(h1, 13);
      h1 := Add32(Mul32(h1, 5), 0xe6546b64);
      blocks := blocks + 1;
    }
    DivModUnique(|data|, 4, blocks, |data| - i);
    DivModUnique(i, 4, blocks, 0);
  }

  /**
   * The tail switch: it folds in exactly the `len & 3` bytes after the last
   * block, and leaves the hash alone when there are none.
   */
  method MurmurTailSwitch(data: seq<Byte>, i: nat, h: nat) returns (h1: nat)
    requires i == |data| - |data| % 4
    ensures h1 == MurmurTail(h, Remainder(data, 4))
  {
    h1 := h;
    var k1 := 0;
    var rest := |data| % 4;
    if rest == 3 {
      k1 := BitXor(k1, (data[i + 2] as nat) * 0x1_0000);
    }
    if rest >= 2 {
      k1 := BitXor(k1, (data[i + 1] as nat) * 0x100);
    }
    if rest >= 1 {
      k1 := BitXor(k1, data[i]);
      assert k1 == TailWord(data[i..]);
      k1 := Mul32(k1, C1);
      k1 := Rotl32(k1, 15);
      k1 := Mul32(k1, C2);
      h1 := BitXor(h1, k1);
    }
  }

  /** `murmur3_32(data, len, seed)`. */
  method ComputeMurmur3(data: seq<Byte>, seed: nat) returns (h1: nat)
    requires seed < M32
    ensures h1 == Murmur3(data, seed)
  {
    var i;
    h1, i := MurmurBlockLoop(data, seed);
    h1 := MurmurTailSwitch(data, i, h1);
    h1 := BitXor(h1, Len32(data));
    h1 := BitXor(h1, Shr(h1, 16));
    h1 := Mul32(h1, 0x85ebca6b);
    h1 := BitXor(h1, Shr(h1, 13));
    h1 := Mul32(h1, 0xc2b2ae35);
    h1 := BitXor(h1, Shr(h1, 16));
  }

  // ---------------------------------------------------------------------------
  // xxhash64

  const P1: nat := 11400714785074694791
  const P2: nat := 14029467366897019727
  const P3: nat := 1609587929392839161
  const P4: nat := 9650029242287828579
  const P5: nat := 2870177450012600261

  /** The four accumulators of the 32-byte stripe phase. */
  datatype Lanes = Lanes(v1: nat, v2: nat, v3: nat, v4: nat)

  /** One accumulator absorbing one 8-byte lane. */
  function XxRound(acc: nat, lane: nat): nat
  {
    Mul64(Rotl64(Add64(acc, Mul64(lane, P2)), 31), P1)
  }

  function InitLanes(seed: nat): Lanes
  {
    Lanes(Add64(Add64(seed, P1), P2), Add64(seed, P2), seed, Sub64(seed, P1))
  }

  function StripeStep(v: Lanes, stripe: seq<Byte>): Lanes
    requires |stripe| == 32
  {
    Lanes(XxRound(v.v1, Le64(stripe[0..8])), XxRound(v.v2, Le64(stripe[8..16])),
          XxRound(v.v3, Le64(stripe[16..24])), XxRound(v.v4, Le64(stripe[24..32])))
  }

  function Stripes(v: Lanes, stripes: seq<seq<Byte>>): Lanes
    requires forall j :: 0 <= j < |stripes| ==> |stripes[j]| == 32
    decreases |stripes|
  {
    if stripes == [] then v else Stripes(StripeStep(v, stripes[0]), stripes[1..])
  }

  /** An accumulator merged into the hash after the stripe phase. */
  function MergeLane(h: nat, v: nat): nat
  {
    Add64(Mul64(BitXor(h, Mul64(Rotl64(Mul64(v, P2), 31), P1)), P1), P4)
  }

  function Converge(v: Lanes): nat
  {
    var h := Add64(Add64(Add64(Rotl64(v.v1, 1), Rotl64(v.v2, 7)), Rotl64(v.v3, 12)), Rotl64(v.v4, 18));
    MergeLane(MergeLane(MergeLane(MergeLane(h, v.v1), v.v2), v.v3), v.v4)
  }

  /** The hash before the length and tails: the stripe path for 32 bytes or more, else seed + P5. */
  function XxStart(data: seq<Byte>, seed: nat): (h: nat)
    ensures |data| < 32 ==> h == Add64(seed, P5)
  {
    if |data| >= 32 then Converge(Stripes(InitLanes(seed), Chunks(data, 32))) else Add64(seed, P5)
  }

  function Step8(h: nat, group: seq<Byte>): nat
    requires |group| == 8
  {
    var k := Mul64(Rotl64(Mul64(Le64(group), P2), 31), P1);
    Add64(Mul64(Rotl64(BitXor(h, k), 27), P1), P4)
  }

  function Groups8(h: nat, groups: seq<seq<Byte>>): nat
    requires forall j :: 0 <= j < |groups| ==> |groups[j]| == 8
    decreases |groups|
  {
    if groups == [] then h else Groups8(Step8(h, groups[0]), groups[1..])
  }

  /** The single 4-byte step, as this implementation writes it. */
  function Step4(h: nat, group: seq<Byte>): nat
    requires |group| >= 4
  {
    var k := Mul64(Rotl64(Mul64(Le32(group), P1), 23), P2);
    Add64(Mul64(BitXor(h, k), P1), P4)
  }

  /** One trailing byte, as this implementation writes it. */
  function Step1(h: nat, b: Byte): nat
  {
    var k := Mul64(Rotl64(Mul64(b, P5), 11), P1);
    Add64(Mul64(Rotl64(BitXor(h, k), 11), P1), P4)
  }

  function Bytes1(h: nat, bs: seq<Byte>): nat
    decreases |bs|
  {
    if bs == [] then h else Bytes1(Step1(h, bs[0]), bs[1..])
  }

  /** The three tails of a remainder shorter than 32 bytes: 8-byte groups, at most one 4-byte group, single bytes. */
  function XxTails(h: nat, rest: seq<Byte>): nat
  {
    var h := Groups8(h, Chunks(rest, 8));
    var r := Remainder(rest, 8);
    if |r| >= 4 then Bytes1(Step4(h, r), r[4..]) else Bytes1(h, r)
  }

  function Avalanche(h: nat): nat
  {
    var h := BitXor(h, Shr(h, 33));
    var h := Mul64(h, P2);
    var h := BitXor(h, Shr(h, 29));
    var h := Mul64(h, P3);
    BitXor(h, Shr(h, 32))
  }

  /** `xxhash64(data, len, seed)` as written in c_impl/hash_utils.c. */
  function XxHash64(data: seq<Byte>, seed: nat): nat
  {
    Avalanche(XxTails(Add64(XxStart(data, seed), Len64(data)), Remainder(data, 32)))
  }

  /** `xxhash64` always fits its `uint64_t` result. */
  lemma XxHash64Range(data: seq<Byte>, seed: nat)
    ensures XxHash64(data, seed) < M64
  {
    var h := XxTails(Add64(XxStart(data, seed), Len64(data)), Remainder(data, 32));
    var g := Mul64(BitXor(h, Shr(h, 33)), P2);
    var g2 := Mul64(BitXor(g, Shr(g, 29)), P3);
    Pow2Of64();
    ShrAtMost(g2, 32);
    BitXorBelow(g2, Shr(g2, 32), 64);
  }

  /** One stripe step read straight from `d` at offset `i`. */
  lemma StripeStepSlices(d: seq<Byte>, i: nat, v: Lanes)
    requires i + 32 <= |d|
    ensures StripeStep(v, d[i..i + 32])
         == Lanes(XxRound(v.v1, Le64(d[i..i + 8])), XxRound(v.v2, Le64(d[i + 8..i + 16])),
                  XxRound(v.v3, Le64(d[i + 16..i + 24])), XxRound(v.v4, Le64(d[i + 24..i + 32])))
  {
    SliceOfSlice(d, i, 0, 32);
    SliceOfSlice(d, i, 8, 32);
    SliceOfSlice(d, i, 16, 32);
    SliceOfSlice(d, i, 24, 32);
  }

  /** `v += k * prime2; v = rotl(v, 31); v *= prime1` for one accumulator. */
  method LaneRound(v: nat, k: nat) returns (w: nat)
    ensures w == XxRound(v, k)
  {
    w := Add64(v, Mul64(k, P2));
    w := Rotl64(w, 31);
    w := Mul64(w, P1);
  }

  /** The body of the 8-byte tail loop on one group. */
  method Group8Round(h: nat, group: seq<Byte>) returns (h64: nat)
    requires |group| == 8
    ensures h64 == Step8(h, group)
  {
    var k1 := Le64(group);
    k1 := Mul64(k1, P2);
    k1 := Rotl64(k1, 31);
    k1 := Mul64(k1, P1);
    h64 := BitXor(h, k1);
    h64 := Rotl64(h64, 27);
    h64 := Add64(Mul64(h64, P1), P4);
  }

  /** One iteration of the stripe loop: four 8-byte lanes read at index, index + 8, index + 16, index + 24. */
  method StripeRound(data: seq<Byte>, index0: nat, v1: nat, v2: nat, v3: nat, v4: nat)
    returns (index: nat, w1: nat, w2: nat, w3: nat, w4: nat)
    requires index0 + 32 <= |data|
    ensures index == index0 + 32
    ensures Lanes(w1, w2, w3, w4) == StripeStep(Lanes(v1, v2, v3, v4), data[index0..index])
  {
    index := index0;
    var k1 := Le64(data[index..index + 8]);
    index := index + 8;
    w1 := LaneRound(v1, k1);
    var k2 := Le64(data[index..index + 8]);
    index := index + 8;
    w2 := LaneRound(v2, k2);
    var k3 := Le64(data[index..index + 8]);
    index := index + 8;
    w3 := LaneRound(v3, k3);
    var k4 := Le64(data[index..index + 8]);
    index := index + 8;
    w4 := LaneRound(v4, k4);
    StripeStepSlices(data, index0, Lanes(v1, v2, v3, v4));
  }

  /**
   * The stripe phase: with 32 bytes or more the loop runs while
   * `index <= len - 32`; either way it stops at the last multiple of 32.
   */
  method XxStripeLoop(data: seq<Byte>, seed: nat) returns (h64: nat, index: nat)
    requires seed < M64
    ensures index == |data| - |data| % 32 && index % 32 == 0 && |data| - index < 32
    ensures h64 == XxStart(data, seed)
  {
    index := 0;
    ghost var stripes := 0;
    if |data| >= 32 {
      var v1 := Add64(Add64(seed, P1), P2);
      var v2 := Add64(seed, P2);
      var v3 := seed;
      var v4 := Sub64(seed, P1);
      while index <= |data| - 32
        invariant index <= |data| && index == 32 * stripes
        invariant Stripes(Lanes(v1, v2, v3, v4), Chunks(data[index..], 32))
               == Stripes(InitLanes(seed), Chunks(data, 32))
      {
        ChunksStep(data, index, 32);
        index, v1, v2, v3, v4 := StripeRound(data, index, v1, v2, v3, v4);
        stripes := stripes + 1;
      }
      h64 := Converge(Lanes(v1, v2, v3, v4));
    } else {
      h64 := Add64(seed, P5);
    }
    DivModUnique(|data|, 32, stripes, |data| - index);
    DivModUnique(index, 32, stripes, 0);
  }

  /** Folding the groups from offset i: the first group, then the rest. */
  lemma Groups8Step(h: nat, d: seq<Byte>, i: nat)
    requires i + 8 <= |d|
    ensures Groups8(h, Chunks(d[i..], 8)) == Groups8(Step8(h, d[i..i + 8]), Chunks(d[i + 8..], 8))
  {
    ChunksStep(d, i, 8);
    var cs := Chunks(d[i..], 8);
    assert cs[0] == d[i..i + 8] && cs[1..] == Chunks(d[i + 8..], 8);
  }

  /** Where the 8-byte loop stops: no whole group is left, only the remainder. */
  lemma GroupsLeft(d: seq<Byte>, start: nat, index: nat, groups: nat)
    requires start <= index <= |d| < index + 8 && index == start + 8 * groups
    ensures d[index..] == Remainder(d[start..], 8) && Chunks(d[index..], 8) == []
  {
    DivModUnique(|d| - start, 8, groups, |d| - index);
    assert |d[start..]| - |d[start..]| % 8 == index - start;
  }

  /** The 8-byte tail loop: it runs while `index + 8 <= len` and leaves fewer than 8 bytes. */
  method Tail8Loop(data: seq<Byte>, start: nat, h: nat) returns (h64: nat, index: nat)
    requires start <= |data|
    ensures start <= index <= |data| && data[index..] == Remainder(data[start..], 8)
    ensures h64 == Groups8(h, Chunks(data[start..], 8))
  {
    h64 := h;
    index := start;
    ghost var rest := data[start..];
    ghost var groups := 0;
    while index + 8 <= |data|
      invariant start <= index <= |data| && index == start + 8 * groups
      invariant Groups8(h64, Chunks(data[index..], 8)) == Groups8(h, Chunks(rest, 8))
    {
      Groups8Step(h64, data, index);
      h64 := Group8Round(h64, data[index..index + 8]);
      index := index + 8;
      groups := groups + 1;
    }
    GroupsLeft(data, start, index, groups);
  }

  /** The 1-byte tail loop: it runs until `index == len`. */
  method Tail1Loop(data: seq<Byte>, start: nat, h: nat) returns (h64: nat, index: nat)
    requires start <= |data|
    ensures index == |data|
    ensures h64 == Bytes1(h, data[start..])
  {
    h64 := h;
    index := start;
    while index < |data|
      invariant start <= index <= |data|
      invariant Bytes1(h64, data[index..]) == Bytes1(h, data[start..])
    {
      assert data[index..][1..] == data[index + 1..];
      var k1 := data[index] as nat;
      index := index + 1;
      k1 := Mul64(k1, P5);
      k1 := Rotl64(k1, 11);
      k1 := Mul64(k1, P1);
      h64 := BitXor(h64, k1);
      h64 := Rotl64(h64, 11);
      h64 := Add64(Mul64(h64, P1), P4);
    }
  }

  /**
   * The tail phases starting at a multiple of 32: 8-byte groups, at most one
   * 4-byte group, then single bytes, consuming the rest exactly and ending
   * with `index == len`.
   */
  method XxTailLoops(data: seq<Byte>, start: nat, h: nat) returns (h64: nat, index: nat)
    requires start == |data| - |data| % 32
    ensures index == |data|
    ensures h64 == XxTails(h, Remainder(data, 32))
  {
    h64, index := Tail8Loop(data, start, h);
    ghost var r := data[index..];
    if index + 4 <= |data| {
      var k1 := Le32(data[index..index + 4]);
      assert k1 == Le32(r);
      index := index + 4;
      k1 := Mul64(k1, P1);
      k1 := Rotl64(k1, 23);
      k1 := Mul64(k1, P2);
      h64 := BitXor(h64, k1);
      h64 := Add64(Mul64(h64, P1), P4);
      assert data[index..] == r[4..];
    }
    h64, index := Tail1Loop(data, index, h64);
  }

  /** `xxhash64(data, len, seed)`. */
  method ComputeXxHash64(data: seq<Byte>, seed: nat) returns (h64: nat)
    requires seed < M64
    ensures h64 == XxHash64(data, seed)
  {
    var index;
    h64, index := XxStripeLoop(data, seed);
    h64 := Add64(h64, Len64(data));
    h64, index := XxTailLoops(data, index, h64);
    h64 := BitXor(h64, Shr(h64, 33));
    h64 := Mul64(h64, P2);
    h64 := BitXor(h64, Shr(h64, 29));
    h64 := Mul64(h64, P3);
    h64 := BitXor(h64, Shr(h64, 32));
  }
}
