# Optimized Bloom filter, modelled in Dafny

This project models the core of the optimized-bloom-filter repository. The core is two Bloom-filter variants, each written in C and in Python, plus the two hash functions the C standard filter uses.

- **Hash primitives** (`c_impl/hash_utils.c`):
  - `murmur3_32` is MurmurHash3_x86_32.
  - `xxhash64` is an XXH64-style hash.
  - Each is a method with its loops, proved equal to a recursive specification function over bytes. Words are little-endian. Arithmetic is written modulo 2^32 or 2^64.
- **Standard filter** (`c_impl/bloom_filter.c`, `bf_std/bloom_filter.py`, `standard_bf/bloom_filter.py`):
  - A flat bit array of `ceil(size/8)` bytes.
  - Each key sets or tests `k` bits at Kirsch–Mitzenmacher double-hashing indices `(h1 + i*h2) mod size`. A zero stride is moved to 1.
  - The C filter hashes with the modelled `murmur3_32` and `xxhash64`. Its index sum is taken modulo 2^64, as `uint64_t` arithmetic does.
  - The two Python files behave identically, and one class models both. The table cites `bf_std/bloom_filter.py`. The same members model `standard_bf/bloom_filter.py` as follows:
    - `__init__`: lines 18-28;
    - `add`: 30-35;
    - `update`: 37-40;
    - `__contains__`: 42-48;
    - `_hashes`: 50-58.
- **Blocked ("lightweight") filter** (`c_impl/lightweight_bloom_filter.c`, `bf_light/lightweight_bloom_filter.py`): every key touches one 64-bit word.
  - **C version:**
    - rounds the word count up to a power of two;
    - picks the word from the top `block_bits` bits of the digest;
    - draws bit positions from SplitMix64 (`& 63`).
  - **Python version:**
    - rounds the size up to a multiple of 64 bits;
    - picks word `h % num_words`;
    - draws positions from the top 6 bits of a Knuth MMIX linear congruential generator.
  - The two versions are modelled separately, each as written.

Modules, one per file:
- `NatBits`: shifts and bitwise operations on naturals, with their lemmas.
- `HashUtils`: byte, word and hash definitions.
- `Wrappers`: `Option` and `Result`.
- `ByteBits`: the byte-array bit set that both standard filters use.
- `DoubleHashing`: the probe sequence.
- `CStrings`: a C key is the bytes before the first NUL.
- `CBloomFilter`: the C standard filter.
- `CLightweightBloomFilter`: the C blocked filter.
- `PyBloomFilter`: the Python standard filter.
- `PyLightweightBloomFilter`: the Python blocked filter.

Each C filter is a class whose fields mirror the C struct. `bloom_init`, `bloom_free`, `lbf_init` and `lbf_free` take a possibly-null reference. A NULL `item` is `None`.

Every filter operation is proved against a specification function:
- `WithBits`/`AllSet` for the byte filters;
- `Insert`/`Member` for the word filters.

The no-false-negative property is then proved about those functions, for any later sequence of adds.

## Model

| member | source | states |
|---|---|---|
| HashUtils.Murmur3 | c_impl/hash_utils.c:5-53 | the specification of `murmur3_32`: 4-byte little-endian blocks, then the tail, the length xor and fmix32, all modulo 2^32; its range is stated by `Murmur3Range` |
| HashUtils.ComputeMurmur3 | c_impl/hash_utils.c:5-53 | the loop implementation returns exactly the specification `Murmur3(data, seed)`: blocks, tail, length xor, fmix32 |
| HashUtils.MurmurBlockLoop | c_impl/hash_utils.c:9-23 | the block loop consumes exactly `floor(len/4)` blocks, leaves `i == len - len % 4` (a multiple of 4), and folds the blocks in order |
| HashUtils.MurmurTailSwitch | c_impl/hash_utils.c:25-43 | the fall-through switch folds exactly the `len % 4` bytes left after the blocks |
| HashUtils.MurmurTail | c_impl/hash_utils.c:25-43 | an empty tail (len a multiple of 4) leaves `h1` unchanged |
| HashUtils.ChunksCover | c_impl/hash_utils.c:11-26 | the blocks followed by the tail are exactly the input, so every byte is consumed once and the tail is shorter than a block |
| HashUtils.Murmur3Range | c_impl/hash_utils.c:5-53 | the hash fits in 32 bits |
| HashUtils.Murmur3EmptyZeroSeed | c_impl/hash_utils.c:8-52 | the empty input under seed 0 hashes to 0 |
| HashUtils.ZeroFmix32 | c_impl/hash_utils.c:46-50 | the fmix32 finaliser maps 0 to 0 |
| HashUtils.XxHash64 | c_impl/hash_utils.c:55-174 | the specification of `xxhash64` as this file writes it: lanes and convergence from 32 bytes up, the length, 8-byte groups, at most one 4-byte step, single bytes and the avalanche, all modulo 2^64; its range is stated by `XxHash64Range` |
| HashUtils.Step4 | c_impl/hash_utils.c:145-155 | the 4-byte step as written: the word times prime1, rotated by 23, times prime2, xored into the state, then `h64 * prime1 + prime4` |
| HashUtils.Step1 | c_impl/hash_utils.c:157-165 | one trailing byte as written: the byte times prime5, rotated by 11, times prime1, xored in, the state rotated by 11, then `h64 * prime1 + prime4` |
| HashUtils.ComputeXxHash64 | c_impl/hash_utils.c:55-174 | the loop implementation returns exactly the specification `XxHash64(data, seed)` |
| HashUtils.XxStart | c_impl/hash_utils.c:65-129 | below 32 bytes the accumulator path is skipped and the state starts at `seed + prime5` modulo 2^64 |
| HashUtils.XxStripeLoop | c_impl/hash_utils.c:62-129 | the stripe loop leaves `index` a multiple of 32 with `len - index < 32`; the state equals the lane initialisation, stripes and convergence of the specification |
| HashUtils.StripeRound | c_impl/hash_utils.c:72-98 | one stripe advances `index` by 32 and updates the four lanes as one specification stripe step |
| HashUtils.LaneRound | c_impl/hash_utils.c:75-77 | one lane update (add `k*prime2`, rotate left by 31, times prime1, all modulo 2^64) is the specification round `XxRound` |
| HashUtils.Tail8Loop | c_impl/hash_utils.c:133-143 | the 8-byte loop folds every whole 8-byte group and stops with fewer than 8 bytes left, never reading past `len` |
| HashUtils.Group8Round | c_impl/hash_utils.c:134-142 | the body of the 8-byte loop on one group is the specification step `Step8` |
| HashUtils.Tail1Loop | c_impl/hash_utils.c:157-165 | the single-byte loop folds every remaining byte and stops at `index == len` |
| HashUtils.XxTailLoops | c_impl/hash_utils.c:133-165 | the tail phases consume the rest after the stripes exactly, at most one 4-byte group included, ending at `index == len` |
| HashUtils.XxHash64Range | c_impl/hash_utils.c:55-174 | the hash fits in 64 bits |
| ByteBits.ByteLength | c_impl/bloom_filter.c:23 | `(n + 7) / 8` is the ceiling of n/8: the bytes hold n bits, with fewer than 8 to spare |
| ByteBits.Mask | c_impl/bloom_filter.c:10 | `1 << (j & 7)` is a byte whose only set bit is bit `j mod 8` |
| ByteBits.ByteOr | c_impl/bloom_filter.c:10 | or-ing a mask into a byte gives a byte in which bit i is set exactly when it is set in either operand |
| ByteBits.IsSet | c_impl/bloom_filter.c:13-15 | `bloom_bit_is_set`: byte `j >> 3` and-ed with the mask is non-zero; its meaning is stated by `IsSetBit` |
| ByteBits.WithBit | c_impl/bloom_filter.c:9-11 | `bloom_set_bit`: byte `j >> 3` or-ed with the mask; its effect is stated by `WithBitIsSet` |
| ByteBits.IsSetBit | c_impl/bloom_filter.c:13-15 | the bit test is true exactly when bit `j mod 8` of byte `j / 8` is 1 |
| ByteBits.WithBitIsSet | c_impl/bloom_filter.c:9-11 | after setting bit p, bit j is set exactly when it was before or `j == p` |
| ByteBits.WithBits | c_impl/bloom_filter.c:59-62 | setting the probe bits keeps the buffer length |
| ByteBits.WithBitsIsSet | c_impl/bloom_filter.c:59-62 | after setting the probes, bit j is set exactly when it was before or j is a probe: inserts only set bits and set no other |
| ByteBits.WithBitsFrame | c_impl/bloom_filter.c:59-62 | every byte no probe falls in is unchanged |
| ByteBits.WithBitsMonotone | c_impl/bloom_filter.c:59-62 | probes that were all set stay all set after another add |
| ByteBits.WithBitsAllSet | c_impl/bloom_filter.c:46-86 | after an add every probe of that key is set |
| ByteBits.WithAll | bf_std/bloom_filter.py:47-50 | a sequence of adds keeps the buffer length |
| ByteBits.WithAllAllSet | bf_std/bloom_filter.py:40-59 | after a sequence of adds, every added key has all its probes set |
| ByteBits.ZeroNoneSet | c_impl/bloom_filter.c:65-85 | in an all-zero buffer no non-empty probe list is all set |
| DoubleHashing.Stride | c_impl/bloom_filter.c:54-57 | the clamped stride is never 0: it lies in `[1, max(1, size-1)]`, and it is `h mod size` whenever that is not 0 |
| DoubleHashing.Probes | bf_std/bloom_filter.py:71-72 | exactly k indices, each in `[0, size)` |
| DoubleHashing.WrappedProbes | c_impl/bloom_filter.c:59-60 | the C indices, with the sum taken modulo 2^64: exactly k, each `< size_bits` |
| DoubleHashing.WrappedProbe | c_impl/bloom_filter.c:60 | one C index `(h1 + i*h2) % size_bits` in 64-bit arithmetic is `< size_bits` |
| DoubleHashing.ProbesStep | bf_std/bloom_filter.py:71-72 | consecutive indices differ by the stride modulo size (an arithmetic progression) |
| DoubleHashing.WrappedProbesExact | c_impl/bloom_filter.c:60 | for 32-bit h1 and stride and at most 2^32 probes, the 64-bit sum never wraps and the C indices equal the exact ones |
| CStrings.StrLen | c_impl/bloom_filter.c:52 | `strlen` is the index of the first NUL |
| CStrings.Key | c_impl/bloom_filter.c:51-52 | the key is the NUL-free prefix before the terminator |
| CStrings.KeyIgnoresTail | c_impl/lightweight_bloom_filter.c:67 | bytes after the terminator do not affect the key |
| CBloomFilter.ByteLengthAsWritten | c_impl/bloom_filter.c:23 | `(size_bits + 7u) / 8u` in 64-bit `size_t` arithmetic; `ByteLengthAsWrittenAgrees` and `ByteLengthWrapsAtSizeMax` state what it gives |
| CBloomFilter.ByteLengthAsWrittenAgrees | c_impl/bloom_filter.c:23 | while `size_bits + 7` does not wrap, the C byte count is the ceiling of size_bits/8 |
| CBloomFilter.ByteLengthWrapsAtSizeMax | c_impl/bloom_filter.c:23 | for `SIZE_MAX` bits the C byte count wraps to 0, far fewer than the bits need |
| CBloomFilter.KeyProbes | c_impl/bloom_filter.c:53-60 | a key has `num_hashes` probes, each `< size_bits`, so every byte index is `< byte_length` |
| CBloomFilter.ProbesOf | c_impl/bloom_filter.c:53-60 | the probes of a key in an initialised filter index inside its buffer |
| CBloomFilter.KeyProbesExact | c_impl/bloom_filter.c:60 | for `size_bits <= 2^32` the C probes are exactly `(h1 + i*h2) mod size_bits` |
| CBloomFilter.Inserted | c_impl/bloom_filter.c:46-63 | adding a sequence of keys keeps the buffer length |
| CBloomFilter.NoFalseNegatives | c_impl/bloom_filter.c:46-86 | after any sequence of adds, every added key has all its probe bits set: `bloom_contains` answers true |
| CBloomFilter.FreshFilterRejects | c_impl/bloom_filter.c:65-85 | a zeroed buffer with at least one hash answers false for every key |
| CBloomFilter.SetBit | c_impl/bloom_filter.c:9-11 | `bloom_set_bit` sets exactly that bit in the array |
| CBloomFilter.Init | c_impl/bloom_filter.c:17-36 | success exactly when filter is non-null, `size_bits >= 1`, `num_hashes != 0` and the byte count does not wrap; on failure nothing is written; on success the fields equal the arguments, `byte_length == ceil(size_bits/8)` and all bytes are 0 |
| CBloomFilter.Free | c_impl/bloom_filter.c:38-44 | the struct is zeroed, and a null filter is ignored |
| CBloomFilter.KeyHashes | c_impl/bloom_filter.c:51-57 | h1 is the 32-bit `murmur3_32` of the key, h2 the clamped stride of its `xxhash64` |
| CBloomFilter.SetProbes | c_impl/bloom_filter.c:59-62 | the set loop turns the buffer into the old buffer with exactly the key's probe bits set, every index inside the buffer |
| CBloomFilter.TestProbes | c_impl/bloom_filter.c:78-85 | the test loop answers true exactly when every probe bit is set, returning false at the first clear one; it reads the buffer only |
| CBloomFilter.Add | c_impl/bloom_filter.c:46-63 | a null filter or item changes nothing (an initialised filter is needed only for a non-null item); otherwise the filter stays initialised, keeps its buffer, and the buffer becomes the old buffer with exactly the key's probe bits set |
| CBloomFilter.Contains | c_impl/bloom_filter.c:65-86 | true exactly when filter and item are non-null and every probe bit of the key is set; it modifies nothing |
| CLightweightBloomFilter.Smear | c_impl/lightweight_bloom_filter.c:113-121 | the or-shift cascade by 1, 2, 4, 8, 16 and 32 on a 64-bit value; `SmearAllOnes` states its result |
| CLightweightBloomFilter.NextPowerOfTwo | c_impl/lightweight_bloom_filter.c:107-123 | `next_power_of_two` as written: 1 up to 1, else the smear of `value - 1` plus 1 modulo 2^64; `NextPowerOfTwoIsLeast` and `NextPowerOfTwoWraps` state its result |
| CLightweightBloomFilter.SmearStep | c_impl/lightweight_bloom_filter.c:114-120 | each or-shift step doubles the run of top one-bits and keeps the value below its power of two |
| CLightweightBloomFilter.SmearAllOnes | c_impl/lightweight_bloom_filter.c:113-121 | the smear turns an n-bit value into `2^n - 1` |
| CLightweightBloomFilter.NextPowerOfTwoExact | c_impl/lightweight_bloom_filter.c:107-123 | for `2 <= v <= 2^63` the result is 2 to the bit length of `v - 1` |
| CLightweightBloomFilter.SmearedPlusOne | c_impl/lightweight_bloom_filter.c:122 | when `value - 1` smears to `p - 1`, the final `+ 1` returns p, or wraps to 0 when p is 2^64 |
| CLightweightBloomFilter.NextPowerOfTwoIsLeast | c_impl/lightweight_bloom_filter.c:107-123 | for `v <= 2^63` the result is `2^ceil(log2 v)`, at least v and at most every power of two that is at least v (1 for `v <= 1`) |
| CLightweightBloomFilter.CeilLog2IsLeast | c_impl/lightweight_bloom_filter.c:107-123 | `2^ceil(log2 v)` reaches v and is at most every power of two that reaches v |
| CLightweightBloomFilter.NextPowerOfTwoWraps | c_impl/lightweight_bloom_filter.c:107-123 | the function on its own: for an argument above 2^63 the final `+ 1` wraps and the result is 0; `lbf_init` never passes such an argument (`RequestBelowPow58`) |
| CLightweightBloomFilter.BlockIndexFromHash | c_impl/lightweight_bloom_filter.c:125-132 | the block index never exceeds the mask |
| CLightweightBloomFilter.BlockIndexIsTopBits | c_impl/lightweight_bloom_filter.c:125-132 | with a power-of-two mask the index is below the word count, and for `block_bits >= 1` it is the top `block_bits` bits of the digest |
| CLightweightBloomFilter.BlockOf | c_impl/lightweight_bloom_filter.c:69 | the selected word is `< word_count` |
| CLightweightBloomFilter.Mix64 | c_impl/lightweight_bloom_filter.c:141-143 | the two-round mix is a 64-bit value |
| CLightweightBloomFilter.SplitMix64Next | c_impl/lightweight_bloom_filter.c:134-145 | the state advances by `0x9E3779B97F4A7C15` modulo 2^64 and the output is the mix of the new state, a function of the old state alone |
| CLightweightBloomFilter.DrawPosition | c_impl/lightweight_bloom_filter.c:75 | `splitmix & 63` is a bit position in 0..63 |
| CLightweightBloomFilter.BitPositions | c_impl/lightweight_bloom_filter.c:73-77 | exactly `num_hashes` positions, each in 0..63 |
| CLightweightBloomFilter.CoversStep | c_impl/lightweight_bloom_filter.c:95-102 | the positions are all set exactly when the first drawn one is and the rest, drawn from the next state, are |
| CLightweightBloomFilter.SetPosition | c_impl/lightweight_bloom_filter.c:76 | setting position p keeps a 64-bit word in which bit i is set exactly when it was before or `i == p` |
| CLightweightBloomFilter.WithPositions | c_impl/lightweight_bloom_filter.c:73-77 | the word after the set loop, one position after another; `WithPositionsBit` states its bits |
| CLightweightBloomFilter.WithPositionsBit | c_impl/lightweight_bloom_filter.c:73-77 | after the loop, bit b of the word is set exactly when it was or b was drawn |
| CLightweightBloomFilter.Member | c_impl/lightweight_bloom_filter.c:82-105 | what `lbf_contains` answers: every drawn position is set in the selected word; `InsertThenMember`, `InsertKeepsMember` and `FreshTableRejects` state its properties |
| CLightweightBloomFilter.Insert | c_impl/lightweight_bloom_filter.c:67-79 | an add keeps the word count |
| CLightweightBloomFilter.InsertSetsOnly | c_impl/lightweight_bloom_filter.c:67-79 | an add changes only the selected word, and in it sets exactly the drawn positions |
| CLightweightBloomFilter.InsertThenMember | c_impl/lightweight_bloom_filter.c:60-105 | after adding a key, `lbf_contains` of it is true |
| CLightweightBloomFilter.InsertKeepsMember | c_impl/lightweight_bloom_filter.c:60-105 | a later add never makes a member test false |
| CLightweightBloomFilter.InsertAll | c_impl/lightweight_bloom_filter.c:60-80 | a sequence of adds keeps the word count |
| CLightweightBloomFilter.NoFalseNegatives | c_impl/lightweight_bloom_filter.c:60-105 | after any sequence of adds, every added key tests present |
| CLightweightBloomFilter.FreshTableRejects | c_impl/lightweight_bloom_filter.c:82-105 | all-zero words with at least one hash answer false for every key |
| CLightweightBloomFilter.RequestedWords | c_impl/lightweight_bloom_filter.c:21 | `(size_bits + 63) / 64` without wrap-around is the ceiling of size_bits/64 |
| CLightweightBloomFilter.WordCountAsWritten | c_impl/lightweight_bloom_filter.c:21-26 | the word count as written, with the 64-bit wrap of `size_bits + 63` and the clamp of 0 to 1; `SizeMaxGetsOneWord` and `LargeRequestStoresZeroBits` state what it gives |
| CLightweightBloomFilter.SizeMaxGetsOneWord | c_impl/lightweight_bloom_filter.c:21-26 | as written, a request of `SIZE_MAX` bits wraps, is clamped to 1 word, and yields 64 bits, fewer than requested |
| CLightweightBloomFilter.SizeBitsAsWritten | c_impl/lightweight_bloom_filter.c:33 | the stored `size_bits = word_count * 64u` as written, modulo 2^64 |
| CLightweightBloomFilter.RequestBelowPow58 | c_impl/lightweight_bloom_filter.c:21-26 | for any 64-bit request, `(size_bits + 63) / 64` in 64-bit arithmetic is below 2^58, so `next_power_of_two` is never called above 2^63 |
| CLightweightBloomFilter.LargeRequestWords | c_impl/lightweight_bloom_filter.c:21 | for `2^63 < size_bits <= SIZE_MAX - 63` the sum does not wrap and the request is between 2^57 (exclusive) and 2^58 words |
| CLightweightBloomFilter.LargeRequestStoresZeroBits | c_impl/lightweight_bloom_filter.c:21-33 | as written, for `2^63 < size_bits <= SIZE_MAX - 63` the word count is 2^58 and the stored `size_bits` wraps to 0 |
| CLightweightBloomFilter.CountBlockBits | c_impl/lightweight_bloom_filter.c:38-45 | the halving loop computes log2: `2^block_bits == word_count` (0 when `word_count == 1`) |
| CLightweightBloomFilter.WordCount | c_impl/lightweight_bloom_filter.c:21-26 | the word count is `2^ceil(log2(requested))`, holds at least size_bits bits, and is the least power of two that does |
| CLightweightBloomFilter.LightweightBloomFilter.constructor | c_impl/lightweight_bloom_filter.h:12-20 | a zero-initialised struct (every field 0, `bit_array` NULL) whose adds and tests all use the one given `XXH64` |
| CLightweightBloomFilter.Init | c_impl/lightweight_bloom_filter.c:13-48 | success exactly when filter is non-null, `size_bits >= 1`, `num_hashes != 0` and the request is at most 2^63 bits; on failure nothing is written; on success the word count is the least power of two holding the request, `size_bits == 64*word_count >= request`, `word_mask == word_count - 1`, `2^block_bits == word_count`, and every word is 0 |
| CLightweightBloomFilter.Free | c_impl/lightweight_bloom_filter.c:50-58 | the struct is zeroed, and a null filter is ignored |
| CLightweightBloomFilter.SetPositions | c_impl/lightweight_bloom_filter.c:70-77 | the set loop ors exactly the drawn positions into the word |
| CLightweightBloomFilter.Add | c_impl/lightweight_bloom_filter.c:60-80 | a null filter or item changes nothing (an initialised filter is needed only for a non-null item); otherwise the filter stays initialised and the words become `Insert` of the key's digest under the filter's own `XXH64` and seed |
| CLightweightBloomFilter.TestPositions | c_impl/lightweight_bloom_filter.c:92-104 | the test loop is true exactly when every drawn position is set, false at the first clear one |
| CLightweightBloomFilter.Contains | c_impl/lightweight_bloom_filter.c:82-105 | true exactly when filter and item are non-null and the key, hashed with the filter's own `XXH64` and seed, is a `Member`; it modifies nothing |
| PyBloomFilter.BloomFilter.constructor | bf_std/bloom_filter.py:34-38 | a valid filter holding `(size+7)//8` zero bytes and its arguments unchanged |
| PyBloomFilter.BloomFilter.New | bf_std/bloom_filter.py:17-38 | `ValueError("size must be positive")` when `size <= 0`, else `ValueError("num_hashes must be positive")` when `num_hashes <= 0`, else a new zeroed filter with the given parameters, encoding and hash functions |
| PyBloomFilter.BloomFilter.Hashes | bf_std/bloom_filter.py:61-72 | `_hashes` yields exactly `num_hashes` indices, each in `[0, size)` and so inside the byte array |
| PyBloomFilter.BloomFilter.HashLists | bf_std/bloom_filter.py:47-50 | the index lists of the items, in order, all inside the array |
| PyBloomFilter.BloomFilter.Add | bf_std/bloom_filter.py:40-45 | the bytes become the old bytes with exactly the item's index bits set |
| PyBloomFilter.BloomFilter.Update | bf_std/bloom_filter.py:47-50 | `update` equals `add` of each item in order |
| PyBloomFilter.BloomFilter.Contains | bf_std/bloom_filter.py:52-59 | true exactly when every index bit of the item is set; nothing is modified |
| PyBloomFilter.NoFalseNegatives | bf_std/bloom_filter.py:40-59 | after `update(items)` from any state, every item tests present |
| PyBloomFilter.FreshFilterRejects | bf_std/bloom_filter.py:52-59 | a filter whose bytes are all 0 answers false for every item |
| PyLightweightBloomFilter.LcgNext | bf_light/lightweight_bloom_filter.py:70-72 | masking with `0xFFFFFFFFFFFFFFFF` keeps the state `(h*a + c) mod 2^64`, in `[0, 2^64)` |
| PyLightweightBloomFilter.LcgNextIsMasked | bf_light/lightweight_bloom_filter.py:70-72 | the step taken modulo 2^64 equals the source's `& 0xFFFFFFFFFFFFFFFF` mask |
| PyLightweightBloomFilter.BitPos | bf_light/lightweight_bloom_filter.py:73 | `state >> 58` lies in 0..63 |
| PyLightweightBloomFilter.BitPosIsShift | bf_light/lightweight_bloom_filter.py:73 | dividing by 2^58 is the shift `current_h >> 58` |
| PyLightweightBloomFilter.Positions | bf_light/lightweight_bloom_filter.py:66-74 | exactly `num_hashes` positions, each in 0..63 |
| PyLightweightBloomFilter.MaskWithBit | bf_light/lightweight_bloom_filter.py:74 | after or-ing in positions, bit b of the mask is set exactly when it was or b is one of them |
| PyLightweightBloomFilter.MaskWithBelow | bf_light/lightweight_bloom_filter.py:74 | the mask stays a 64-bit value |
| PyLightweightBloomFilter.ItemMask | bf_light/lightweight_bloom_filter.py:61-74 | the mask both `add` and `__contains__` build: 0 with one bit or-ed in per drawn position; `ItemMaskBits` and `ItemMaskPopCount` state its bits |
| PyLightweightBloomFilter.ItemMaskBits | bf_light/lightweight_bloom_filter.py:61-74 | the bits of the mask are exactly the drawn positions |
| PyLightweightBloomFilter.ItemMaskPopCount | bf_light/lightweight_bloom_filter.py:61-74 | the mask has at least 1 and at most `num_hashes` bits set |
| PyLightweightBloomFilter.BuildMask | bf_light/lightweight_bloom_filter.py:61-74 | the loop builds exactly the item's mask |
| PyLightweightBloomFilter.WordOr | bf_light/lightweight_bloom_filter.py:77 | or-ing the mask into a word gives a `'Q'` value in which bit i is set exactly when it is set in the word or the mask |
| PyLightweightBloomFilter.Insert | bf_light/lightweight_bloom_filter.py:52-77 | an add keeps the word count |
| PyLightweightBloomFilter.InsertSetsOnly | bf_light/lightweight_bloom_filter.py:77 | only word `h % num_words` changes, and in it exactly the drawn positions are added |
| PyLightweightBloomFilter.Member | bf_light/lightweight_bloom_filter.py:84-99 | what `item in filter` answers: `(word & mask) == mask` for word `h % num_words`; `MemberMeaning`, `InsertThenMember` and `FreshArrayRejects` state its properties |
| PyLightweightBloomFilter.MemberMeaning | bf_light/lightweight_bloom_filter.py:99 | `(word & mask) == mask` holds exactly when every drawn position is set in the word |
| PyLightweightBloomFilter.InsertThenMember | bf_light/lightweight_bloom_filter.py:49-99 | after `add(x)`, `x in f` is true |
| PyLightweightBloomFilter.InsertKeepsMember | bf_light/lightweight_bloom_filter.py:49-99 | a later add never makes a member test false |
| PyLightweightBloomFilter.InsertAll | bf_light/lightweight_bloom_filter.py:79-82 | a sequence of adds keeps the word count |
| PyLightweightBloomFilter.NoFalseNegatives | bf_light/lightweight_bloom_filter.py:79-99 | after any sequence of adds, every added item tests present |
| PyLightweightBloomFilter.FreshArrayRejects | bf_light/lightweight_bloom_filter.py:84-99 | all-zero words answer false for every item, since the mask is not 0 |
| PyLightweightBloomFilter.LightweightBloomFilter.constructor | bf_light/lightweight_bloom_filter.py:40-47 | `num_words == ceil(size/64) >= 1`, `size == 64*num_words >= size requested`, every word 0, parameters stored |
| PyLightweightBloomFilter.LightweightBloomFilter.New | bf_light/lightweight_bloom_filter.py:27-47 | `ValueError` when `size <= 0`, then when `num_hashes <= 0`; otherwise a new zeroed filter rounded to whole words, holding the given seed and hash function |
| PyLightweightBloomFilter.LightweightBloomFilter.Digests | bf_light/lightweight_bloom_filter.py:79-82 | the digests of the items, in order |
| PyLightweightBloomFilter.LightweightBloomFilter.Add | bf_light/lightweight_bloom_filter.py:49-77 | the words become `Insert` of the item's digest: one word or-ed with the mask |
| PyLightweightBloomFilter.LightweightBloomFilter.Update | bf_light/lightweight_bloom_filter.py:79-82 | `update` equals `add` of each item in order |
| PyLightweightBloomFilter.LightweightBloomFilter.Contains | bf_light/lightweight_bloom_filter.py:84-99 | true exactly when the item is a `Member`: `(word & mask) == mask`; nothing is modified |

## Left out

- **Foreign hash libraries and text encoding.** Python's `mmh3.hash(..., signed=False)`, `xxhash.xxh64(...).intdigest()` and `str.encode("utf-8")` are not part of this model. The C blocked filter's `XXH64` from the xxHash library is not part of it either. Each filter receives these as functions fixed when it is created; for the C blocked filter this is its constructor's argument, since the C struct has no hash field and always calls the one library. The properties need only that they are deterministic and that their results fit 32 or 64 bits.
- **Allocation failure.** A NULL from `calloc` is not modelled: init always gets its buffer. The model also has no `free`; `Free` drops the reference when it zeroes the struct.
- **Operations on a freed or uninitialised C filter.** These would divide by `size_bits == 0`. `Add` and `Contains` require an initialised filter when both the filter and the item are non-null.
- **C argument types.** `uint32_t` hash counts and seeds, and `size_t`/`uint64_t` sizes, are preconditions bounding the naturals. `size_t` is taken to be 64 bits wide, so `next_power_of_two` always includes its `value >> 32` step. The 32-bit `size_t` build is not modelled.
- **The `bit_array` property** of the Python classes only returns the array. The model's `bitArray` field is read directly.
- **xxhash64 tail steps.** The model follows `c_impl/hash_utils.c` as written:
  - The 4-byte tail step mixes the word on its own (times prime1, rotate by 23, times prime2), then xors it in and does `h64 * prime1 + prime4`.
  - The single-byte step mixes the byte on its own, then rotates the state by 11 before `h64 * prime1 + prime4`.

  Published XXH64 folds these lanes into the state differently, so digests can differ from the reference library. Nothing here claims agreement with it, and the C standard filter's properties do not depend on it.
- **The benchmark drivers and test suites.** These are `c_impl/test_bloom_filters.c`, `python_impl/test_suite.py` and `standard_bf/test_suite.py`. They do timing, UUIDs, CSV files, printing and floating-point rates, so they are not part of this model. Neither is the stub `standard_bf/examples.py`.
- **Python default arguments.** The Python constructors' defaults (`seed1=0, seed2=0` in the standard filter, `seed=0` in the blocked filter) are not modelled as defaults: callers of `New` pass every argument explicitly.
- **Statistical quality.** False-positive probability and hash avalanche behaviour are statistical claims, so they are not modelled.
- **Python integer sizes.** In `bf_std` and `standard_bf`, `(h1 + i*h2) % size` is exact on Python's unbounded integers, and so is the model's `Probes`. In the C filter, the 64-bit wrap is modelled as `WrappedProbes`.

## Findings

| source | as written | input that shows it | evidently intended | confidence | as-written member | corrected member |
|---|---|---|---|---|---|---|
| c_impl/bloom_filter.c:23 | `byte_length = (size_bits + 7u) / 8u` with no overflow guard; the sum wraps for `size_bits > SIZE_MAX - 7` | `size_bits == SIZE_MAX`: `byte_length` is 0 while `size_bits` stays `SIZE_MAX`, so every probe index points past the buffer | init fails unless the buffer holds `size_bits` bits | not executed | CBloomFilter.ByteLengthWrapsAtSizeMax | CBloomFilter.Init |
| c_impl/lightweight_bloom_filter.c:21-26 | `requested_words = (size_bits + 63u) / 64u` wraps for `size_bits > SIZE_MAX - 63`, and the clamp to 1 then hides it | `size_bits == SIZE_MAX`: the filter is created with 1 word, so the stored `size_bits` is 64, far below the request | init fails unless `word_count * 64` bits cover the request, which needs `size_bits <= 2^63` | not executed | CLightweightBloomFilter.SizeMaxGetsOneWord | CLightweightBloomFilter.Init |
| c_impl/lightweight_bloom_filter.c:33 | `filter->size_bits = word_count * 64u` in `size_t` arithmetic; for `2^63 < size_bits <= SIZE_MAX - 63` the request rounds up to 2^58 words and the product 2^64 wraps | `size_bits == 2^63 + 1`: `word_count` is 2^58 and the stored `size_bits` is 0 | init fails unless `word_count * 64` bits cover the request, which needs `size_bits <= 2^63` | not executed; it also needs `calloc` of 2^61 bytes to succeed | CLightweightBloomFilter.LargeRequestStoresZeroBits | CLightweightBloomFilter.Init |
