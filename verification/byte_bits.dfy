/**
 * A bit set stored in a byte buffer: bit j lives in byte `j >> 3` at position
 * `j & 7` (that is, byte j / 8, position j % 8). Both standard filters, the C
 * `uint8_t *bit_array` and the Python `bytearray`, use this layout and set and
 * test bits the same way.
 */
module ByteBits {
  import opened NatBits
  import opened HashUtils

  /** The number of bytes that hold n bits, `(n + 7) / 8`: the ceiling of n / 8. */
  function ByteLength(n: nat): (len: nat)
    ensures 8 * len >= n
    ensures 8 * len < n + 8
  {
    (n + 7) / 8
  }

  /** `1 << (j & 7)`: the mask selecting bit j inside its byte. */
  function Mask(j: nat): (m: Byte)
    ensures forall i :: Bit(m, i) == (i == j % 8)
  {
    Pow2Monotone(j % 8, 7);
    Pow2Bits(j % 8);
    Pow2(j % 8)
  }

  /** `a | b` on two bytes, which is again a byte. */
  function ByteOr(a: Byte, b: Byte): (r: Byte)
    ensures forall i :: Bit(r, i) == (Bit(a, i) || Bit(b, i))
  {
    Pow2Of32();
    BitOrBelow(a, b, 8);
    BitOrBits(a, b);
    BitOr(a, b)
  }

  /** Bit j of the buffer: `(bytes[j >> 3] & (1 << (j & 7))) != 0`. */
  predicate IsSet(bytes: seq<Byte>, j: nat)
    requires j / 8 < |bytes|
  {
    BitAnd(bytes[j / 8], Mask(j)) != 0
  }

  /** The buffer after `bytes[j >> 3] |= 1 << (j & 7)`. */
  function WithBit(bytes: seq<Byte>, j: nat): seq<Byte>
    requires j / 8 < |bytes|
  {
    bytes[j / 8 := ByteOr(bytes[j / 8], Mask(j))]
  }

  /** Every index of ps addresses a byte of a buffer of length n. */
  predicate InBounds(n: nat, ps: seq<nat>)
  {
    forall i :: 0 <= i < |ps| ==> ps[i] / 8 < n
  }

  /** The buffer after setting the bits at ps, in order. */
  function WithBits(bytes: seq<Byte>, ps: seq<nat>): (r: seq<Byte>)
    requires InBounds(|bytes|, ps)
    ensures |r| == |bytes|
    decreases |ps|
  {
    if ps == [] then bytes
    else WithBit(WithBits(bytes, ps[..|ps| - 1]), ps[|ps| - 1])
  }

  /** Every bit at ps is set. */
  predicate AllSet(bytes: seq<Byte>, ps: seq<nat>)
    requires InBounds(|bytes|, ps)
  {
    forall i :: 0 <= i < |ps| ==> IsSet(bytes, ps[i])
  }

  /** Every byte is 0, as `calloc` and `bytearray(n)` leave them. */
  predicate Zero(bytes: seq<Byte>)
  {
    forall x :: 0 <= x < |bytes| ==> bytes[x] == 0
  }

  /** Testing a bit reads bit j % 8 of byte j / 8. */
  lemma IsSetBit(bytes: seq<Byte>, j: nat)
    requires j / 8 < |bytes|
    ensures IsSet(bytes, j) == Bit(bytes[j / 8], j % 8)
  {
    BitAndPow2(bytes[j / 8], j % 8);
  }

  /** After setting bit p, bit j is set exactly when it was set before or j is p. */
  lemma WithBitIsSet(bytes: seq<Byte>, p: nat, j: nat)
    requires p / 8 < |bytes| && j / 8 < |bytes|
    ensures IsSet(WithBit(bytes, p), j) == (IsSet(bytes, j) || j == p)
  {
    var r := WithBit(bytes, p);
    IsSetBit(r, j);
    IsSetBit(bytes, j);
    if j / 8 == p / 8 {
      BitOrBit(bytes[p / 8], Mask(p), j % 8);
      BitOfPow2(p % 8, j % 8);
      assert j == 8 * (j / 8) + j % 8 && p == 8 * (p / 8) + p % 8;
    }
  }

  /**
   * Setting the bits at ps sets exactly those bits: a bit is set afterwards
   * exactly when it was set before or it is one of ps. No bit is cleared.
   */
  lemma {:induction false} WithBitsIsSet(bytes: seq<Byte>, ps: seq<nat>, j: nat)
    requires InBounds(|bytes|, ps) && j / 8 < |bytes|
    ensures IsSet(WithBits(bytes, ps), j) == (IsSet(bytes, j) || j in ps)
    decreases |ps|
  {
    if ps != [] {
      var init := ps[..|ps| - 1];
      assert ps == init + [ps[|ps| - 1]];
      WithBitsIsSet(bytes, init, j);
      WithBitIsSet(WithBits(bytes, init), ps[|ps| - 1], j);
    }
  }

  /** A byte that none of ps addresses is left as it was. */
  lemma {:induction false} WithBitsFrame(bytes: seq<Byte>, ps: seq<nat>, x: nat)
    requires InBounds(|bytes|, ps) && x < |bytes|
    requires forall i :: 0 <= i < |ps| ==> ps[i] / 8 != x
    ensures WithBits(bytes, ps)[x] == bytes[x]
    decreases |ps|
  {
    if ps != [] {
      var init := ps[..|ps| - 1];
      assert ps == init + [ps[|ps| - 1]];
      WithBitsFrame(bytes, init, x);
    }
  }

  /** Setting bits keeps every bit that was already set. */
  lemma WithBitsMonotone(bytes: seq<Byte>, ps: seq<nat>, qs: seq<nat>)
    requires InBounds(|bytes|, ps) && InBounds(|bytes|, qs)
    requires AllSet(bytes, qs)
    ensures AllSet(WithBits(bytes, ps), qs)
  {
    forall i | 0 <= i < |qs|
      ensures IsSet(WithBits(bytes, ps), qs[i])
    {
      WithBitsIsSet(bytes, ps, qs[i]);
    }
  }

  /** After setting the bits at ps, all of them test as set. */
  lemma WithBitsAllSet(bytes: seq<Byte>, ps: seq<nat>)
    requires InBounds(|bytes|, ps)
    ensures AllSet(WithBits(bytes, ps), ps)
  {
    forall i | 0 <= i < |ps|
      ensures IsSet(WithBits(bytes, ps), ps[i])
    {
      WithBitsIsSet(bytes, ps, ps[i]);
    }
  }

  /** Every probe list addresses a byte of a buffer of length n. */
  predicate AllInBounds(n: nat, lists: seq<seq<nat>>)
  {
    forall i :: 0 <= i < |lists| ==> InBounds(n, lists[i])
  }

  /** The buffer after setting the bits of each probe list in turn, one list per inserted key. */
  function WithAll(bytes: seq<Byte>, lists: seq<seq<nat>>): (r: seq<Byte>)
    requires AllInBounds(|bytes|, lists)
    ensures |r| == |bytes|
    decreases |lists|
  {
    if lists == [] then bytes
    else WithBits(WithAll(bytes, lists[..|lists| - 1]), lists[|lists| - 1])
  }

  /**
   * No false negatives: after any sequence of insertions, every inserted
   * probe list is still entirely set, however many insertions followed it.
   */
  lemma {:induction false} WithAllAllSet(bytes: seq<Byte>, lists: seq<seq<nat>>, l: seq<nat>)
    requires AllInBounds(|bytes|, lists) && l in lists
    ensures AllSet(WithAll(bytes, lists), l)
    decreases |lists|
  {
    var init := lists[..|lists| - 1];
    var last := lists[|lists| - 1];
    assert lists == init + [last];
    assert AllInBounds(|bytes|, init);
    if l == last {
      WithBitsAllSet(WithAll(bytes, init), last);
    } else {
      assert l in init;
      WithAllAllSet(bytes, init, l);
      WithBitsMonotone(WithAll(bytes, init), last, l);
    }
  }

  /** In an all-zero buffer no bit is set, so no non-empty probe list is entirely set. */
  lemma ZeroNoneSet(bytes: seq<Byte>, ps: seq<nat>)
    requires InBounds(|bytes|, ps) && Zero(bytes) && ps != []
    ensures !AllSet(bytes, ps)
  {
    IsSetBit(bytes, ps[0]);
    NoBitOfZero(ps[0] % 8);
  }
}
