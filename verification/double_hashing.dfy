/**
 * Kirsch–Mitzenmacher double hashing, as both standard filters derive their
 * k probe indices from two hashes: probe i is `(h1 + i * h2) mod size`,
 * where the stride h2 is the second hash reduced modulo size and moved
 * off 0.
 */
module DoubleHashing {
  import opened HashUtils
  import opened NatBits

  /**
   * The stride: the second hash modulo size, with 0 replaced by 1 so that the
   * probes do not all coincide. It lies in [1, max(1, size - 1)].
   */
  function Stride(h: nat, size: nat): (s: nat)
    requires size >= 1
    ensures 1 <= s
    ensures size >= 2 ==> s < size
    ensures size == 1 ==> s == 1
    ensures h % size != 0 ==> s == h % size
  {
    if h % size == 0 then 1 else h % size
  }

  /** The k probe indices `(h1 + i * h2) % size` for i in 0 .. k-1, in unbounded integers. */
  function Probes(h1: nat, h2: nat, k: nat, size: nat): (ps: seq<nat>)
    requires size >= 1
    ensures |ps| == k
    ensures forall i :: 0 <= i < k ==> ps[i] < size
  {
    seq(k, i requires 0 <= i => (h1 + i * h2) % size)
  }

  /**
   * The same indices when `h1 + i * h2` is evaluated in `uint64_t`, as C does
   * with a `uint32_t` h1 and i and a `uint64_t` h2: the product and the sum
   * each wrap modulo 2^64 before the reduction modulo size.
   */
  function WrappedProbes(h1: nat, h2: nat, k: nat, size: nat): (ps: seq<nat>)
    requires size >= 1
    ensures |ps| == k
    ensures forall i :: 0 <= i < k ==> ps[i] < size
  {
    seq(k, i requires 0 <= i => WrappedProbe(h1, h2, i, size))
  }

  /** Probe i of `WrappedProbes`: `(h1 + i * h2) % size` with the sum and product in `uint64_t`. */
  function WrappedProbe(h1: nat, h2: nat, i: nat, size: nat): (p: nat)
    requires size >= 1
    ensures p < size
  {
    ((h1 + (i * h2) % M64) % M64) % size
  }

  lemma ModAddLeft(x: nat, y: nat, n: nat)
    requires n >= 1
    ensures (x + y) % n == (x % n + y) % n
  {
    var q := x / n;
    assert x + y == n * q + (x % n + y);
    assert x % n + y == (x + y) - n * q;
    ModMultiple(x % n + y, q, n);
  }

  lemma ModMultiple(a: nat, q: nat, n: nat)
    requires n >= 1
    ensures (a + n * q) % n == a % n
  {
    var r := a % n;
    var d := a / n;
    assert a + n * q == n * (d + q) + r;
    DivModUnique(a + n * q, n, d + q, r);
  }

  /** Consecutive probes are one stride apart, modulo size. */
  lemma ProbesStep(h1: nat, h2: nat, k: nat, size: nat, i: nat)
    requires size >= 1 && i + 1 < k
    ensures Probes(h1, h2, k, size)[i + 1] == (Probes(h1, h2, k, size)[i] + h2) % size
  {
    var ps := Probes(h1, h2, k, size);
    var x := h1 + i * h2;
    assert (i + 1) * h2 == i * h2 + h2;
    assert ps[i + 1] == (x + h2) % size;
    assert ps[i] == x % size;
    ModAddLeft(x, h2, size);
  }

  /**
   * The 64-bit arithmetic never wraps, so the C indices are exactly the
   * mathematical ones, whenever h1, h2 and the probe count fit in 32 bits —
   * in particular whenever size is at most 2^32, since h2 is below size then.
   */
  lemma WrappedProbesExact(h1: nat, h2: nat, k: nat, size: nat)
    requires size >= 1 && h1 < M32 && h2 < M32 && k <= M32
    ensures WrappedProbes(h1, h2, k, size) == Probes(h1, h2, k, size)
  {
    var ws := WrappedProbes(h1, h2, k, size);
    var ps := Probes(h1, h2, k, size);
    forall i | 0 <= i < k
      ensures ws[i] == ps[i]
    {
      NoWrap(h1, h2, i);
      var p := i * h2;
      NoWrapMod(h1, p, size);
      assert ws[i] == ((h1 + p % M64) % M64) % size;
      assert ps[i] == (h1 + p) % size;
    }
  }

  /** A sum below 2^64 is unchanged by the reductions modulo 2^64. */
  lemma NoWrapMod(h1: nat, p: nat, size: nat)
    requires size >= 1 && h1 + p < M64
    ensures ((h1 + p % M64) % M64) % size == (h1 + p) % size
  {
    assert p % M64 == p;
    assert (h1 + p) % M64 == h1 + p;
  }

  /** With 32-bit operands, `h1 + i * h2` stays below 2^64. */
  lemma NoWrap(h1: nat, h2: nat, i: nat)
    requires h1 < M32 && h2 < M32 && i < M32
    ensures h1 + i * h2 < M64
  {
    MulMonotone(i, M32 - 1, h2, M32 - 1);
    assert (M32 - 1) * (M32 - 1) == 0xFFFF_FFFE_0000_0001;
  }

  lemma MulMonotone(a: nat, b: nat, c: nat, d: nat)
    requires a <= b && c <= d
    ensures a * c <= b * d
  {
    assert a * c <= b * c;
    assert b * c <= b * d;
  }
}
