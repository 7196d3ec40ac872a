/**
 * Bitwise operations on unsigned integers, defined one binary digit at a time.
 *
 * The C code applies `>>`, `|` and `&` to `size_t` and `uint64_t` values, and the
 * Python code applies them to unbounded ints. Modelling those values as `nat`
 * keeps index and capacity arithmetic in the integers, where it can be related
 * to array lengths; these functions give the operators their usual meaning on
 * non-negative numbers.
 */
module NatBits {

  /** 2^e. */
  function Pow2(e: nat): (r: nat)
    ensures r >= 1
  {
    if e == 0 then 1 else 2 * Pow2(e - 1)
  }

  /** `a >> k` on an unsigned value: k halvings. */
  function Shr(a: nat, k: nat): nat
  {
    if k == 0 then a else Shr(a / 2, k - 1)
  }

  /** Bit i of a. */
  predicate Bit(a: nat, i: nat)
  {
    Shr(a, i) % 2 == 1
  }

  /** `a | b` on unsigned values. */
  function BitOr(a: nat, b: nat): nat
    decreases a + b
  {
    if a == 0 then b
    else if b == 0 then a
    else 2 * BitOr(a / 2, b / 2) + (if a % 2 == 1 || b % 2 == 1 then 1 else 0)
  }

  /** `a & b` on unsigned values. */
  function BitAnd(a: nat, b: nat): nat
    decreases a + b
  {
    if a == 0 || b == 0 then 0
    else 2 * BitAnd(a / 2, b / 2) + (if a % 2 == 1 && b % 2 == 1 then 1 else 0)
  }

  /** `a ^ b` on unsigned values. */
  function BitXor(a: nat, b: nat): nat
    decreases a + b
  {
    if a == 0 then b
    else if b == 0 then a
    else 2 * BitXor(a / 2, b / 2) + (if a % 2 != b % 2 then 1 else 0)
  }

  lemma {:induction false} Pow2Add(a: nat, b: nat)
    ensures Pow2(a + b) == Pow2(a) * Pow2(b)
  {
    if a > 0 {
      Pow2Add(a - 1, b);
    }
  }

  lemma Pow2Of32()
    ensures Pow2(8) == 0x100
    ensures Pow2(32) == 0x1_0000_0000
  {
    assert Pow2(4) == 16;
    Pow2Add(4, 4);
    Pow2Add(8, 8);
    Pow2Add(16, 16);
  }

  lemma Pow2Of64()
    ensures Pow2(64) == 0x1_0000_0000_0000_0000
  {
    Pow2Of32();
    Pow2Add(32, 32);
  }

  lemma {:induction false} Pow2Monotone(a: nat, b: nat)
    requires a <= b
    ensures Pow2(a) <= Pow2(b)
  {
    if a < b {
      Pow2Monotone(a, b - 1);
    }
  }

  /** Shifting right by s then by i is shifting by s + i. */
  lemma {:induction false} ShrShr(a: nat, s: nat, i: nat)
    ensures Shr(Shr(a, s), i) == Shr(a, s + i)
  {
    if s > 0 {
      ShrShr(a / 2, s - 1, i);
    }
  }

  lemma {:induction false} ShrBelow(a: nat, n: nat, k: nat)
    requires a < Pow2(n) && k <= n
    ensures Shr(a, k) < Pow2(n - k)
  {
    if k > 0 {
      ShrBelow(a / 2, n - 1, k - 1);
    }
  }

  lemma {:induction false} ShrAtMost(a: nat, k: nat)
    ensures Shr(a, k) <= a
  {
    if k > 0 {
      ShrAtMost(a / 2, k - 1);
    }
  }

  /** Bit i of `a >> s` is bit i + s of a. */
  lemma ShrBit(a: nat, s: nat, i: nat)
    ensures Bit(Shr(a, s), i) == Bit(a, s + i)
  {
    ShrShr(a, s, i);
  }

  /** A bit of `a | b` is set exactly when it is set in a or in b. */
  lemma {:induction false} BitOrBit(a: nat, b: nat, i: nat)
    ensures Bit(BitOr(a, b), i) == (Bit(a, i) || Bit(b, i))
    decreases i
  {
    BitOrHalf(a, b);
    if i > 0 {
      BitOrBit(a / 2, b / 2, i - 1);
      assert Bit(BitOr(a, b), i) == Bit(BitOr(a / 2, b / 2), i - 1);
      assert Bit(a, i) == Bit(a / 2, i - 1);
      assert Bit(b, i) == Bit(b / 2, i - 1);
    }
  }

  lemma BitOrHalf(a: nat, b: nat)
    ensures BitOr(a, b) / 2 == BitOr(a / 2, b / 2)
    ensures BitOr(a, b) % 2 == (if a % 2 == 1 || b % 2 == 1 then 1 else 0)
  {
    if a == 0 {
      assert BitOr(a / 2, b / 2) == b / 2;
    } else if b == 0 {
      assert BitOr(a / 2, b / 2) == a / 2;
    }
  }

  lemma BitAndHalf(a: nat, b: nat)
    ensures BitAnd(a, b) / 2 == BitAnd(a / 2, b / 2)
    ensures BitAnd(a, b) % 2 == (if a % 2 == 1 && b % 2 == 1 then 1 else 0)
  {
    if a == 0 || b == 0 {
      assert BitAnd(a / 2, b / 2) == 0;
    }
  }

  /** A bit of `a & b` is set exactly when it is set in both. */
  lemma {:induction false} BitAndBit(a: nat, b: nat, i: nat)
    ensures Bit(BitAnd(a, b), i) == (Bit(a, i) && Bit(b, i))
    decreases i
  {
    BitAndHalf(a, b);
    if i > 0 {
      BitAndBit(a / 2, b / 2, i - 1);
      assert Bit(BitAnd(a, b), i) == Bit(BitAnd(a / 2, b / 2), i - 1);
      assert Bit(a, i) == Bit(a / 2, i - 1);
      assert Bit(b, i) == Bit(b / 2, i - 1);
    }
  }

  /** Or-ing two values below 2^n stays below 2^n. */
  lemma {:induction false} BitOrBelow(a: nat, b: nat, n: nat)
    requires a < Pow2(n) && b < Pow2(n)
    ensures BitOr(a, b) < Pow2(n)
  {
    if n > 0 && a != 0 && b != 0 {
      BitOrBelow(a / 2, b / 2, n - 1);
    }
  }

  /** Masking never yields more than the mask. */
  lemma {:induction false} BitAndAtMost(a: nat, m: nat)
    ensures BitAnd(a, m) <= m
    decreases a + m
  {
    if a != 0 && m != 0 {
      BitAndAtMost(a / 2, m / 2);
    }
  }

  /** Masking with 2^n - 1 keeps a value that already fits in n bits. */
  lemma {:induction false} BitAndLowMask(a: nat, n: nat)
    requires a < Pow2(n)
    ensures BitAnd(a, Pow2(n) - 1) == a
  {
    if n > 0 && a != 0 {
      BitAndLowMask(a / 2, n - 1);
      assert (Pow2(n) - 1) / 2 == Pow2(n - 1) - 1;
    }
  }

  /** Bit p of 2^p, and no other. */
  lemma {:induction false} BitOfPow2(p: nat, i: nat)
    ensures Bit(Pow2(p), i) == (i == p)
  {
    if p > 0 && i > 0 {
      BitOfPow2(p - 1, i - 1);
    } else if p > 0 {
      assert Pow2(p) % 2 == 0;
    } else if i > 0 {
      assert Shr(0, i - 1) == 0 by { ShrAtMost(0, i - 1); }
    }
  }

  /** The bits of `a | b`, all at once. */
  lemma BitOrBits(a: nat, b: nat)
    ensures forall i :: Bit(BitOr(a, b), i) == (Bit(a, i) || Bit(b, i))
  {
    forall i
      ensures Bit(BitOr(a, b), i) == (Bit(a, i) || Bit(b, i))
    {
      BitOrBit(a, b, i);
    }
  }

  /** The bits of 2^p, all at once: only bit p is set. */
  lemma Pow2Bits(p: nat)
    ensures forall i :: Bit(Pow2(p), i) == (i == p)
  {
    forall i
      ensures Bit(Pow2(p), i) == (i == p)
    {
      BitOfPow2(p, i);
    }
  }

  /** A value below 2^n whose n low bits are all set is 2^n - 1. */
  lemma {:induction false} AllOnes(x: nat, n: nat)
    requires x < Pow2(n)
    requires forall i :: 0 <= i < n ==> Bit(x, i)
    ensures x == Pow2(n) - 1
  {
    if n > 0 {
      assert Bit(x, 0);
      forall i | 0 <= i < n - 1
        ensures Bit(x / 2, i)
      {
        assert Bit(x, i + 1);
      }
      AllOnes(x / 2, n - 1);
    }
  }

  /** The number of binary digits of w. */
  function BitLength(w: nat): (n: nat)
    ensures w >= 1 ==> n >= 1 && Pow2(n - 1) <= w < Pow2(n)
    ensures w == 0 ==> n == 0
  {
    if w == 0 then 0 else 1 + BitLength(w / 2)
  }

  /** The top digit of a w with n binary digits is set. */
  lemma {:induction false} TopBit(w: nat, n: nat)
    requires n >= 1 && Pow2(n - 1) <= w < Pow2(n)
    ensures Bit(w, n - 1)
  {
    if n > 1 {
      TopBit(w / 2, n - 1);
    }
  }

  /** The bits stay below bit n for a value below 2^n. */
  lemma {:induction false} NoBitAbove(a: nat, n: nat, i: nat)
    requires a < Pow2(n) && n <= i
    ensures !Bit(a, i)
  {
    ShrBelow(a, n, n);
    assert Shr(a, n) == 0;
    ShrShr(a, n, i - n);
    assert Shr(0, i - n) == 0 by { ShrAtMost(0, i - n); }
  }

  /**
   * Two values below 2^n that agree on bits 0 .. n-1 are equal.
   */
  lemma {:induction false} BitsEqual(a: nat, b: nat, n: nat)
    requires a < Pow2(n) && b < Pow2(n)
    requires forall i :: 0 <= i < n ==> Bit(a, i) == Bit(b, i)
    ensures a == b
  {
    if n > 0 {
      assert Bit(a, 0) == Bit(b, 0);
      forall i | 0 <= i < n - 1
        ensures Bit(a / 2, i) == Bit(b / 2, i)
      {
        assert Bit(a, i + 1) == Bit(b, i + 1);
      }
      BitsEqual(a / 2, b / 2, n - 1);
    }
  }

  /** No bit of 0 is set. */
  lemma NoBitOfZero(i: nat)
    ensures !Bit(0, i)
  {
    ShrAtMost(0, i);
  }

  /** Xor-ing two values below 2^n stays below 2^n. */
  lemma {:induction false} BitXorBelow(a: nat, b: nat, n: nat)
    requires a < Pow2(n) && b < Pow2(n)
    ensures BitXor(a, b) < Pow2(n)
  {
    if n > 0 && a != 0 && b != 0 {
      BitXorBelow(a / 2, b / 2, n - 1);
    }
  }

  /** `w & (1 << p)` is non-zero exactly when bit p of w is set. */
  lemma BitAndPow2(w: nat, p: nat)
    ensures (BitAnd(w, Pow2(p)) != 0) == Bit(w, p)
  {
    var x := BitAnd(w, Pow2(p));
    BitAndBit(w, Pow2(p), p);
    BitOfPow2(p, p);
    NoBitOfZero(p);
    if !Bit(w, p) {
      BitAndAtMost(w, Pow2(p));
      forall i | 0 <= i < p + 1
        ensures Bit(x, i) == Bit(0, i)
      {
        BitAndBit(w, Pow2(p), i);
        BitOfPow2(p, i);
        NoBitOfZero(i);
      }
      BitsEqual(x, 0, p + 1);
    }
  }

  /** `(w & m) == m` exactly when every bit of m is also set in w. */
  lemma BitAndCovers(w: nat, m: nat, n: nat)
    requires m < Pow2(n)
    ensures (BitAnd(w, m) == m) == (forall i :: 0 <= i < n && Bit(m, i) ==> Bit(w, i))
  {
    if BitAnd(w, m) == m {
      forall i | 0 <= i < n && Bit(m, i)
        ensures Bit(w, i)
      {
        BitAndBit(w, m, i);
      }
    } else {
      BitAndAtMost(w, m);
      if forall i :: 0 <= i < n && Bit(m, i) ==> Bit(w, i) {
        forall i | 0 <= i < n
          ensures Bit(BitAnd(w, m), i) == Bit(m, i)
        {
          BitAndBit(w, m, i);
        }
        BitsEqual(BitAnd(w, m), m, n);
      }
    }
  }

  /** `a >> k` is the quotient by 2^k. */
  lemma {:induction false} ShrDiv(a: nat, k: nat)
    ensures Shr(a, k) == a / Pow2(k)
  {
    if k > 0 {
      ShrDiv(a / 2, k - 1);
      var m := Pow2(k - 1);
      var q := (a / 2) / m;
      var r := (a / 2) % m;
      assert a / 2 == m * q + r;
      assert a == 2 * (a / 2) + a % 2;
      assert 2 * (m * q) == (2 * m) * q;
      DivModUnique(a, 2 * m, q, 2 * r + a % 2);
    }
  }

  /** Masking with 2^n - 1 keeps the low n bits: it is the remainder modulo 2^n. */
  lemma {:induction false} LowBitsMask(a: nat, n: nat)
    ensures BitAnd(a, Pow2(n) - 1) == a % Pow2(n)
  {
    var p := Pow2(n);
    if n == 0 {
      assert p - 1 == 0;
    } else if a == 0 {
      assert BitAnd(a, p - 1) == 0;
    } else {
      var m := Pow2(n - 1);
      assert p == 2 * m;
      BitAndOdd(a, p - 1, m - 1);
      LowBitsMask(a / 2, n - 1);
      var x := BitAnd(a / 2, m - 1);
      assert x == (a / 2) % m;
      ModDouble(a, m);
      assert BitAnd(a, p - 1) == 2 * x + a % 2;
    }
  }

  /** Masking with an odd value keeps the low bit and masks the rest with the halved value. */
  lemma BitAndOdd(a: nat, b: nat, c: nat)
    requires b == 2 * c + 1
    ensures BitAnd(a, b) == 2 * BitAnd(a / 2, c) + a % 2
  {
    assert b / 2 == c && b % 2 == 1;
  }

  /** a mod 2m from a / 2 mod m and the low bit of a. */
  lemma ModDouble(a: nat, m: nat)
    requires m >= 1
    ensures a % (2 * m) == 2 * ((a / 2) % m) + a % 2
  {
    var q := (a / 2) / m;
    var r0 := (a / 2) % m;
    assert a / 2 == m * q + r0;
    assert a == 2 * (a / 2) + a % 2;
    assert 2 * (m * q) == (2 * m) * q;
    DivModUnique(a, 2 * m, q, 2 * r0 + a % 2);
  }

  /** Quotient and remainder are the only ones: x == n * q + r with 0 <= r < n fixes both. */
  lemma DivModUnique(x: int, n: int, q: int, r: int)
    requires n > 0 && 0 <= r < n && x == n * q + r
    ensures x / n == q && x % n == r
  {
    var q', r' := x / n, x % n;
    assert n * q + r == n * q' + r';
    if q > q' {
      assert n * (q - q') == n * q - n * q';
      MulAtLeast(n, q - q');
    } else if q < q' {
      assert n * (q' - q) == n * q' - n * q;
      MulAtLeast(n, q' - q);
    }
  }

  lemma {:induction false} MulAtLeast(n: nat, m: nat)
    requires m >= 1
    ensures n * m >= n
  {
    if m > 1 {
      MulAtLeast(n, m - 1);
      assert n * m == n * (m - 1) + n;
    }
  }
}
