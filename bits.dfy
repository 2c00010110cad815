/** Integer helpers shared by the operator models: powers of two, the bit length that
    FloPoCo calls intlog2, bit extraction and two's-complement reinterpretation. */
module Bits {

  /** 2^n. */
  function Pow2(n: nat): (r: nat)
    ensures r >= 1
  {
    if n == 0 then 1 else 2 * Pow2(n - 1)
  }

  lemma {:induction false} Pow2Add(a: nat, b: nat)
    ensures Pow2(a + b) == Pow2(a) * Pow2(b)
  {
    if a > 0 {
      Pow2Add(a - 1, b);
      assert Pow2(a + b) == 2 * Pow2(a - 1 + b);
    }
  }

  lemma {:induction false} Pow2Monotone(a: nat, b: nat)
    requires a <= b
    ensures Pow2(a) <= Pow2(b)
  {
    if a < b {
      Pow2Monotone(a, b - 1);
    }
  }

  lemma Pow2Strict(a: nat, b: nat)
    requires a < b
    ensures 2 * Pow2(a) <= Pow2(b)
  {
    Pow2Monotone(a + 1, b);
  }

  /** Number of bits needed to write x: intlog2 on a non-negative mpz_class. */
  function BitLen(x: nat): (r: nat)
    ensures x == 0 <==> r == 0
  {
    if x == 0 then 0 else 1 + BitLen(x / 2)
  }

  lemma {:induction false} BitLenBounds(x: nat)
    ensures x < Pow2(BitLen(x))
    ensures x > 0 ==> Pow2(BitLen(x) - 1) <= x
  {
    if x > 0 {
      BitLenBounds(x / 2);
    }
  }

  /** BitLen is the only width w with 2^(w-1) <= x < 2^w. */
  lemma {:induction false} BitLenUnique(x: nat, w: nat)
    requires x < Pow2(w)
    requires w > 0 ==> Pow2(w - 1) <= x
    ensures BitLen(x) == w
  {
    if w > 0 {
      assert x > 0;
      if w == 1 {
        assert x == 1;
        assert BitLen(0) == 0;
      } else {
        assert Pow2(w - 2) <= x / 2 < Pow2(w - 1);
        BitLenUnique(x / 2, w - 1);
      }
    }
  }

  lemma {:induction false} BitLenMonotone(x: nat, y: nat)
    requires x <= y
    ensures BitLen(x) <= BitLen(y)
  {
    if x > 0 {
      BitLenMonotone(x / 2, y / 2);
    }
  }

  /** Doubling a positive number adds exactly one bit. */
  lemma BitLenDouble(x: nat)
    requires x > 0
    ensures BitLen(2 * x) == BitLen(x) + 1
  {
    assert (2 * x) / 2 == x;
  }

  /** Bit i of x (x >= 0). */
  function Bit(x: nat, i: nat): (b: nat)
    ensures b <= 1
  {
    (x / Pow2(i)) % 2
  }

  /** The low part x mod 2^i grows by bit i when one more bit is kept. */
  lemma LowBitsStep(x: nat, i: nat)
    ensures x % Pow2(i + 1) == x % Pow2(i) + Bit(x, i) * Pow2(i)
  {
    var p := Pow2(i);
    assert Pow2(i + 1) == 2 * p;
    var q := x / p;
    var r := x % p;
    assert x == q * p + r;
    assert q == 2 * (q / 2) + q % 2;
    assert x == (q / 2) * (2 * p) + (q % 2 * p + r) by {
      assert q * p == (2 * (q / 2) + q % 2) * p;
    }
    assert 0 <= q % 2 * p + r < 2 * p;
    ModUnique(x, 2 * p, q / 2, q % 2 * p + r);
  }

  /** Euclidean division is determined by quotient and remainder. */
  lemma ModUnique(x: int, m: int, q: int, r: int)
    requires m > 0 && 0 <= r < m && x == q * m + r
    ensures x % m == r && x / m == q
  {
    var q0, r0 := x / m, x % m;
    assert (q0 - q) * m == r - r0;
    MulBelow(q0 - q, m);
  }

  lemma MulBelow(k: int, m: int)
    requires m > 0 && -m < k * m < m
    ensures k == 0
  {
    MulAtLeast(k, m);
  }

  lemma MulAtLeast(k: int, m: int)
    requires m > 0
    ensures k >= 1 ==> k * m >= m
    ensures k <= -1 ==> k * m <= -m
  {
  }

  lemma MulLeMono(a: int, b: int, m: nat)
    requires a <= b
    ensures a * m <= b * m
  {
    assert (b - a) * m >= 0;
  }

  /** A product of two bounded naturals is below the product of the bounds. */
  lemma MulStrict(a: nat, b: nat, ma: nat, mb: nat)
    requires a < ma && b < mb
    ensures a * b < ma * mb
  {
    MulLeMono(a, ma - 1, b);
    MulLeMono(b, mb, ma - 1);
  }

  lemma MulLtCancel(a: int, b: int, m: nat)
    requires a * m < b * m
    ensures a < b
  {
    if a >= b {
      MulLeMono(b, a, m);
    }
  }

  /** Floor division by 2^k of an integer plus a multiple of 2^k. */
  lemma DivAddMultiple(x: int, k: int, m: int)
    requires m > 0
    ensures (x + k * m) / m == x / m + k
    ensures (x + k * m) % m == x % m
  {
    ModUnique(x + k * m, m, x / m + k, x % m);
  }

  /** x / m and x % m for a modulus passed as a value. Keeping the modulus a plain argument keeps the
      solver from unfolding Pow2 inside quotient and remainder terms. */
  function HighPart(x: nat, m: nat): (q: nat)
    requires m > 0
    ensures q * m <= x < (q + 1) * m
  {
    x / m
  }

  function LowPart(x: nat, m: nat): (r: nat)
    requires m > 0
    ensures r < m && x == HighPart(x, m) * m + r
  {
    x % m
  }

  /** Two's-complement reading of a d-bit pattern v: v - 2^d when the sign bit is set. */
  function SignedValue(v: int, d: nat): int
  {
    if d >= 1 && v >= Pow2(d - 1) then v - Pow2(d) else v
  }

  lemma SignedValueRange(v: int, d: nat)
    requires d >= 1 && 0 <= v < Pow2(d)
    ensures -(Pow2(d - 1) as int) <= SignedValue(v, d) < Pow2(d - 1)
    ensures SignedValue(v, d) % Pow2(d) == v
  {
    var p, h := Pow2(d), Pow2(d - 1);
    assert p == 2 * h;
    ModUnique(v, p, 0, v);
    if v >= h {
      assert SignedValue(v, d) == v - p;
      DivAddMultiple(v - p, 1, p);
    } else {
      assert SignedValue(v, d) == v;
    }
  }

  /** mpz_clrbit: x with bit b forced to zero. */
  function ClearBit(x: nat, b: nat): (r: nat)
    ensures r == x - Bit(x, b) * Pow2(b)
  {
    BitSetBound(x, b);
    if Bit(x, b) == 1 then x - Pow2(b) else x
  }

  lemma BitSetBound(x: nat, b: nat)
    ensures Bit(x, b) == 1 ==> x >= Pow2(b)
  {
    var p := Pow2(b);
    assert x == (x / p) * p + x % p;
    MulAtLeast(x / p, p);
  }

  /** The sum of a sequence (of chunk sizes, say), taken from its end. */
  function Sum(s: seq<int>): int
  {
    if s == [] then 0 else Sum(s[..|s| - 1]) + s[|s| - 1]
  }

  lemma SumPrefix(s: seq<int>, i: nat)
    requires i < |s|
    ensures Sum(s[..i + 1]) == Sum(s[..i]) + s[i]
  {
    assert s[..i + 1][..i] == s[..i];
  }

  /** k copies of m added together (keeps the chunk arithmetic linear). */
  function Mul(k: nat, m: int): (r: int)
    ensures m >= 1 ==> r >= k
  {
    if k == 0 then 0 else Mul(k - 1, m) + m
  }

  lemma MulPred(n: nat, m: nat)
    requires n >= 1
    ensures m * (n - 1) == m * n - m
  {
  }

  /** Chunk i of x cut into lutWidth-bit pieces: bits lutWidth*i to lutWidth*(i+1) - 1. */
  function Chunk(x: nat, i: nat, lutWidth: nat): (d: nat)
    ensures d < Pow2(lutWidth)
  {
    LowPart(HighPart(x, Pow2(lutWidth * i)), Pow2(lutWidth))
  }

  /** The chunks 0 to n - 1, each at weight 2^(lutWidth*i). */
  function ChunksValue(x: nat, n: nat, lutWidth: nat): nat
  {
    if n == 0 then 0 else ChunksValue(x, n - 1, lutWidth) + Chunk(x, n - 1, lutWidth) * Pow2(lutWidth * (n - 1))
  }

  /** The first n chunks are the low lutWidth*n bits of x. */
  lemma {:induction false} ChunksLowBits(x: nat, n: nat, lutWidth: nat)
    ensures ChunksValue(x, n, lutWidth) == LowPart(x, Pow2(lutWidth * n))
  {
    if n == 0 {
      ModUnique(x, 1, x, 0);
    } else {
      ChunksLowBits(x, n - 1, lutWidth);
      MulPred(n, lutWidth);
      assert lutWidth * n == lutWidth * (n - 1) + lutWidth;
      Pow2Add(lutWidth * (n - 1), lutWidth);
      ModSplit(x, Pow2(lutWidth * (n - 1)), Pow2(lutWidth));
    }
  }

  /** x mod a*b: the low part mod a, then the next part mod b at weight a. */
  lemma ModSplit(x: nat, a: nat, b: nat)
    requires a > 0 && b > 0
    ensures LowPart(x, a * b) == LowPart(x, a) + LowPart(HighPart(x, a), b) * a
  {
    var q, r := x / a, x % a;
    var q2, r2 := q / b, q % b;
    assert x == (q2 * b + r2) * a + r;
    assert (q2 * b + r2) * a == q2 * (a * b) + r2 * a;
    MulLeMono(r2, b - 1, a);
    assert (b - 1) * a == b * a - a;
    ModUnique(x, a * b, q2, r2 * a + r);
  }
}
