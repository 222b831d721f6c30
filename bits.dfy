/**
 * Machine-word arithmetic shared by the growable array and the split-ordered list:
 * powers of two, the bit length of a word (what `usize::leading_zeros` measures),
 * and `usize::reverse_bits`. Words are modelled as naturals below 2^WORD_BITS.
 */
module Bits {

  /** Width of `usize` on the 64-bit targets the homework runs on. */
  const WORD_BITS: nat := 64

  /** 2^WORD_BITS: words are the naturals below it. */
  const WORD_LIMIT: nat := 0x1_0000_0000_0000_0000

  /** 2^(WORD_BITS - 1): the words with their top bit set are those at or above it. */
  const TOP_BIT: nat := 0x8000_0000_0000_0000

  function Pow2(n: nat): (r: nat)
    ensures r >= 1
  {
    if n == 0 then 1 else 2 * Pow2(n - 1)
  }

  predicate IsPow2(x: nat)
  {
    exists e: nat {:trigger Pow2(e)} :: e <= x && Pow2(e) == x
  }

  lemma {:induction false} Pow2Add(a: nat, b: nat)
    ensures Pow2(a + b) == Pow2(a) * Pow2(b)
  {
    if a > 0 {
      Pow2Add(a - 1, b);
      assert Pow2(a + b) == 2 * Pow2(a - 1 + b);
    }
  }

  lemma {:induction false} Pow2StrictlyMonotone(a: nat, b: nat)
    requires a < b
    ensures Pow2(a) < Pow2(b)
  {
    if b - 1 > a {
      Pow2StrictlyMonotone(a, b - 1);
    }
  }

  lemma Pow2Monotone(a: nat, b: nat)
    requires a <= b
    ensures Pow2(a) <= Pow2(b)
  {
    if a < b {
      Pow2StrictlyMonotone(a, b);
    }
  }

  /** The exponent is at most the power, so IsPow2 can witness it. */
  lemma {:induction false} Pow2AtLeastExponent(e: nat)
    ensures e <= Pow2(e)
  {
    if e > 0 {
      Pow2AtLeastExponent(e - 1);
    }
  }

  lemma Pow2IsPow2(e: nat)
    ensures IsPow2(Pow2(e))
  {
    Pow2AtLeastExponent(e);
  }

  /** The word-size powers, written out. */
  lemma WordLimits()
    ensures Pow2(WORD_BITS) == WORD_LIMIT && Pow2(WORD_BITS - 1) == TOP_BIT
  {
    assert Pow2(4) == 16;
    Pow2Add(4, 4);
    assert Pow2(8) == 0x100;
    Pow2Add(8, 8);
    assert Pow2(16) == 0x1_0000;
    Pow2Add(16, 16);
    assert Pow2(32) == 0x1_0000_0000;
    Pow2Add(32, 32);
  }

  lemma {:induction false} MulAtLeast(d: nat, k: nat)
    requires k >= 1
    ensures d * k >= d
  {
    if k > 1 {
      MulAtLeast(d, k - 1);
      assert d * k == d * (k - 1) + d;
    }
  }

  lemma MulGap(d: nat, x: nat, y: nat)
    ensures x < y ==> d * x + d <= d * y
  {
    if x < y {
      var k := y - x;
      MulAtLeast(d, k);
      assert d * y == d * x + d * k;
    }
  }

  /** Euclidean division of a natural by a positive number. */
  lemma QuotientRemainder(x: nat, d: nat) returns (q: nat, r: nat)
    requires d >= 1
    ensures q == x / d && r == x % d && x == d * q + r && r < d
  {
    q, r := x / d, x % d;
  }

  /** Quotient and remainder are the only ones that fit. */
  lemma DivUnique(a: nat, d: nat, q: nat, r: nat)
    requires 0 <= r < d && a == d * q + r
    ensures a / d == q && a % d == r
  {
    var q', r' := QuotientRemainder(a, d);
    MulGap(d, q, q');
    MulGap(d, q', q);
  }

  /** A quotient is below `r` when the dividend is below `d * r`. */
  lemma QuotientBelow(a: nat, d: nat, q: nat, i: nat, r: nat)
    requires a == d * q + i && a < d * r
    ensures q < r
  {
    MulGap(d, r - 1, q);
  }

  /** Number of significant bits: `usize::BITS - x.leading_zeros()` for a word `x`. */
  function BitLength(x: nat): nat
  {
    if x == 0 then 0 else 1 + BitLength(x / 2)
  }

  /** `x` fits in `n` bits exactly when its bit length is at most `n`. */
  lemma {:induction false} BitLengthFits(x: nat, n: nat)
    ensures BitLength(x) <= n <==> x < Pow2(n)
  {
    if x == 0 {
    } else if n == 0 {
    } else {
      BitLengthFits(x / 2, n - 1);
    }
  }

  /** A number between 2^e and 2^(e+1) has exactly e + 1 significant bits. */
  lemma BitLengthBetween(x: nat, e: nat)
    requires Pow2(e) <= x < Pow2(e + 1)
    ensures BitLength(x) == e + 1
  {
    BitLengthFits(x, e + 1);
    BitLengthFits(x, e);
  }

  /** `usize::leading_zeros`. */
  function LeadingZeros(x: nat): (r: nat)
    requires x < WORD_LIMIT
    ensures r == 0 <==> TOP_BIT <= x
  {
    WordLimits();
    BitLengthFits(x, WORD_BITS);
    BitLengthFits(x, WORD_BITS - 1);
    WORD_BITS - BitLength(x)
  }

  /** The largest power of two not above a positive `x`: its highest set bit. */
  function HighBit(x: nat): (r: nat)
    requires x > 0
    ensures IsPow2(r) && r <= x < 2 * r
  {
    BitLengthFits(x, BitLength(x));
    BitLengthFits(x, BitLength(x) - 1);
    Pow2IsPow2(BitLength(x) - 1);
    Pow2(BitLength(x) - 1)
  }

  /** `v << k`: `v` times 2^k, written as repeated doubling so that proofs stay linear. */
  function ShiftLeft(v: nat, k: nat): nat
  {
    if k == 0 then v else 2 * ShiftLeft(v, k - 1)
  }

  lemma {:induction false} ShiftAdd(a: nat, b: nat, k: nat)
    ensures ShiftLeft(a + b, k) == ShiftLeft(a, k) + ShiftLeft(b, k)
  {
    if k > 0 {
      ShiftAdd(a, b, k - 1);
    }
  }

  lemma {:induction false} ShiftZero(k: nat)
    ensures ShiftLeft(0, k) == 0
  {
    if k > 0 {
      ShiftZero(k - 1);
    }
  }

  /** Shifting 2^a by k gives 2^(a + k); in particular `1 << k == 2^k`. */
  lemma {:induction false} ShiftPow2(a: nat, k: nat)
    ensures ShiftLeft(Pow2(a), k) == Pow2(a + k)
  {
    if k > 0 {
      ShiftPow2(a, k - 1);
    }
  }

  /** Shifting is multiplying by a power of two. */
  lemma {:induction false} ShiftIsMul(v: nat, k: nat)
    ensures ShiftLeft(v, k) == Pow2(k) * v
  {
    if k > 0 {
      ShiftIsMul(v, k - 1);
      assert Pow2(k) * v == 2 * (Pow2(k - 1) * v);
    }
  }

  /** Two different words shifted by `k` are at least 2^k apart. */
  lemma {:induction false} ShiftGap(a: nat, b: nat, k: nat)
    requires a < b
    ensures ShiftLeft(a, k) + Pow2(k) <= ShiftLeft(b, k)
  {
    if k > 0 {
      ShiftGap(a, b, k - 1);
    }
  }

  /** The low `n` bits of `x` in reverse order: `usize::reverse_bits` when n == WORD_BITS. */
  function ReverseBits(x: nat, n: nat): nat
  {
    if n == 0 then 0 else (if x % 2 == 0 then 0 else Pow2(n - 1)) + ReverseBits(x / 2, n - 1)
  }

  lemma {:induction false} ReverseBitsBound(x: nat, n: nat)
    ensures ReverseBits(x, n) < Pow2(n)
  {
    if n > 0 {
      ReverseBitsBound(x / 2, n - 1);
    }
  }

  lemma {:induction false} ReverseBitsZero(n: nat)
    ensures ReverseBits(0, n) == 0
  {
    if n > 0 {
      ReverseBitsZero(n - 1);
    }
  }

  lemma ReverseBitsOne(n: nat)
    requires n >= 1
    ensures ReverseBits(1, n) == Pow2(n - 1)
  {
    ReverseBitsZero(n - 1);
  }

  lemma LowBitOf(t: nat, b: nat)
    requires b < 2
    ensures (2 * t + b) % 2 == b
  {
  }

  /** A one-bit word reversed over one bit is itself. */
  lemma ReverseBitsOneBit(b: nat)
    requires b < 2
    ensures ReverseBits(b, 1) == b && ShiftLeft(b, 0) == b
  {
  }

  /**
   * Reversing a word `x` whose low `m` bits are `lo` and whose remaining bits are `hi`:
   * `lo` lands, reversed, in the top `m` bits and `hi`, reversed, in the bottom `n - m`.
   */
  lemma {:induction false} ReverseBitsSplit(x: nat, lo: nat, hi: nat, m: nat, n: nat)
    requires m <= n && lo < Pow2(m) && x == lo + ShiftLeft(hi, m)
    ensures ReverseBits(x, n) == ShiftLeft(ReverseBits(lo, m), n - m) + ReverseBits(hi, n - m)
  {
    if m > 0 {
      assert x / 2 == lo / 2 + ShiftLeft(hi, m - 1) && x % 2 == lo % 2;
      ReverseBitsSplit(x / 2, lo / 2, hi, m - 1, n - 1);
      var r := ReverseBits(lo / 2, m - 1);
      var rest := ShiftLeft(r, n - m) + ReverseBits(hi, n - m);
      assert ReverseBits(x / 2, n - 1) == rest;
      if lo % 2 == 0 {
        assert ReverseBits(x, n) == rest;
        assert ReverseBits(lo, m) == r;
      } else {
        assert ReverseBits(x, n) == Pow2(n - 1) + rest;
        assert ReverseBits(lo, m) == Pow2(m - 1) + r;
        ShiftAdd(Pow2(m - 1), r, n - m);
        ShiftPow2(m - 1, n - m);
        assert ShiftLeft(Pow2(m - 1), n - m) == Pow2(n - 1);
      }
    } else {
      ShiftZero(n);
    }
  }

  /** Peeling the lowest bit off `x`: it becomes bit `n - 1` of the reversal. */
  lemma ReverseBitsPeel(x: nat, n: nat)
    requires n >= 1
    ensures x == 2 * (x / 2) + x % 2 && x % 2 < 2
    ensures ReverseBits(x, n) == ReverseBits(x / 2, n - 1) + ShiftLeft(x % 2, n - 1)
  {
    if x % 2 == 0 {
      ShiftZero(n - 1);
    } else {
      ShiftPow2(0, n - 1);
    }
  }

  /** Putting bit `b` above an (n-1)-bit word `y` puts `b` at the bottom of its reversal. */
  lemma ReverseBitsAppend(x: nat, y: nat, b: nat, n: nat)
    requires n >= 1 && b < 2 && y < Pow2(n - 1) && x == y + ShiftLeft(b, n - 1)
    ensures ReverseBits(x, n) == 2 * ReverseBits(y, n - 1) + b
  {
    ReverseBitsSplit(x, y, b, n - 1, n);
    ReverseBitsOneBit(b);
    assert n - (n - 1) == 1;
  }

  /** Reversing twice gives the word back. */
  lemma {:induction false} ReverseBitsInvolutive(x: nat, n: nat)
    requires x < Pow2(n)
    ensures ReverseBits(ReverseBits(x, n), n) == x
  {
    if n > 0 {
      var h := x / 2;
      ReverseBitsBound(h, n - 1);
      ReverseBitsInvolutive(h, n - 1);
      ReverseBitsPeel(x, n);
      var y := ReverseBits(h, n - 1);
      ReverseBitsAppend(ReverseBits(x, n), y, x % 2, n);
      assert ReverseBits(x, n) == y + ShiftLeft(x % 2, n - 1);
    }
  }

  lemma ReverseBitsInjective(x: nat, y: nat, n: nat)
    requires x < Pow2(n) && y < Pow2(n)
    requires ReverseBits(x, n) == ReverseBits(y, n)
    ensures x == y
  {
    ReverseBitsInvolutive(x, n);
    ReverseBitsInvolutive(y, n);
  }

  /** The lowest bit of the reversal is the highest bit of the word. */
  lemma ReverseBitsParity(x: nat, n: nat)
    requires n >= 1 && x < Pow2(n)
    ensures ReverseBits(x, n) % 2 == 0 <==> x < Pow2(n - 1)
  {
    var p := Pow2(n - 1);
    if x < p {
      ShiftZero(n - 1);
      ReverseBitsAppend(x, x, 0, n);
      LowBitOf(ReverseBits(x, n - 1), 0);
    } else {
      ShiftPow2(0, n - 1);
      assert Pow2(0) == 1;
      ReverseBitsAppend(x, x - p, 1, n);
      LowBitOf(ReverseBits(x - p, n - 1), 1);
    }
  }
}
