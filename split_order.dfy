/**
 * Key arithmetic of the split-ordered list (Shalev and Shavit, "Split-ordered lists:
 * lock-free extensible hash tables"): bucket sentinels and data items share one sorted
 * list, ordered by the bit-reversal of their natural index. A sentinel's key is the
 * reversal of its bucket index (lowest bit 0), a data item's key the reversal of its
 * key with the lowest bit forced to 1.
 */
module SplitOrder {
  import opened Bits

  /** Keys are `usize` values whose top bit is clear: 0 <= key < 2^63. */
  const KEY_BITS: nat := WORD_BITS - 1

  /** `size` is doubled once `count > size * LOAD_FACTOR`. */
  const LOAD_FACTOR: nat := 2

  /** `x | 1` on a word. */
  function SetLowBit(x: nat): (r: nat)
    ensures r % 2 == 1
    ensures r == x || r == x + 1
    ensures x % 2 == 0 ==> r == x + 1
  {
    if x % 2 == 0 then x + 1 else x
  }

  /**
   * `assert_valid_key`: the key's most significant bit must be zero, which holds exactly for
   * the keys below 2^63.
   */
  predicate AssertValidKey(key: nat): (ok: bool)
    requires key < WORD_LIMIT
    ensures ok <==> ValidKey(key)
  {
    LeadingZeros(key) != 0
  }

  predicate ValidKey(key: nat)
  {
    key < TOP_BIT
  }

  /** `sentinel_key`: ordering key of the sentinel node of bucket `index`. */
  function SentinelKey(index: nat): (r: nat)
    ensures r < WORD_LIMIT
  {
    WordLimits();
    ReverseBitsBound(index, WORD_BITS);
    ReverseBits(index, WORD_BITS)
  }

  /** `ord_key`: ordering key of the data node holding `key`. */
  function OrdKey(key: nat): (r: nat)
    ensures r % 2 == 1 && r < WORD_LIMIT
  {
    WordLimits();
    ReverseBitsBound(key, WORD_BITS);
    SetLowBit(SentinelKey(key))
  }

  lemma SentinelKeyEven(index: nat)
    requires ValidKey(index)
    ensures SentinelKey(index) % 2 == 0
  {
    WordLimits();
    ReverseBitsParity(index, WORD_BITS);
  }

  /** Ordering keys are odd words, one above the sentinel key of the same number. */
  lemma OrdKeyShape(key: nat)
    requires ValidKey(key)
    ensures OrdKey(key) == SentinelKey(key) + 1
  {
    SentinelKeyEven(key);
  }

  /** A sentinel key and an ordering key never coincide. */
  lemma SentinelAndOrdKeysDiffer(index: nat, key: nat)
    requires ValidKey(index)
    ensures SentinelKey(index) != OrdKey(key)
  {
    SentinelKeyEven(index);
  }

  lemma SentinelKeyInjective(i: nat, j: nat)
    requires ValidKey(i) && ValidKey(j) && i != j
    ensures SentinelKey(i) != SentinelKey(j)
  {
    WordLimits();
    if SentinelKey(i) == SentinelKey(j) {
      ReverseBitsInjective(i, j, WORD_BITS);
    }
  }

  /** `ord_key` is injective on valid keys. */
  lemma OrdKeyInjective(k1: nat, k2: nat)
    requires ValidKey(k1) && ValidKey(k2) && k1 != k2
    ensures OrdKey(k1) != OrdKey(k2)
  {
    OrdKeyShape(k1);
    OrdKeyShape(k2);
    SentinelKeyInjective(k1, k2);
  }

  /** Every odd word `y + 1` is the ordering key of a valid key, the reversal of `y`. */
  lemma OrdKeyOnto(y: nat)
    requires y < WORD_LIMIT && y % 2 == 0
    ensures ValidKey(ReverseBits(y, WORD_BITS))
    ensures OrdKey(ReverseBits(y, WORD_BITS)) == y + 1
  {
    var k := ReverseBits(y, WORD_BITS);
    WordLimits();
    ReverseBitsBound(y, WORD_BITS);
    ReverseBitsInvolutive(y, WORD_BITS);
    assert ReverseBits(k, WORD_BITS) == y;
    ReverseBitsParity(k, WORD_BITS);
  }

  /** Two different words shifted by `k` are separated by more than any `t < 2^k`. */
  lemma Blocks(a: nat, b: nat, k: nat, t: nat)
    requires a != b && t < Pow2(k)
    ensures ShiftLeft(b, k) < ShiftLeft(a, k) || ShiftLeft(a, k) + t < ShiftLeft(b, k)
  {
    if b < a {
      ShiftGap(b, a, k);
    } else {
      ShiftGap(a, b, k);
    }
  }

  /** A word below 2^m reversed over n bits is its m-bit reversal shifted up by n - m. */
  lemma ReverseBitsLow(x: nat, m: nat, n: nat)
    requires m <= n && x < Pow2(m)
    ensures ReverseBits(x, n) == ShiftLeft(ReverseBits(x, m), n - m)
  {
    ShiftZero(m);
    ReverseBitsSplit(x, x, 0, m, n);
    ReverseBitsZero(n - m);
  }

  lemma EvenBelowPow(t: nat, e: nat)
    requires e >= 1 && t % 2 == 0 && t < Pow2(e)
    ensures t + 1 < Pow2(e)
  {
  }

  /**
   * With 2^m buckets, the reversal of a valid key `k` splits into the m-bit reversal `a` of
   * its bucket index `k % 2^m`, shifted to the top, and an even remainder `t` below
   * 2^(64 - m): the bucket's sentinel key is the top part alone and `k`'s ordering key the
   * top part plus `t + 1`.
   */
  lemma KeyInBucket(k: nat, m: nat) returns (a: nat, t: nat)
    requires ValidKey(k) && m <= KEY_BITS
    ensures a == ReverseBits(k % Pow2(m), m)
    ensures t + 1 < Pow2(WORD_BITS - m)
    ensures SentinelKey(k % Pow2(m)) == ShiftLeft(a, WORD_BITS - m)
    ensures OrdKey(k) == ShiftLeft(a, WORD_BITS - m) + (t + 1)
  {
    var q, i := SplitKey(k, m);
    var e: nat := WORD_BITS - m;
    a, t := ReverseBits(i, m), ReverseBits(q, e);
    assert ReverseBits(k, WORD_BITS) == ShiftLeft(a, e) + t by {
      ReverseBitsSplit(k, i, q, m, WORD_BITS);
    }
    assert t % 2 == 0 && t + 1 < Pow2(e) by {
      ReverseBitsParity(q, e);
      ReverseBitsBound(q, e);
      EvenBelowPow(t, e);
    }
    assert SentinelKey(i) == ShiftLeft(a, e) by {
      ReverseBitsLow(i, m, WORD_BITS);
    }
    OrdKeyShape(k);
  }

  /** A valid key is its bucket index `i` below `2^m` plus `q` shifted up by `m`, with `q` below `2^(63 - m)`. */
  lemma SplitKey(k: nat, m: nat) returns (q: nat, i: nat)
    requires ValidKey(k) && m <= KEY_BITS
    ensures i == k % Pow2(m) && i < Pow2(m) && k == i + ShiftLeft(q, m)
    ensures q < Pow2(WORD_BITS - m - 1)
  {
    var p := Pow2(m);
    q, i := QuotientRemainder(k, p);
    assert q < Pow2(WORD_BITS - m - 1) by {
      WordLimits();
      Pow2Add(m, KEY_BITS - m);
      QuotientBelow(k, p, q, i, Pow2(KEY_BITS - m));
    }
    ShiftIsMul(q, m);
  }

  /**
   * Recursive-split order. With `size == 2^m` buckets, the data key `k` belongs to bucket
   * `k % size`: its ordering key comes after that bucket's sentinel and before the
   * sentinel of every other bucket that follows it, so no other sentinel of the current
   * table lies between them.
   */
  lemma SplitOrderSeparates(k: nat, m: nat, j: nat)
    requires ValidKey(k) && m <= KEY_BITS && j < Pow2(m)
    ensures SentinelKey(k % Pow2(m)) < OrdKey(k)
    ensures j != k % Pow2(m) ==>
              SentinelKey(j) < SentinelKey(k % Pow2(m)) || OrdKey(k) < SentinelKey(j)
  {
    var a, t := KeyInBucket(k, m);
    var i: nat := k % Pow2(m);
    if j != i {
      var b: nat := ReverseBits(j, m);
      ReverseBitsLow(j, m, WORD_BITS);
      assert a != b by {
        if a == b {
          ReverseBitsInjective(i, j, m);
        }
      }
      Blocks(a, b, WORD_BITS - m, t + 1);
    }
  }

  /**
   * A bucket's parent (its index with the highest set bit cleared, as `get_parent`
   * computes it) has its sentinel earlier in the list, so searching from the parent's
   * sentinel reaches the child's.
   */
  lemma ParentSentinelPrecedes(index: nat)
    requires 0 < index && ValidKey(index)
    ensures SentinelKey(index - HighBit(index)) < SentinelKey(index)
  {
    var b: nat := BitLength(index) - 1;
    var p: nat := index - HighBit(index);
    assert b < WORD_BITS && p < Pow2(b) && index == p + Pow2(b) by {
      WordLimits();
      BitLengthFits(index, KEY_BITS);
    }
    ReverseBitsAddTop(p, b);
    assert SentinelKey(index) == SentinelKey(p) + Pow2(WORD_BITS - b - 1);
  }

  /** Setting bit `b` above a word `p < 2^b` sets bit `63 - b` of its reversal. */
  lemma ReverseBitsAddTop(p: nat, b: nat)
    requires b < WORD_BITS && p < Pow2(b)
    ensures ReverseBits(p + Pow2(b), WORD_BITS) == ReverseBits(p, WORD_BITS) + Pow2(WORD_BITS - b - 1)
  {
    var e: nat := WORD_BITS - b;
    ShiftPow2(0, b);
    assert Pow2(0) == 1;
    ReverseBitsSplit(p + Pow2(b), p, 1, b, WORD_BITS);
    ReverseBitsOne(e);
    ReverseBitsLow(p, b, WORD_BITS);
  }
}
