/**
 The unsigned 64-bit words of the binary hash indexes, as sequences of 64 bits with the
 least significant bit first, and the machine operations the indexes apply to them.
 An operation that C++ leaves undefined for some operands (a shift by 64 or more, counting
 the trailing zeros of 0) requires that its operands avoid them.
 */
module BitWords {
  type Word = w: seq<bool> | |w| == 64 witness seq(64, i => false)

  function Zero(): Word {
    seq(64, i => false)
  }

  function One(): Word {
    seq(64, i => i == 0)
  }

  function Three(): Word {
    seq(64, i => i < 2)
  }

  function Xor(a: Word, b: Word): Word {
    seq(64, i requires 0 <= i < 64 => a[i] != b[i])
  }

  function And(a: Word, b: Word): Word {
    seq(64, i requires 0 <= i < 64 => a[i] && b[i])
  }

  function Not(a: Word): Word {
    seq(64, i requires 0 <= i < 64 => !a[i])
  }

  function Shl(a: Word, n: nat): Word
    requires n < 64
  {
    seq(64, i requires 0 <= i < 64 => i >= n && a[i - n])
  }

  function Shr(a: Word, n: nat): Word
    requires n < 64
  {
    seq(64, i requires 0 <= i < 64 => i + n < 64 && a[i + n])
  }

  /** The index of the lowest set bit at or above `from`. */
  function LowestSetFrom(a: Word, from: nat): (n: nat)
    requires exists i :: from <= i < 64 && a[i]
    ensures from <= n < 64 && a[n]
    ensures forall i :: from <= i < n ==> !a[i]
    decreases 64 - from
  {
    if a[from] then from else LowestSetFrom(a, from + 1)
  }

  predicate NonZero(a: Word) {
    exists i :: 0 <= i < 64 && a[i]
  }

  function CountTrailingZeros(a: Word): nat
    requires NonZero(a)
  {
    LowestSetFrom(a, 0)
  }

  /** Subtraction of 1, wrapping around at 0. */
  function Decrement(a: Word): Word {
    if !NonZero(a) then Not(Zero()) else Borrow(a, CountTrailingZeros(a))
  }

  /** Bit n pays for the borrow that sets all the bits below it. */
  function Borrow(a: Word, n: nat): Word {
    seq(64, i requires 0 <= i < 64 => i < n || (i != n && a[i]))
  }

  // ---------- numbers ----------

  function Pow2(n: nat): (p: nat)
    ensures p > 0
  {
    if n == 0 then 1 else 2 * Pow2(n - 1)
  }

  /** The number written by the n lowest bits of a. */
  function Value(a: seq<bool>, n: nat): nat
    requires n <= |a|
  {
    if n == 0 then 0 else Value(a, n - 1) + if a[n - 1] then Pow2(n - 1) else 0
  }

  /** The number of set bits among the n lowest bits of a. */
  function Weight(a: seq<bool>, n: nat): (w: nat)
    requires n <= |a|
    ensures w <= n
  {
    if n == 0 then 0 else Weight(a, n - 1) + if a[n - 1] then 1 else 0
  }

  /** Comparison of the numbers written by the n lowest bits, decided at the highest bit that differs. */
  predicate Less(a: seq<bool>, b: seq<bool>, n: nat)
    requires n <= |a| && n <= |b|
  {
    n > 0 && if a[n - 1] != b[n - 1] then b[n - 1] else Less(a, b, n - 1)
  }

  lemma {:induction false} ValueBound(a: seq<bool>, n: nat)
    requires n <= |a|
    ensures Value(a, n) < Pow2(n)
  {
    if n > 0 {
      ValueBound(a, n - 1);
    }
  }

  /** Less is the order of the numbers the bits write. */
  lemma {:induction false} LessIsNumeric(a: seq<bool>, b: seq<bool>, n: nat)
    requires n <= |a| && n <= |b|
    ensures Less(a, b, n) <==> Value(a, n) < Value(b, n)
  {
    if n > 0 {
      LessIsNumeric(a, b, n - 1);
      ValueBound(a, n - 1);
      ValueBound(b, n - 1);
    }
  }

  lemma {:induction false} ValueOfLowOnes(a: seq<bool>, n: nat)
    requires n <= |a| && forall i :: 0 <= i < n ==> a[i]
    ensures Value(a, n) == Pow2(n) - 1
  {
    if n > 0 {
      ValueOfLowOnes(a, n - 1);
    }
  }

  lemma {:induction false} ValueOfZeros(a: seq<bool>, n: nat)
    requires n <= |a| && forall i :: 0 <= i < n ==> !a[i]
    ensures Value(a, n) == 0
  {
    if n > 0 {
      ValueOfZeros(a, n - 1);
    }
  }

  /** Decrement subtracts 1 modulo 2^64. */
  lemma DecrementIsMinusOne(a: Word)
    ensures NonZero(a) ==> Value(Decrement(a), 64) == Value(a, 64) - 1
    ensures !NonZero(a) ==> Value(a, 64) == 0 && Value(Decrement(a), 64) == Pow2(64) - 1
  {
    if NonZero(a) {
      DecrementBelow(a, 64);
    } else {
      ValueOfZeros(a, 64);
      ValueOfLowOnes(Decrement(a), 64);
    }
  }

  lemma {:induction false} DecrementBelow(a: Word, n: nat)
    requires NonZero(a) && CountTrailingZeros(a) < n <= 64
    ensures Value(Decrement(a), n) == Value(a, n) - 1
  {
    var z := CountTrailingZeros(a);
    if n == z + 1 {
      ValueOfLowOnes(Decrement(a), z);
      ValueOfZeros(a, z);
    } else {
      DecrementBelow(a, n - 1);
    }
  }

  // ---------- the word made of the n lowest ones ----------

  /** The mask ((uint64_t)1 << n) - 1. */
  function LowMask(n: nat): (m: Word)
    requires n < 64
    ensures forall i :: 0 <= i < 64 ==> m[i] == (i < n)
  {
    assert Shl(One(), n)[n];
    Decrement(Shl(One(), n))
  }

  // ---------- order and weight ----------

  lemma {:induction false} LessTotal(a: seq<bool>, b: seq<bool>, n: nat)
    requires n <= |a| && n <= |b|
    ensures Less(a, b, n) || Less(b, a, n) || a[..n] == b[..n]
    ensures !(Less(a, b, n) && Less(b, a, n))
  {
    if n > 0 {
      LessTotal(a, b, n - 1);
      assert a[..n] == a[..n - 1] + [a[n - 1]];
      assert b[..n] == b[..n - 1] + [b[n - 1]];
    }
  }

  lemma {:induction false} LessTransitive(a: seq<bool>, b: seq<bool>, c: seq<bool>, n: nat)
    requires n <= |a| && n <= |b| && n <= |c|
    requires Less(a, b, n) && Less(b, c, n)
    ensures Less(a, c, n)
  {
    if n > 0 && a[n - 1] == b[n - 1] == c[n - 1] {
      LessTransitive(a, b, c, n - 1);
    }
  }

  lemma {:induction false} LessIrreflexive(a: seq<bool>, n: nat)
    requires n <= |a|
    ensures !Less(a, a, n)
  {
    if n > 0 {
      LessIrreflexive(a, n - 1);
    }
  }

  /** The weight only depends on the bits that are counted. */
  lemma {:induction false} WeightCongruent(a: seq<bool>, b: seq<bool>, n: nat)
    requires n <= |a| && n <= |b| && a[..n] == b[..n]
    ensures Weight(a, n) == Weight(b, n)
  {
    if n > 0 {
      assert a[..n][n - 1] == b[..n][n - 1];
      assert a[..n - 1] == a[..n][..n - 1];
      assert b[..n - 1] == b[..n][..n - 1];
      WeightCongruent(a, b, n - 1);
    }
  }

  /** Extending the count over bits that agree keeps the difference of the weights. */
  lemma {:induction false} WeightAbove(a: seq<bool>, b: seq<bool>, m: nat, n: nat)
    requires m <= n <= |a| && n <= |b|
    requires forall i :: m <= i < n ==> a[i] == b[i]
    ensures Weight(a, n) - Weight(a, m) == Weight(b, n) - Weight(b, m)
  {
    if m < n {
      WeightAbove(a, b, m, n - 1);
    }
  }

  lemma {:induction false} WeightOfOnes(a: seq<bool>, m: nat, n: nat)
    requires m <= n <= |a|
    requires forall i :: m <= i < n ==> a[i]
    ensures Weight(a, n) == Weight(a, m) + n - m
  {
    if m < n {
      WeightOfOnes(a, m, n - 1);
    }
  }

  lemma {:induction false} WeightOfZeros(a: seq<bool>, m: nat, n: nat)
    requires m <= n <= |a|
    requires forall i :: m <= i < n ==> !a[i]
    ensures Weight(a, n) == Weight(a, m)
  {
    if m < n {
      WeightOfZeros(a, m, n - 1);
    }
  }

  /** No n bits of weight w write less than the w lowest ones. */
  lemma {:induction false} LowOnesAreLeast(a: seq<bool>, low: seq<bool>, n: nat)
    requires n <= |a| && n <= |low|
    requires forall i :: 0 <= i < n ==> low[i] == (i < Weight(a, n))
    ensures !Less(a, low, n)
  {
    if n > 0 {
      if a[n - 1] == low[n - 1] {
        if a[n - 1] {
          assert Weight(a, n - 1) == n - 1;
        }
        LowOnesAreLeast(a, low, n - 1);
      }
    }
  }

  /** No n bits of weight w write more than the w highest ones. */
  lemma {:induction false} HighOnesAreGreatest(a: seq<bool>, high: seq<bool>, n: nat)
    requires n <= |a| && n <= |high|
    requires forall i :: 0 <= i < n ==> high[i] == (i >= n - Weight(a, n))
    ensures !Less(high, a, n)
  {
    if n > 0 {
      if a[n - 1] == high[n - 1] {
        HighOnesAreGreatest(a, high, n - 1);
      }
    }
  }

  /** Words that agree on the bits from m up are compared on the m bits below. */
  lemma {:induction false} LessBelow(a: seq<bool>, b: seq<bool>, m: nat, n: nat)
    requires m <= n <= |a| && n <= |b|
    requires forall i :: m <= i < n ==> a[i] == b[i]
    ensures Less(a, b, n) <==> Less(a, b, m)
  {
    if m < n {
      LessBelow(a, b, m, n - 1);
    }
  }

  /** A difference in the bits from m up decides the comparison, whatever lies below. */
  lemma {:induction false} LessAbove(a: seq<bool>, b: seq<bool>, c: seq<bool>, m: nat, n: nat)
    requires m <= n <= |a| && n <= |b| && n <= |c|
    requires exists i :: m <= i < n && a[i] != b[i]
    requires forall i :: m <= i < n ==> b[i] == c[i]
    ensures Less(a, b, n) <==> Less(a, c, n)
  {
    if a[n - 1] == b[n - 1] {
      LessAbove(a, b, c, m, n - 1);
    }
  }
}
