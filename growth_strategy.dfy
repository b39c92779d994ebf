/** The capacity growth rules of the array list: each maps the current capacity
    to the next one, computed on 32-bit C# ints. */
module GrowthStrategy {
  import opened CSharpInt

  function Pow2(k: nat): (p: nat)
    ensures p >= 1
  {
    if k == 0 then 1 else 2 * Pow2(k - 1)
  }

  // ---------------------------------------------------------------------------
  // DoubleGrowthStrategy

  /** The new size: the current size times two, as an unchecked int product,
      which agrees with `2n` modulo 2^32 and equals it whenever it fits. */
  function DoubleNewSize(n: int32): (r: int32)
    ensures (r as int - 2 * n as int) % 0x1_0000_0000 == 0
    ensures Int32Min <= 2 * n as int <= Int32Max ==> r as int == 2 * n as int
  {
    Wrap(2 * n as int)
  }

  /** Without overflow the rule doubles, so zero stays zero and any positive size
      grows; the result is even whatever happens. */
  lemma DoubleExact(n: int32)
    ensures -0x4000_0000 <= n < 0x4000_0000 ==> DoubleNewSize(n) as int == 2 * n as int
    ensures 0 < n < 0x4000_0000 ==> DoubleNewSize(n) > n
    ensures DoubleNewSize(0) == 0
    ensures DoubleNewSize(n) % 2 == 0
  {
    var r := DoubleNewSize(n) as int;
    assert (r - 2 * n as int) % 0x1_0000_0000 == 0;
    var q := (r - 2 * n as int) / 0x1_0000_0000;
    assert r == 2 * (n as int + q * 0x8000_0000);
  }

  /** From `2^30` on the product leaves the int range: the rule wraps to a
      negative size. */
  lemma DoubleWrapsAround()
    ensures DoubleNewSize(0x4000_0000) as int == Int32Min
  {
  }

  /** `k` successive applications of the doubling rule. */
  function DoubleRepeated(n: int32, k: nat): int32
  {
    if k == 0 then n else DoubleNewSize(DoubleRepeated(n, k - 1))
  }

  /** Starting from 2, the `k`-th size is `2^(k + 1)` as long as it fits: 4, 8,
      ..., 2048 after one to ten steps. */
  lemma {:induction false} DoubleFromTwo(k: nat)
    requires Pow2(k + 1) <= 0x4000_0000
    ensures DoubleRepeated(2, k) as int == Pow2(k + 1)
  {
    if k > 0 {
      DoubleFromTwo(k - 1);
      DoubleExact(DoubleRepeated(2, k - 1));
    }
  }

  /** The sizes 4, 8, ..., 2048 reached from 2 in one to ten steps. */
  lemma DoubleScenario()
    ensures forall k :: 1 <= k <= 10 ==> DoubleRepeated(2, k) as int == Pow2(k + 1)
    ensures DoubleRepeated(2, 10) == 2048
  {
    assert Pow2(11) == 2048 by {
      assert Pow2(4) == 16;
      assert Pow2(8) == 256;
    }
    forall k | 1 <= k <= 10
      ensures DoubleRepeated(2, k) as int == Pow2(k + 1)
    {
      Pow2Monotonic(k + 1, 11);
      DoubleFromTwo(k);
    }
  }

  lemma {:induction false} Pow2Monotonic(k: nat, m: nat)
    requires k <= m
    ensures Pow2(k) <= Pow2(m)
    decreases m
  {
    if k < m {
      Pow2Monotonic(k, m - 1);
    }
  }

  // ---------------------------------------------------------------------------
  // JavaGrowthStrategy

  /** One and a half times the size, rounded up; on ints, where the division of
      Dafny rounds down: the least integer whose double is at least `3n`. */
  function JavaRule(n: int): (r: int)
    ensures 2 * r >= 3 * n && 2 * (r - 1) < 3 * n
  {
    (3 * n + 1) / 2
  }

  /** The conversion back to int is defined only when the rounded value fits. */
  predicate JavaFits(n: int32)
  {
    Int32Min <= JavaRule(n as int) <= Int32Max
  }

  /** The new size: the ceiling of `currentSize * 3.0 / 2.0`, converted to int.
      The double arithmetic is exact on 32-bit operands. */
  function JavaNewSize(n: int32): (r: int32)
    requires JavaFits(n)
    ensures 2 * r as int >= 3 * n as int && 2 * (r as int - 1) < 3 * n as int
  {
    JavaRule(n as int) as int32
  }

  /** A size never shrinks and at most doubles; a positive size strictly grows, and
      zero stays zero. */
  lemma JavaBounds(n: int32)
    requires JavaFits(n) && n >= 0
    ensures n <= JavaNewSize(n) && JavaNewSize(n) as int <= 2 * n as int
    ensures n >= 1 ==> n < JavaNewSize(n)
    ensures n == 0 ==> JavaNewSize(n) == 0
  {
  }

  /** `k` successive applications of the 3/2 rule. */
  function JavaRepeated(n: int, k: nat): int
  {
    if k == 0 then n else JavaRule(JavaRepeated(n, k - 1))
  }

  /** Starting from 2, the `k`-th size never exceeds the doubling sequence's
      `2^(k + 1)`; every step therefore stays in the int range for `k <= 29`. */
  lemma {:induction false} JavaFromTwo(k: nat)
    ensures 2 <= JavaRepeated(2, k) <= Pow2(k + 1)
  {
    if k > 0 {
      JavaFromTwo(k - 1);
    }
  }

  /** The sizes 3, 5, 8, 12, 18, 27, 41, 62, 93, 140 reached from 2 in one to ten
      steps: each within the doubling sequence's bound. */
  lemma JavaScenario()
    ensures forall k :: 1 <= k <= 10 ==> JavaRepeated(2, k) <= Pow2(k + 1)
    ensures JavaRepeated(2, 10) == 140
  {
    forall k | 1 <= k <= 10
      ensures JavaRepeated(2, k) <= Pow2(k + 1)
    {
      JavaFromTwo(k);
    }
    assert JavaRepeated(2, 3) == 8;
    assert JavaRepeated(2, 6) == 27;
    assert JavaRepeated(2, 9) == 93;
  }
}
