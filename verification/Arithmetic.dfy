/** Powers of two, machine words and remainders of small numbers. */
module Arithmetic {
  const UINT64 := 0x1_0000_0000_0000_0000

  function Pow2(n: nat): (r: nat)
    ensures r > 0
  {
    if n == 0 then 1 else 2 * Pow2(n - 1)
  }

  /** An index that ran over the end at most once, wrapped. */
  lemma SmallMod(n: nat, m: nat)
    requires n < 2 * m
    ensures n % m == if n < m then n else n - m
  {
    if n >= m {
      assert n == (n - m) + m * 1;
      ModPlus(n - m, m);
    }
  }

  lemma ModPlus(n: nat, m: nat)
    requires n < m
    ensures (n + m) % m == n
  {
  }

  lemma StepUp(d: nat, a: nat, b: nat)
    requires a < b
    ensures d * a + d <= d * b
  {
    StepsUp(d, a + 1, b);
    assert d * (a + 1) == d * a + d;
  }

  lemma StepsUp(d: nat, a: nat, b: nat)
    requires a <= b
    ensures d * a <= d * b
  {
  }

  /** Quotient and rest are determined. */
  lemma QuotientIs(v: nat, d: nat, q: nat, r: nat)
    requires d > 0 && v == d * q + r && r < d
    ensures v / d == q && v % d == r
  {
    var other, rest := v / d, v % d;
    assert v == d * other + rest;
    if other < q {
      StepUp(d, other, q);
    } else if q < other {
      StepUp(d, q, other);
    }
  }
}
