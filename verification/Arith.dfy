/** Powers of two, and facts about products and quotients. */
module Arith {
  function Pow2(k: nat): (p: nat)
    ensures p > 0
  {
    if k == 0 then 1 else 2 * Pow2(k - 1)
  }

  lemma {:induction false} PowMonotone(i: nat, j: nat)
    requires i < j
    ensures 2 * Pow2(i) <= Pow2(j)
  {
    if i < j - 1 { PowMonotone(i, j - 1); }
  }

  lemma {:induction false} PowAdd(i: nat, j: nat)
    ensures Pow2(i + j) == Pow2(i) * Pow2(j)
  {
    if i > 0 { PowAdd(i - 1, j); }
  }

  lemma MulLe(a: int, b: int, s: nat)
    requires a <= b
    ensures a * s <= b * s
  {
  }

  lemma MulNext(n: int, a: int)
    ensures (n + 1) * a == n * a + a
  {
  }

  lemma DivModUnique(q: int, s: int, m: int)
    requires 0 <= m < s
    ensures (q * s + m) / s == q && (q * s + m) % s == m
  {
    var n := q * s + m;
    var q1, m1 := n / s, n % s;
    assert n == s * q1 + m1;
    assert (q - q1) * s == m1 - m;
    if q > q1 { MulLe(1, q - q1, s); } else if q < q1 { MulLe(q - q1, -1, s); }
  }

  /** Rounding up gives the least multiple that is not below. */
  lemma RoundsUp(size: nat, page: nat)
    requires page > 0
    ensures var r := (size + page - 1) / page * page; size <= r < size + page && r % page == 0
  {
    var sum := size + page - 1;
    var q, m := sum / page, sum % page;
    assert sum == q * page + m;
    DivModUnique(q, page, 0);
  }
}
