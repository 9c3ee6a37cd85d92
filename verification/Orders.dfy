/** drm_order: the exponent of the least power of two that is not below a size. */
module Orders {
  import opened Arith

  /** C's `&` on unsigned numbers. */
  function And(a: nat, b: nat): nat {
    if a == 0 || b == 0 then 0 else 2 * And(a / 2, b / 2) + (a % 2) * (b % 2)
  }

  const ULONG: int := 0x1_0000_0000_0000_0000

  lemma {:induction false} AndSelf(n: nat)
    ensures And(n, n) == n
  {
    if n > 0 {
      AndSelf(n / 2);
      assert n % 2 == 0 || n % 2 == 1;
      assert n == 2 * (n / 2) + n % 2;
    }
  }

  /** n & (n - 1) is 0 exactly when n, between 2^k and 2^(k+1), is 2^k. */
  lemma {:induction false} PowerTest(n: nat, k: nat)
    requires Pow2(k) <= n < 2 * Pow2(k)
    ensures And(n, n - 1) == 0 <==> n == Pow2(k)
  {
    if k > 0 {
      PowerTest(n / 2, k - 1);
      if n % 2 == 0 {
        assert (n - 1) / 2 == n / 2 - 1;
        assert n == 2 * (n / 2);
      } else {
        assert (n - 1) / 2 == n / 2;
        AndSelf(n / 2);
      }
    }
  }

  predicate LeastOrder(size: nat, k: nat) {
    Pow2(k) >= size && forall j: nat :: j < k ==> Pow2(j) < size
  }

  /** The least order is unique. */
  lemma LeastOrderUnique(size: nat, i: nat, j: nat)
    requires LeastOrder(size, i) && LeastOrder(size, j)
    ensures i == j
  {
  }

  /** The order as a function of the size. */
  function OrderOf(size: nat): (k: nat)
    ensures LeastOrder(size, k)
  {
    OrderFrom(size, 0)
  }

  function OrderFrom(size: nat, k: nat): (r: nat)
    requires forall j: nat :: j < k ==> Pow2(j) < size
    ensures LeastOrder(size, r)
    decreases size - Pow2(k)
  {
    if Pow2(k) >= size then k else PowMonotone(k, k + 1); OrderFrom(size, k + 1)
  }

  lemma Halve(n: nat, p: nat)
    requires p > 0
    ensures n / p / 2 == n / (2 * p)
    ensures n / p != 0 ==> n >= p
  {
    var q, r := n / p, n % p;
    assert n == q * p + r;
    var h := q / 2;
    var rest := (q - 2 * h) * p + r;
    assert 0 <= q - 2 * h <= 1;
    assert n == h * (2 * p) + rest && 0 <= rest < 2 * p;
    DivModUnique(h, 2 * p, rest);
  }

  /** The position of the top bit, as the shifting loop finds it. */
  method TopBit(size: nat) returns (order: nat)
    ensures size > 0 ==> Pow2(order) <= size
    ensures size < 2 * Pow2(order)
    ensures size == 0 ==> order == 0
  {
    order := 0;
    var tmp := size / 2;
    ghost var p := 2;
    while tmp != 0
      invariant p == 2 * Pow2(order) && tmp == size / p
      invariant size == 0 ==> order == 0 && tmp == 0
      invariant size > 0 ==> Pow2(order) <= size
    {
      Halve(size, p);
      tmp, order, p := tmp / 2, order + 1, 2 * p;
    }
  }

  method DrmOrder(size: nat) returns (order: nat)
    requires size < ULONG
    ensures Pow2(order) >= size && forall j: nat :: j < order ==> Pow2(j) < size
  {
    order := TopBit(size);
    if size > 0 { PowerTest(size, order); }
    TopBitOrder(size, order);
    if And(size, (size - 1) % ULONG) != 0 {
      order := order + 1;
    }
  }

  lemma TopBitOrder(size: nat, top: nat)
    requires size > 0 ==> Pow2(top) <= size
    requires size < 2 * Pow2(top) && (size == 0 ==> top == 0)
    ensures LeastOrder(size, if size <= Pow2(top) then top else top + 1)
  {
    forall j: nat | j < top ensures Pow2(j) < size { PowMonotone(j, top); }
  }
}
