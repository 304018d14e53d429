/** Small facts of integer division and powers of two used across the
    modules. */
module Arith {

  /** Counting on by one step modulo m. */
  lemma ModSucc(a: nat, k: nat, m: nat)
    requires m > 0
    ensures ((a + k) % m + 1) % m == (a + (k + 1)) % m
  {
    var n := a + k;
    ModNext(n, m);
    assert n + 1 == a + (k + 1);
  }

  lemma ModNext(n: nat, m: nat)
    requires m > 0
    ensures (n % m + 1) % m == (n + 1) % m
  {
    var q, r := n / m, n % m;
    var p := q * m;
    assert n == p + r;
    if r + 1 < m {
      ModOf(r + 1, m, 0, r + 1);
      ModOf(n + 1, m, q, r + 1);
    } else {
      MulSucc(q, m);
      ModOf(r + 1, m, 1, 0);
      ModOf(n + 1, m, q + 1, 0);
    }
  }

  lemma MulSucc(q: int, m: int)
    ensures (q + 1) * m == q * m + m
  {
  }

  lemma ModOf(a: int, m: int, q: int, r: int)
    requires m > 0 && 0 <= r < m && a == q * m + r
    ensures a % m == r
  {
    var q', r' := a / m, a % m;
    assert a == q' * m + r';
    assert (q - q') * m == r' - r;
    if q > q' {
      MulAtLeast(q - q', m);
    } else if q < q' {
      MulAtLeast(q' - q, m);
    }
  }

  lemma MulAtLeast(d: int, m: int)
    requires d >= 1 && m > 0
    ensures d * m >= m
  {
  }

  function Pow2(n: nat): (r: nat)
    ensures r >= 1
  {
    if n == 0 then 1 else 2 * Pow2(n - 1)
  }

  lemma {:induction false} Pow2Add(a: nat, b: nat)
    ensures Pow2(a + b) == Pow2(a) * Pow2(b)
  {
    if a > 0 {
      Pow2Add(a - 1, b);
    }
  }
}
