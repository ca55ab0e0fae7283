/** Euclidean division facts with a variable divisor. */
module Arith {

  lemma QuotientUnique(n: int, k: int, q: int, r: int)
    requires 0 <= r < k && n == q * k + r
    ensures n / k == q && n % k == r
  {
    var d := n / k - q;
    assert d * k == r - n % k;
    MulBound(d, k);
  }

  lemma MulBound(d: int, k: int)
    requires k > 0
    ensures d >= 1 ==> d * k >= k
    ensures d <= -1 ==> d * k <= -k
  {
  }

  /** Of `m` consecutive numbers only one is a multiple of `m`. */
  lemma OneMultiple(a: int, b: int, m: int)
    requires m > 0 && a % m == 0 && b % m == 0 && a <= b < a + m
    ensures a == b
  {
    assert b == (a / m) * m + (b - a);
    QuotientUnique(b, m, a / m, b - a);
  }

  lemma NextMultiple(a: int, m: int)
    requires m > 0
    ensures (a + m) % m == a % m
  {
    assert a + m == (a / m + 1) * m + a % m;
    QuotientUnique(a + m, m, a / m + 1, a % m);
  }

  lemma SmallMod(a: int, m: int)
    requires 0 <= a < m
    ensures a % m == a
  {
    QuotientUnique(a, m, 0, a);
  }
}
