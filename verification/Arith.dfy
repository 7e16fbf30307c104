/** Division facts the solver does not find by itself. */
module Arith {

  lemma MulAtLeast(d: int, a: int)
    requires d >= 1 && a > 0
    ensures d * a >= a
  {
    assert (d - 1) * a >= 0;
  }

  lemma SmallMultiple(d: int, a: int)
    requires a > 0 && -a < d * a < a
    ensures d == 0
  {
    if d >= 1 { MulAtLeast(d, a); }
    if -d >= 1 { MulAtLeast(-d, a); }
  }

  lemma DivModUnique(x: int, a: int, q: int, r: int)
    requires a > 0 && 0 <= r < a && x == q * a + r
    ensures x / a == q && x % a == r
  {
    var q', r' := x / a, x % a;
    assert x == q' * a + r';
    assert (q - q') * a == q * a - q' * a;
    SmallMultiple(q - q', a);
  }

  lemma MultipleMod(a: int, k: int)
    requires a > 0
    ensures (k * a) % a == 0
  {
    DivModUnique(k * a, a, k, 0);
  }

  lemma AddMultiple(a: int, x: int, y: int)
    requires a > 0 && x % a == 0 && y % a == 0
    ensures (x + y) % a == 0
  {
    var k, l := x / a, y / a;
    assert x + y == (k + l) * a;
    MultipleMod(a, k + l);
  }

  lemma SubMultiple(a: int, x: int, y: int)
    requires a > 0 && x % a == 0 && y % a == 0
    ensures (x - y) % a == 0
  {
    var k, l := x / a, y / a;
    assert x - y == (k - l) * a;
    MultipleMod(a, k - l);
  }

  /** Rounding down to a multiple. */
  lemma FloorMultiple(n: int, a: int)
    requires a > 0
    ensures n / a * a <= n < n / a * a + a
    ensures (n / a * a) % a == 0
  {
    MultipleMod(a, n / a);
  }

  /** Two multiples of `a` less than `a` apart are equal. */
  lemma CloseMultiples(a: int, x: int, y: int)
    requires a > 0 && x % a == 0 && y % a == 0 && x < y
    ensures x + a <= y
  {
    SubMultiple(a, y, x);
  }
}
