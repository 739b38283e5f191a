/** Multiplication and division facts the counting arguments rest on. */
module Arithmetic {
  function Max(x: int, y: int): int {
    if x < y then y else x
  }

  function Min(x: int, y: int): int {
    if x < y then x else y
  }

  lemma MulBounds(d: int, k: int)
    requires 0 < d
    ensures k >= 1 ==> d * k >= d
    ensures k <= -1 ==> d * k <= -d
  {
    if k >= 1 {
      assert d * k == d * (k - 1) + d;
    } else if k <= -1 {
      assert d * k == d * (k + 1) - d;
    }
  }

  lemma DivModUnique(x: int, d: int, q: int, r: int)
    requires 0 < d && x == q * d + r && 0 <= r < d
    ensures x / d == q && x % d == r
  {
    assert d * (x / d - q) == r - x % d;
    MulBounds(d, x / d - q);
  }

  lemma MultipleMod(k: int, d: int)
    requires 0 < d
    ensures (k * d) % d == 0
  {
    DivModUnique(k * d, d, k, 0);
  }

  lemma MulDistributes(n: int, a: int, b: int)
    ensures n * (a + b) == n * a + n * b
  {
  }

  lemma MulMonotone(d: nat, a: int, b: int)
    requires a <= b
    ensures d * a <= d * b
  {
    assert d * b == d * a + d * (b - a);
  }

  lemma DivStep(x: int, d: int)
    requires 0 < d
    ensures (x + d) / d == x / d + 1
  {
    var q := x / d;
    assert (q + 1) * d == q * d + d;
    DivModUnique(x + d, d, q + 1, x % d);
  }

  lemma DivSmall(x: int, d: int)
    requires 0 <= x < d
    ensures x / d == 0
  {
    DivModUnique(x, d, 0, x);
  }
}
