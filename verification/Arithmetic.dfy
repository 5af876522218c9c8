/** Multiplication, and rows and columns: division with its remainder. */
module Arithmetic {
  lemma MulMono(a: int, b: int, c: int)
    requires c >= 0
    ensures a <= b ==> a * c <= b * c
  {}

  lemma SmallMultiple(x: int, d: int)
    requires d > 0
    ensures -d < x * d < d ==> x == 0
  {
    MulMono(1, x, d);
    MulMono(x, -1, d);
  }

  lemma DivMod(q: int, r: int, d: int)
    requires d > 0 && 0 <= r < d
    ensures (q * d + r) / d == q && (q * d + r) % d == r
  {
    var n := q * d + r;
    var x := n / d - q;
    assert n == n / d * d + n % d;
    assert x * d == r - n % d;
    SmallMultiple(x, d);
  }

  lemma DivModOf(n: nat, d: nat)
    requires d > 0
    ensures n == n / d * d + n % d && 0 <= n % d < d && n / d >= 0
  {}

  lemma EvenProduct(a: int, b: int)
    requires b % 2 == 0
    ensures a * b % 2 == 0 && a * b / 2 == a * (b / 2)
  {
    var k := b / 2;
    assert a * b == 2 * (a * k);
  }
}
