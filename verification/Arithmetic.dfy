// Division with remainder by a variable divisor, in the small steps the verifier needs.
module Arithmetic {

  lemma Multiple(a: int, b: int, d: int)
    requires a <= b && 0 <= d
    ensures a * d <= b * d
  {
  }

  lemma SmallMultiple(k: int, d: int)
    requires -d < k * d < d
    ensures k == 0
  {
  }

  lemma Division(n: int, d: int)
    requires d > 0
    ensures n == n / d * d + n % d && 0 <= n % d < d
    ensures 0 <= n ==> 0 <= n / d
  {
  }

  lemma Quotient(n: int, q: int, r: int, d: int)
    requires n == q * d + r && 0 <= r < d
    ensures n / d == q && n % d == r
  {
    Division(n, d);
    var k := n / d - q;
    assert k * d == r - n % d;
    SmallMultiple(k, d);
  }
}
