/** Facts about products and quotients. */
module Integers {

  function Min(a: int, b: int): (r: int)
    ensures r <= a && r <= b && (r == a || r == b)
  {
    if a < b then a else b
  }

  lemma Times(a: int, b: int, c: int)
    requires a >= b && c >= 0
    ensures a * c >= b * c
  {
  }

  lemma Distribute(p: int, q: int, d: int)
    ensures (p + q) * d == p * d + q * d
    ensures (p - q) * d == p * d - q * d
  {
  }

  lemma MulAtLeast(k: int, d: nat)
    requires k >= 1
    ensures k * d >= d && (-k) * d + d <= 0
  {
  }

  /** A quotient and a remainder in range are the only ones. */
  lemma DivUnique(a: int, d: nat, q: int, r: int)
    requires d > 0 && a == q * d + r && 0 <= r < d
    ensures a / d == q && a % d == r
  {
    var p := a / d;
    Distribute(p, q, d);
    assert (p - q) * d == r - a % d;
    if p > q {
      MulAtLeast(p - q, d);
    } else if p < q {
      MulAtLeast(q - p, d);
    }
  }
}
