/** Products, quotients and remainders. */
module Arithmetic {

  function Quotient(n: nat, d: nat): nat
    requires d > 0
  {
    n / d
  }

  lemma {:induction false} MulMono(x: int, y: int, b: nat)
    requires x <= y
    ensures x * b <= y * b
  {
  }

  /** A quotient and a remainder are determined by their equation. */
  lemma {:induction false} DivUnique(x: int, q: int, r: nat, b: nat)
    requires r < b && x == q * b + r
    ensures x / b == q && x % b == r
  {
    var q', r' := x / b, x % b;
    assert (q - q') * b == r' - r;
    if q > q' {
      MulMono(1, q - q', b);
    } else if q < q' {
      MulMono(q - q', -1, b);
    }
  }
}
