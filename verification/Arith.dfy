// Division with a variable divisor.
module Arith {
  lemma ProductAtLeast(k: int, a: nat)
    requires a > 0 && k >= 1
    ensures k * a >= a
  {
    assert k * a == (k - 1) * a + a;
    assert (k - 1) * a >= 0;
  }

  lemma DivModUnique(x: int, a: nat, q: int, r: int)
    requires a > 0 && x == q * a + r && 0 <= r < a
    ensures x / a == q && x % a == r
  {
    var q', r' := x / a, x % a;
    assert x == q' * a + r';
    assert (q - q') * a == r' - r && (q' - q) * a == r - r';
    if q > q' { ProductAtLeast(q - q', a); }
    if q < q' { ProductAtLeast(q' - q, a); }
  }

  lemma RoundDownIsMultiple(x: nat, a: nat)
    requires a > 0
    ensures (x - x % a) % a == 0
  {
    assert x - x % a == (x / a) * a;
    DivModUnique(x - x % a, a, x / a, 0);
  }
}
