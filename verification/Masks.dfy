// Bit masks on natural numbers: what `x & ~(a-1)` computes, for powers of two and for other `a`.
module Masks {
  import Arith

  function Pow2(n: nat): (r: nat)
    ensures r > 0
  {
    if n == 0 then 1 else 2 * Pow2(n - 1)
  }

  predicate PowerOfTwo(a: nat) {
    a == 1 || (a > 1 && a % 2 == 0 && PowerOfTwo(a / 2))
  }

  /** The lowest bit of `x & y`. */
  function Both(x: nat, y: nat): nat {
    if x % 2 == 1 && y % 2 == 1 then 1 else 0
  }

  /** `x & y`, bit by bit. */
  function BitAnd(x: nat, y: nat): (r: nat)
    ensures r <= x && r <= y
  {
    if x == 0 || y == 0 then 0 else Both(x, y) + 2 * BitAnd(x / 2, y / 2)
  }

  /** One step of the recursion, without its base case. */
  lemma {:induction false} LowBit(x: nat, y: nat)
    ensures BitAnd(x, y) == Both(x, y) + 2 * BitAnd(x / 2, y / 2)
  {
  }

  /** A mask and its complement in n bits split a number. */
  lemma {:induction false} Complement(n: nat, x: nat, c: nat)
    requires x < Pow2(n) && c < Pow2(n)
    ensures BitAnd(x, Pow2(n) - 1 - c) == x - BitAnd(x, c)
  {
    if n > 0 {
      var d := Pow2(n) - 1 - c;
      HalvedComplement(Pow2(n - 1), c, d);
      Complement(n - 1, x / 2, c / 2);
      SplitBits(x, c, d);
    }
  }

  lemma HalvedComplement(p: nat, c: nat, d: nat)
    requires c < 2 * p && d == 2 * p - 1 - c
    ensures d / 2 == p - 1 - c / 2 && d % 2 == 1 - c % 2
  {
  }

  lemma {:induction false} SplitBits(x: nat, c: nat, d: nat)
    requires d % 2 == 1 - c % 2 && BitAnd(x / 2, d / 2) == x / 2 - BitAnd(x / 2, c / 2)
    ensures BitAnd(x, d) == x - BitAnd(x, c)
  {
    LowBit(x, c);
    LowBit(x, d);
    assert x == x % 2 + 2 * (x / 2) && Both(x, d) == x % 2 - Both(x, c);
  }

  /** In n bits `~(a-1)` is 2^n - a: masking with it takes off less than `a`. */
  lemma {:induction false} MaskTakesLessThan(n: nat, x: nat, a: nat)
    requires x < Pow2(n) && 0 < a <= Pow2(n)
    ensures BitAnd(x, Pow2(n) - a) == x - BitAnd(x, a - 1)
    ensures x - a < BitAnd(x, Pow2(n) - a) <= x
  {
    Complement(n, x, a - 1);
  }

  /** The low bits under a power of two are the remainder. */
  lemma {:induction false} LowBitsAreRemainder(x: nat, a: nat)
    requires PowerOfTwo(a)
    ensures BitAnd(x, a - 1) == x % a
    decreases a
  {
    if a > 1 {
      LowBitsAreRemainder(x / 2, a / 2);
      LowBit(x, a - 1);
      assert (a - 1) / 2 == a / 2 - 1 && (a - 1) % 2 == 1;
      HalvedRemainder(x, a);
    }
  }

  lemma {:induction false} HalvedRemainder(x: nat, a: nat)
    requires a > 1 && a % 2 == 0
    ensures x % a == x % 2 + 2 * (x / 2 % (a / 2))
  {
    var c, h := a / 2, x / 2;
    var q, r := h / c, h % c;
    assert h == q * c + r && x == 2 * h + x % 2;
    assert 2 * (q * c) == q * a;
    Arith.DivModUnique(x, a, q, 2 * r + x % 2);
  }

  /** For a power of two the mask rounds down to a multiple. */
  lemma {:induction false} MaskRoundsDown(n: nat, x: nat, a: nat)
    requires PowerOfTwo(a) && x < Pow2(n) && a <= Pow2(n)
    ensures BitAnd(x, Pow2(n) - a) == x - x % a
  {
    MaskTakesLessThan(n, x, a);
    LowBitsAreRemainder(x, a);
  }

  lemma {:induction false} HighBitApart(n: nat, c: nat)
    requires c < Pow2(n)
    ensures BitAnd(Pow2(n), c) == 0
  {
    if n > 0 {
      HighBitApart(n - 1, c / 2);
      LowBit(Pow2(n), c);
      assert Pow2(n) / 2 == Pow2(n - 1);
    }
  }

  /** Only powers of two divide a power of two. */
  lemma {:induction false} OnlyPowersDivide(n: nat, a: nat)
    requires a > 0 && Pow2(n) % a == 0
    ensures PowerOfTwo(a)
  {
    if a > 1 {
      var q := Pow2(n) / a;
      assert n > 0 && Pow2(n) == 2 * Pow2(n - 1) == q * a;
      if a % 2 == 0 {
        assert Pow2(n - 1) == q * (a / 2) by { Halved(Pow2(n - 1), a / 2, q); }
        Arith.DivModUnique(Pow2(n - 1), a / 2, q, 0);
        OnlyPowersDivide(n - 1, a / 2);
      } else {
        OddFactor(q, a);
        Halved(Pow2(n - 1), q / 2, a);
        Arith.DivModUnique(Pow2(n - 1), a, q / 2, 0);
        OnlyPowersDivide(n - 1, a);
      }
    }
  }

  lemma Halved(x: nat, half: nat, y: nat)
    requires 2 * x == y * (2 * half)
    ensures x == y * half
  {
  }

  lemma OddFactor(q: nat, a: nat)
    requires a % 2 == 1 && q * a % 2 == 0
    ensures q % 2 == 0
  {
    var h := a / 2;
    assert q * a == 2 * (q * h) + q by { assert a == 2 * h + 1; }
  }

  lemma {:induction false} Pow2IsPower(n: nat)
    ensures PowerOfTwo(Pow2(n))
  {
    if n > 0 { Pow2IsPower(n - 1); }
  }
}
