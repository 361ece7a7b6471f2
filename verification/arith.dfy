/** Facts about multiplication and Euclidean division on naturals that the
    index and partition arithmetic rely on. */
module Arith {

  lemma MulMono(a: nat, b: nat, k: nat)
    requires a <= b
    ensures a * k <= b * k
  {
    assert b * k == a * k + (b - a) * k;
  }

  lemma Split(i: nat, d: nat) returns (q: nat, r: nat)
    requires d > 0
    ensures q == i / d && r == i % d
    ensures r < d && i == q * d + r
  {
    q, r := i / d, i % d;
  }

  lemma UniqueDivMod(d: nat, q: nat, r: nat, q': nat, r': nat)
    requires r < d && r' < d && q * d + r == q' * d + r'
    ensures q == q' && r == r'
  {
    if q < q' {
      MulMono(q + 1, q', d);
      assert false;
    } else if q' < q {
      MulMono(q' + 1, q, d);
      assert false;
    }
  }

  /** A quotient-remainder pair with the remainder below the divisor is the
      Euclidean division. */
  lemma DivModOf(a: nat, d: nat, q: nat, r: nat)
    requires r < d && a == q * d + r
    ensures a / d == q && a % d == r
  {
    var q', r' := Split(a, d);
    UniqueDivMod(d, q, r, q', r');
  }

  /** Adding a multiple of the modulus does not change the remainder. */
  lemma ModShift(x: nat, q: nat, m: nat)
    requires m > 0
    ensures (x + q * m) % m == x % m
  {
    var a, r := Split(x, m);
    var a', r' := Split(x + q * m, m);
    assert x + q * m == (a + q) * m + r;
    UniqueDivMod(m, a + q, r, a', r');
  }

  /** Reducing an operand first does not change the remainder of a sum. */
  lemma ModAdd(a: nat, b: nat, m: nat)
    requires m > 0
    ensures (a % m + b) % m == (a + b) % m
  {
    var q, r := Split(a, m);
    ModShift(r + b, q, m);
    assert a + b == (r + b) + q * m;
  }
}
