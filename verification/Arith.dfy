/** Division, rounded down and up. */
module Arith {

  const TWO_TO_32: nat := 0x1_0000_0000

  lemma MulLe(p: nat, a: int, b: int)
    ensures a <= b ==> p * a <= p * b
  {
  }

  /** Division with remainder is unique. */
  lemma DivMod(d: nat, p: nat, q: nat, r: nat)
    requires p > 0 && d == p * q + r && r < p
    ensures d % p == r && d / p == q
  {
    var q', r' := d / p, d % p;
    assert d == p * q' + r';
    MulLe(p, q' + 1, q);
    MulLe(p, q + 1, q');
    assert p * (q' + 1) == p * q' + p && p * (q + 1) == p * q + p;
  }

  function CeilDiv(n: nat, d: nat): nat
    requires d > 0
  {
    (n + d - 1) / d
  }
}
