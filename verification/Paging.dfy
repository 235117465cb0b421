/** Positions within pages of a fixed size. */
module Paging {
  import opened Arith

  function Pos(size: nat, x: nat): nat
    requires size > 0
  {
    x % size
  }

  function Base(size: nat, x: nat): nat
    requires size > 0
  {
    size * (x / size)
  }

  lemma Split(size: nat, x: nat)
    requires size > 0
    ensures x == Base(size, x) + Pos(size, x) && Pos(size, x) < size
  {
  }

  /** Moving on within a page, or exactly to its end. */
  lemma Move(size: nat, x: nat, d: nat)
    requires size > 0 && Pos(size, x) + d <= size
    ensures Pos(size, x) + d < size ==> Pos(size, x + d) == Pos(size, x) + d && Base(size, x + d) == Base(size, x)
    ensures Pos(size, x) + d == size ==> Pos(size, x + d) == 0
  {
    var q := x / size;
    if Pos(size, x) + d < size {
      DivMod(x + d, size, q, Pos(size, x) + d);
    } else {
      assert size * (q + 1) == size * q + size;
      DivMod(x + d, size, q + 1, 0);
    }
  }

  /** Whole pages further on the position is the same. */
  lemma SamePos(size: nat, x: nat, y: nat, k: nat)
    requires size > 0 && y == x + size * k
    ensures Pos(size, y) == Pos(size, x)
  {
    assert size * (x / size + k) == size * (x / size) + size * k;
    DivMod(y, size, x / size + k, x % size);
  }

  /** A page that starts below a whole number of pages ends there too. */
  lemma PageFits(size: nat, x: nat, total: nat)
    requires size > 0 && total % size == 0 && x < total
    ensures Base(size, x) + size <= total
  {
    Split(size, x);
    var q, k := x / size, total / size;
    assert total == size * k;
    MulLe(size, k, q);
    MulLe(size, q + 1, k);
    assert size * (q + 1) == size * q + size;
  }

  /** Halving a quotient. */
  lemma DivTwice(d: nat, p: nat)
    requires p > 0
    ensures d / p / 2 == d / (2 * p)
  {
    var q, r := d / p, d % p;
    assert d == (2 * p) * (q / 2) + (p * (q % 2) + r) by {
      assert q == 2 * (q / 2) + q % 2;
      assert p * q == p * (2 * (q / 2)) + p * (q % 2);
      assert p * (2 * (q / 2)) == (2 * p) * (q / 2);
    }
    assert p * (q % 2) + r < 2 * p;
    DivMod(d, 2 * p, q / 2, p * (q % 2) + r);
  }

  lemma HalfMod(d: nat, p: nat)
    requires p > 0
    ensures d % (2 * p) == 2 * (d / 2 % p) + d % 2
  {
    var q, r := d / 2 / p, d / 2 % p;
    assert d == (2 * p) * q + (2 * r + d % 2) by { assert 2 * (p * q) == (2 * p) * q; }
    DivMod(d, 2 * p, q, 2 * r + d % 2);
  }

  lemma EvenPos(size: nat, x: nat)
    requires size > 0 && size % 2 == 0
    ensures Pos(size, 2 * x) % 2 == 0
  {
    HalfMod(2 * x, size / 2);
  }
}
