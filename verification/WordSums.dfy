/** The 16-bit sums of the checksum as sums of numbers modulo 2^16. */
module WordSums {
  import opened FlashSpec

  /** A number in 16 bits: what counting up to it from 0 arrives at. */
  function Wrapped(n: nat): bv16 { if n == 0 then 0 else Plus(Wrapped(n - 1), 1) }

  lemma PlusFacts(a: bv16, b: bv16, c: bv16)
    ensures Plus(a, Plus(b, c)) == Plus(Plus(a, b), c) && Plus(a, 0) == a
  {
  }

  lemma {:induction false} WrappedAdd(a: nat, b: nat)
    ensures Wrapped(a + b) == Plus(Wrapped(a), Wrapped(b))
    decreases b
  {
    hide Plus;
    PlusFacts(Wrapped(a), 0, 0);
    if b > 0 {
      WrappedAdd(a, b - 1);
      PlusFacts(Wrapped(a), Wrapped(b - 1), 1);
      assert Wrapped(a + b) == Plus(Wrapped(a + (b - 1)), 1);
    }
  }

  function Half(w: bv16): bv16 { w >> 1 }

  predicate Odd(w: bv16) { w & 1 == 1 }

  lemma Halves(w: bv16)
    ensures w == Plus(Plus(Half(w), Half(w)), if Odd(w) then 1 else 0)
    ensures w != 0 ==> Half(w) < w
  {
  }

  /** The number a word stands for. */
  function Number(w: bv16): (n: nat)
    ensures Wrapped(n) == w
    decreases w
  {
    if w == 0 then 0 else
      Halves(w);
      var h := Number(Half(w));
      WrappedAdd(h, h);
      WrappedAdd(2 * h, 1);
      assert Wrapped(1) == Plus(Wrapped(0), 1) == 1;
      2 * h + if Odd(w) then 1 else 0
  }

  /** Doubled k times. */
  function Double(w: bv16, k: nat): bv16 { if k == 0 then w else Plus(Double(w, k - 1), Double(w, k - 1)) }

  function Times(n: nat, k: nat): nat { if k == 0 then n else 2 * Times(n, k - 1) }

  lemma {:induction false} Doubling(n: nat, k: nat)
    ensures Wrapped(Times(n, k)) == Double(Wrapped(n), k)
  {
    hide Plus;
    if k > 0 {
      Doubling(n, k - 1);
      WrappedAdd(Times(n, k - 1), Times(n, k - 1));
    }
  }

  lemma OneDoubled()
    ensures Times(1, 16) == 0x1_0000 && Double(Wrapped(1), 16) == 0
  {
    assert Wrapped(1) == Plus(Wrapped(0), 1) == 1;
    assert Times(1, 8) == 256;
    assert Double(1, 4) == 16;
    assert Double(1, 8) == 256;
    assert Double(1, 12) == 4096;
  }

  /** 16 bits come round after 2^16. */
  lemma ComesRound(n: nat)
    ensures Wrapped(n + 0x1_0000) == Wrapped(n)
  {
    hide Plus;
    Doubling(1, 16);
    OneDoubled();
    WrappedAdd(n, 0x1_0000);
    PlusFacts(Wrapped(n), 0, 0);
  }

  /** Only the remainder modulo 2^16 is left. */
  lemma {:induction false} WrappedRemainder(n: nat)
    ensures Wrapped(n) == Wrapped(n % 0x1_0000)
  {
    if n >= 0x1_0000 {
      WrappedRemainder(n - 0x1_0000);
      ComesRound(n - 0x1_0000);
    }
  }

  /** The sum of the first n words as numbers. */
  function Total(v: seq<bv16>, n: nat): nat
    requires n <= |v|
  {
    if n == 0 then 0 else Total(v, n - 1) + Number(v[n - 1])
  }

  /** The 16-bit sum is the sum of the numbers modulo 2^16. */
  lemma {:induction false} SumIsTotal(v: seq<bv16>, n: nat)
    requires n <= |v|
    ensures Sum(v, n) == Wrapped(Total(v, n)) == Wrapped(Total(v, n) % 0x1_0000)
  {
    hide Plus, Number;
    if n > 0 {
      SumIsTotal(v, n - 1);
      WrappedAdd(Total(v, n - 1), Number(v[n - 1]));
    }
    WrappedRemainder(Total(v, n));
  }
}
