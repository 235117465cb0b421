/** Bits, bytes and words on a serial line, most significant bit first. */
module SpiBits {

  import opened Bytes
  import opened Paging

  function Pow2(n: nat): (p: nat)
    ensures p > 0
  {
    if n == 0 then 1 else 2 * Pow2(n - 1)
  }

  /** The low c bits of d. */
  function Bits(d: nat, c: nat): (r: seq<bool>)
    ensures |r| == c
  {
    if c == 0 then [] else Bits(d / 2, c - 1) + [d % 2 == 1]
  }

  function FromBits(s: seq<bool>): nat {
    if s == [] then 0 else 2 * FromBits(s[..|s| - 1]) + if s[|s| - 1] then 1 else 0
  }

  /** Sending and receiving c bits is taking the value modulo 2^c. */
  lemma {:induction false} RoundTrip(d: nat, c: nat)
    ensures FromBits(Bits(d, c)) == d % Pow2(c)
  {
    if c > 0 {
      RoundTrip(d / 2, c - 1);
      HalfMod(d, Pow2(c - 1));
      assert Bits(d, c)[..c - 1] == Bits(d / 2, c - 1);
    }
  }

  /** Two fields sent one after the other. */
  lemma {:induction false} BitsConcat(a: nat, c1: nat, b: nat, c2: nat)
    requires b < Pow2(c2)
    ensures Bits(a * Pow2(c2) + b, c1 + c2) == Bits(a, c1) + Bits(b, c2)
  {
    if c2 == 0 {
    } else {
      var p := Pow2(c2 - 1);
      assert a * Pow2(c2) + b == 2 * (a * p + b / 2) + b % 2;
      BitsConcat(a, c1, b / 2, c2 - 1);
    }
  }

  lemma Pow2s()
    ensures Pow2(8) == 256 && Pow2(16) == 0x1_0000
  {
    assert Pow2(3) == 2 * Pow2(2);
    assert Pow2(5) == 2 * Pow2(4);
    assert Pow2(8) == 256;
    assert Pow2(11) == 2 * Pow2(10) && Pow2(10) == 2 * Pow2(9);
    assert Pow2(14) == 2 * Pow2(13) && Pow2(13) == 2 * Pow2(12);
  }

  // ---- bytes and words ----------------------------------------------------------------

  /** A word as it is sent: low byte first. */
  function Swapped(w: Word): Word { w / 256 + w % 256 * 256 }

  function WordBits(words: seq<Word>): (r: seq<bool>)
    ensures |r| == 16 * |words|
  {
    if words == [] then [] else WordBits(words[..|words| - 1]) + Bits(Swapped(words[|words| - 1]), 16)
  }

  /** The first n bytes received. */
  function BytesOf(bits: seq<bool>, n: nat): (r: seq<Byte>)
    requires 8 * n <= |bits|
    ensures |r| == n
  {
    if n == 0 then [] else
      Small(bits[8 * (n - 1)..8 * n]);
      BytesOf(bits, n - 1) + [FromBits(bits[8 * (n - 1)..8 * n])]
  }

  lemma Small(bits: seq<bool>)
    requires |bits| <= 8
    ensures FromBits(bits) < 256
  {
    Pow2s();
    FromBitsBound(bits);
    Pow2Grows(|bits|, 8);
  }

  lemma {:induction false} FromBitsBound(bits: seq<bool>)
    ensures FromBits(bits) < Pow2(|bits|)
  {
    if bits != [] { FromBitsBound(bits[..|bits| - 1]); }
  }

  lemma {:induction false} Pow2Grows(a: nat, b: nat)
    requires a <= b
    ensures Pow2(a) <= Pow2(b)
    decreases b
  {
    if a < b { Pow2Grows(a, b - 1); }
  }

  lemma {:induction false} BytesPrefix(bits: seq<bool>, more: seq<bool>, n: nat)
    requires 8 * n <= |bits|
    ensures BytesOf(bits + more, n) == BytesOf(bits, n)
  {
    if n > 0 {
      BytesPrefix(bits, more, n - 1);
      assert (bits + more)[8 * (n - 1)..8 * n] == bits[8 * (n - 1)..8 * n];
    }
  }

  lemma OneByte(bits: seq<bool>, n: nat, b: Byte)
    requires |bits| == 8 * n
    ensures BytesOf(bits + Bits(b, 8), n + 1) == BytesOf(bits, n) + [b]
  {
    hide Bits, Pow2;
    BytesPrefix(bits, Bits(b, 8), n);
    assert (bits + Bits(b, 8))[8 * n..8 * (n + 1)] == Bits(b, 8);
    RoundTrip(b, 8);
    Pow2s();
  }

  lemma SwappedBits(w: Word)
    ensures Bits(Swapped(w), 16) == Bits(w % 256, 8) + Bits(w / 256, 8)
  {
    Pow2s();
    BitsConcat(w % 256, 8, w / 256, 8);
  }

  /** One more word sent swapped is two more bytes received, the low one first. */
  lemma WordArrives(bits: seq<bool>, n: nat, w: Word)
    requires |bits| == 16 * n
    ensures BytesOf(bits + Bits(Swapped(w), 16), 2 * n + 2) == BytesOf(bits, 2 * n) + Flat([w])
  {
    hide Bits, Swapped, Pow2, BytesOf;
    var lo, hi := w % 256, w / 256;
    SwappedBits(w);
    assert bits + Bits(Swapped(w), 16) == (bits + Bits(lo, 8)) + Bits(hi, 8);
    OneByte(bits, 2 * n, lo);
    OneByte(bits + Bits(lo, 8), 2 * n + 1, hi);
    assert Flat([w]) == [lo] + [hi];
  }

  /** What the device receives of words sent swapped is their bytes, low byte first. */
  lemma {:induction false} WordsArrive(words: seq<Word>)
    ensures BytesOf(WordBits(words), 2 * |words|) == Flat(words)
  {
    hide Bits, Swapped, Pow2;
    if words != [] {
      var n := |words| - 1;
      WordsArrive(words[..n]);
      WordArrives(WordBits(words[..n]), n, words[n]);
      FlatConcat(words[..n], [words[n]]);
      assert words == words[..n] + [words[n]];
    }
  }
}
