/** Bytes, 16-bit words and their little-endian byte view. */
module Bytes {

  type Byte = b: nat | b < 256
  type Word = w: nat | w < 0x1_0000

  /** Byte 0 of a word is its low half. */
  function ByteOf(w: Word, half: nat): Byte { if half == 0 then w % 256 else w / 256 }

  function Flat(words: seq<Word>): (r: seq<Byte>)
    ensures |r| == 2 * |words|
  {
    seq(2 * |words|, i requires 0 <= i < 2 * |words| => ByteOf(words[i / 2], i % 2))
  }

  /** The view is little-endian: a word is its first byte and 256 times its second. */
  lemma FlatIsLittleEndian(words: seq<Word>, k: nat)
    requires k < |words|
    ensures Flat(words)[2 * k] as nat + 256 * (Flat(words)[2 * k + 1] as nat) == words[k]
  {
    hide ByteOf;
    TwoHalves(words[k]);
    assert Flat(words)[2 * k] == ByteOf(words[k], 0) && Flat(words)[2 * k + 1] == ByteOf(words[k], 1);
  }

  lemma TwoHalves(w: Word)
    ensures ByteOf(w, 0) as nat + 256 * (ByteOf(w, 1) as nat) == w
  {
  }

  /** The bytes with `data` in place at `offset`. */
  function Spliced(bytes: seq<Byte>, offset: nat, data: seq<Byte>): (r: seq<Byte>)
    requires offset + |data| <= |bytes|
    ensures |r| == |bytes|
  {
    bytes[..offset] + data + bytes[offset + |data|..]
  }

  lemma FlatSlice(words: seq<Word>, a: nat, b: nat)
    requires a <= b <= |words|
    ensures Flat(words[a..b]) == Flat(words)[2 * a..2 * b]
  {
    hide ByteOf;
    forall i | 0 <= i < 2 * (b - a) ensures Flat(words[a..b])[i] == Flat(words)[2 * a + i] {
      assert (2 * a + i) / 2 == a + i / 2 && (2 * a + i) % 2 == i % 2;
    }
  }

  lemma FlatConcat(a: seq<Word>, b: seq<Word>)
    ensures Flat(a + b) == Flat(a) + Flat(b)
  {
    hide ByteOf, Flat;
    FlatSlice(a + b, 0, |a|);
    FlatSlice(a + b, |a|, |a + b|);
    assert (a + b)[0..|a|] == a && (a + b)[|a|..|a + b|] == b;
    var f := Flat(a + b);
    assert f == f[0..2 * |a|] + f[2 * |a|..2 * |a + b|];
  }

  /** Writing two neighbouring pieces is writing them as one. */
  lemma SplicedTwice(bytes: seq<Byte>, offset: nat, a: seq<Byte>, b: seq<Byte>)
    requires offset + |a| + |b| <= |bytes|
    ensures Spliced(Spliced(bytes, offset, a), offset + |a|, b) == Spliced(bytes, offset, a + b)
  {
  }
}
