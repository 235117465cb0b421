/** Byte access to a word-addressed EEPROM, at any offset and length, odd or even. */
module EepromBytes {

  import opened Bytes

  const CHECKSUM_REG: nat := 0x3F
  const NVM_SUM: nat := 0xBABA

  function Join(lo: Byte, hi: Byte): Word { lo + 256 * hi }

  lemma Halves(lo: Byte, hi: Byte)
    ensures ByteOf(Join(lo, hi), 0) == lo && ByteOf(Join(lo, hi), 1) == hi
  {
  }

  /** The words a byte buffer holds. */
  function Words(bytes: seq<Byte>): (r: seq<Word>)
    requires |bytes| % 2 == 0
    ensures |r| == |bytes| / 2
  {
    seq(|bytes| / 2, i requires 0 <= i < |bytes| / 2 => Join(bytes[2 * i], bytes[2 * i + 1]))
  }

  lemma FlatWords(bytes: seq<Byte>)
    requires |bytes| % 2 == 0
    ensures Flat(Words(bytes)) == bytes
  {
    hide ByteOf, Join;
    forall i | 0 <= i < |bytes| ensures Flat(Words(bytes))[i] == bytes[i] {
      Halves(bytes[i / 2 * 2], bytes[i / 2 * 2 + 1]);
    }
  }

  /** The word store behind the driver's read and write operations; either may fail. */
  class WordNvm {
    const spi: bool
    var words: seq<Word>
    ghost var failures: nat // reads and writes within the part that failed all the same

    constructor (spi: bool, words: seq<Word>)
      ensures this.spi == spi && this.words == words
    {
      this.spi, this.words, failures := spi, words, 0;
    }

    method Read(offset: nat, n: nat) returns (err: bool, data: seq<Word>)
      modifies this`failures
      ensures failures == old(failures) + if err && 0 < n <= |words| - offset then 1 else 0
      ensures offset >= |words| || n > |words| - offset || n == 0 ==> err
      ensures !err ==> offset + n <= |words| && data == words[offset..offset + n]
    {
      err := *;
      data := [];
      if offset >= |words| || n > |words| - offset || n == 0 { return true, data; }
      if err { failures := failures + 1; }
      if !err { data := words[offset..offset + n]; }
    }

    method Write(offset: nat, data: seq<Word>) returns (err: bool)
      modifies this
      ensures |words| == old(|words|)
      ensures failures == old(failures) + if err && 0 < |data| <= |words| - offset then 1 else 0
      ensures offset >= |words| || |data| > |words| - offset || |data| == 0 ==> err
      ensures !err ==>
        offset + |data| <= |words| && words == old(words)[..offset] + data + old(words)[offset + |data|..]
    {
      err := *;
      if offset >= |words| || |data| > |words| - offset || |data| == 0 { return true; }
      if err { failures := failures + 1; }
      if !err { words := words[..offset] + data + words[offset + |data|..]; }
    }
  }

  datatype Outcome = Done | NoMemory | Invalid | NotSupported | BadMagic | NvmError

  /** Puts words into the byte buffer from word k on. */
  method PutWords(buff: array<Byte>, k: nat, data: seq<Word>)
    requires 2 * (k + |data|) <= buff.Length
    modifies buff
    ensures buff[..] == Spliced(old(buff[..]), 2 * k, Flat(data))
  {
    hide ByteOf;
    for i := 0 to |data|
      invariant forall j :: 0 <= j < buff.Length ==>
        buff[j] == if 2 * k <= j < 2 * (k + i) then Flat(data)[j - 2 * k] else old(buff[j])
    {
      buff[2 * (k + i)], buff[2 * (k + i) + 1] := ByteOf(data[i], 0), ByteOf(data[i], 1);
      assert Flat(data)[2 * i] == ByteOf(data[i], 0) && Flat(data)[2 * i + 1] == ByteOf(data[i], 1);
    }
  }

  method CopyBytes(buff: array<Byte>, at: nat, bytes: seq<Byte>)
    requires at + |bytes| <= buff.Length
    modifies buff
    ensures buff[..] == Spliced(old(buff[..]), at, bytes)
  {
    for i := 0 to |bytes|
      invariant forall j :: 0 <= j < buff.Length ==> buff[j] == if at <= j < at + i then bytes[j - at] else old(buff[j])
    {
      buff[at + i] := bytes[i];
    }
  }

  /** The words that hold the bytes offset..offset+len. */
  lemma WordRange(offset: nat, len: nat)
    requires len > 0
    ensures var first, n := offset / 2, (offset + len - 1) / 2 - offset / 2 + 1;
      && 2 * first + offset % 2 == offset
      && 2 * (first + n) == offset + len + (offset + len) % 2
      && n > 0 && offset % 2 + len <= 2 * n
  {
  }

  /** Reads n words into the buffer, in one go from an SPI part and one by one otherwise. */
  method ReadWords(nvm: WordNvm, firstWord: nat, n: nat, buff: array<Byte>) returns (err: bool)
    requires n > 0 && buff.Length == 2 * n
    modifies buff, nvm`failures
    ensures nvm.failures >= old(nvm.failures)
    ensures firstWord + n <= |nvm.words| ==> nvm.failures == old(nvm.failures) + if err then 1 else 0
    ensures !err ==> firstWord + n <= |nvm.words| && buff[..] == Flat(nvm.words)[2 * firstWord..2 * (firstWord + n)]
  {
    hide Flat, ByteOf;
    ghost var words, flat := nvm.words, Flat(nvm.words);
    err := false;
    if nvm.spi {
      var data;
      err, data := nvm.Read(firstWord, n);
      if !err {
        FlatSlice(words, firstWord, firstWord + n);
        PutWords(buff, 0, data);
      }
      return;
    }
    var i := 0;
    while i < n
      invariant nvm.failures == old(nvm.failures)
      invariant i <= n && !err && nvm.words == words
      invariant i > 0 ==> firstWord + i <= |words| && buff[..2 * i] == flat[2 * firstWord..2 * (firstWord + i)]
    {
      var data;
      err, data := nvm.Read(firstWord + i, 1);
      if err { return; }
      FlatSlice(words, firstWord + i, firstWord + i + 1);
      ghost var was := buff[..2 * i];
      PutWords(buff, i, data);
      assert buff[..2 * (i + 1)] == was + Flat(data);
      Adjacent(flat, 2 * firstWord, 2 * (firstWord + i), 2 * (firstWord + i + 1));
      i := i + 1;
    }
    assert buff[..2 * n] == buff[..];
  }

  /** Reads `len` bytes at `offset`: the bytes of the flat view, or all ones on an error. `noMemory`
      says that no buffer could be had. */
  method GetEeprom(nvm: WordNvm, offset: nat, len: nat, noMemory: bool)
    returns (r: Outcome, bytes: seq<Byte>)
    modifies nvm`failures
    ensures nvm.failures >= old(nvm.failures)
    ensures r == Invalid <==> len == 0
    ensures r == NoMemory <==> len > 0 && noMemory
    ensures len > 0 && !noMemory && offset + len <= 2 * |nvm.words| ==>
      r == if nvm.failures == old(nvm.failures) then Done else NvmError
    ensures r == Done ==> offset + len <= 2 * |nvm.words| && bytes == Flat(nvm.words)[offset..offset + len]
    ensures r == NvmError ==> bytes == seq(len, _ => 0xFF)
    ensures offset + len > 2 * |nvm.words| && len > 0 ==> r == NvmError || r == NoMemory
  {
    hide Flat;
    bytes := [];
    if len == 0 { return Invalid, bytes; }
    var firstWord, lastWord := offset / 2, (offset + len - 1) / 2;
    WordRange(offset, len);
    var n := lastWord - firstWord + 1;
    if noMemory { return NoMemory, bytes; }
    var buff := new Byte[2 * n](_ => 0);
    var err := ReadWords(nvm, firstWord, n, buff);
    if err { return NvmError, seq(len, _ => 0xFF); }
    SubSlice(Flat(nvm.words), 2 * firstWord, 2 * (firstWord + n), offset % 2, len);
    bytes := buff[offset % 2..offset % 2 + len];
    assert bytes == buff[..][offset % 2..offset % 2 + len];
    r := Done;
  }

  lemma Adjacent(s: seq<Byte>, a: nat, b: nat, c: nat)
    requires a <= b <= c <= |s|
    ensures s[a..b] + s[b..c] == s[a..c]
  {
  }

  lemma SubSlice(s: seq<Byte>, a: nat, b: nat, x: nat, n: nat)
    requires a <= b <= |s| && x + n <= b - a
    ensures s[a..b][x..x + n] == s[a + x..a + x + n]
  {
    var t, u := s[a..b][x..x + n], s[a + x..a + x + n];
    assert |t| == |u| && forall k :: 0 <= k < n ==> t[k] == s[a + x + k] == u[k];
  }

  /** Reads back the first word if only its second byte will change, and the last word if
      only its first byte will. */
  method ReadEdges(nvm: WordNvm, offset: nat, len: nat, buff: array<Byte>) returns (err: bool)
    requires len > 0 && offset + len <= 2 * |nvm.words| && buff.Length == 2 * |nvm.words|
    modifies buff, nvm`failures
    ensures nvm.failures == old(nvm.failures) + if err then 1 else 0
    ensures var first, n := offset / 2, (offset + len - 1) / 2 - offset / 2 + 1;
      !err ==> && (offset % 2 == 1 ==> buff[0] == Flat(nvm.words)[2 * first])
               && ((offset + len) % 2 == 1 ==> buff[2 * n - 1] == Flat(nvm.words)[2 * (first + n) - 1])
  {
    hide Flat;
    WordRange(offset, len);
    var firstWord, lastWord := offset / 2, (offset + len - 1) / 2;
    ghost var words, flat := nvm.words, Flat(nvm.words);
    err := false;
    var data;
    if offset % 2 == 1 {
      err, data := nvm.Read(firstWord, 1);
      if err { return; }
      FlatSlice(words, firstWord, firstWord + 1);
      PutWords(buff, 0, data);
      assert buff[..][0] == Flat(data)[0];
    }
    if (offset + len) % 2 == 1 {
      ghost var was := buff[0];
      err, data := nvm.Read(lastWord, 1);
      if err { return; }
      FlatSlice(words, lastWord, lastWord + 1);
      PutWords(buff, lastWord - firstWord, data);
      assert buff[..][2 * (lastWord - firstWord) + 1] == Flat(data)[1];
      assert buff[..][0] == if lastWord == firstWord then Flat(data)[0] else was;
    }
  }

  /** Writes bytes at `offset`, reading the words of which only one byte changes. */
  method WriteBytes(nvm: WordNvm, offset: nat, bytes: seq<Byte>, magicOk: bool, readOnly: bool, flushType: bool,
      noMemory: bool)
    returns (r: Outcome, flush: bool)
    requires offset + |bytes| <= 2 * |nvm.words|
    modifies nvm
    ensures nvm.failures >= old(nvm.failures)
    ensures |nvm.words| == old(|nvm.words|)
    ensures r == Done ==> Flat(nvm.words) == Spliced(old(Flat(nvm.words)), offset, bytes)
    ensures r == Done ==> bytes != [] && magicOk && !readOnly && (flush <==> flushType || offset / 2 <= CHECKSUM_REG)
    ensures r == NotSupported <==> bytes == []
    ensures r == BadMagic <==> bytes != [] && !magicOk
    ensures r == Invalid <==> bytes != [] && magicOk && readOnly
    ensures r == NoMemory <==> bytes != [] && magicOk && !readOnly && noMemory
    ensures r == NvmError || r == Done ==>
      (r == Done <==> nvm.failures == old(nvm.failures))
    ensures r != NvmError && r != Done ==> nvm.words == old(nvm.words)
  {
    hide Flat, Words, Spliced;
    flush := false;
    if bytes == [] { return NotSupported, flush; }
    if !magicOk { return BadMagic, flush; }
    if readOnly { return Invalid, flush; }
    var len := |bytes|;
    WordRange(offset, len);
    var firstWord, lastWord := offset / 2, (offset + len - 1) / 2;
    var n := lastWord - firstWord + 1;
    if noMemory { return NoMemory, flush; }
    ghost var words := nvm.words;
    var buff := new Byte[2 * |nvm.words|];
    var err := ReadEdges(nvm, offset, len, buff);
    if err { return NvmError, flush; }
    ghost var before := buff[..];
    CopyBytes(buff, offset % 2, bytes);
    EdgesKept(Flat(words), offset, bytes, before, buff[..], firstWord, n);
    FlatWords(buff[..2 * n]);
    err := nvm.Write(firstWord, Words(buff[..2 * n]));
    if err { return NvmError, flush; }
    FlatReplace(words, firstWord, Words(buff[..2 * n]));
    SplicedSlice(Flat(words), offset, bytes, 2 * firstWord, 2 * (firstWord + n));
    return Done, flushType || firstWord <= CHECKSUM_REG;
  }

  function Sum(words: seq<Word>, n: nat): nat
    requires n <= |words|
  {
    if n == 0 then 0 else Sum(words, n - 1) + words[n - 1]
  }

  /** The word that brings the sum of the words up to it to the given value in 16 bits. */
  function ChecksumOf(words: seq<Word>): (c: Word)
    requires |words| > CHECKSUM_REG
    ensures (Sum(words, CHECKSUM_REG) + c) % 0x1_0000 == NVM_SUM
  {
    Complete(Sum(words, CHECKSUM_REG));
    (NVM_SUM - Sum(words, CHECKSUM_REG)) % 0x1_0000
  }

  lemma Complete(n: nat)
    ensures (n + (NVM_SUM - n) % 0x1_0000) % 0x1_0000 == NVM_SUM
  {
  }

  /** What is left of a number in 16 bits. */
  function Cut(n: int): Word { n % 0x1_0000 }

  lemma CutAdd(a: nat, b: nat)
    ensures Cut(Cut(a) + b) == Cut(a + b) && Cut(b - Cut(a)) == Cut(b - a)
  {
  }

  /** e1000e_update_nvm_checksum_generic. */
  method UpdateChecksum(nvm: WordNvm) returns (err: bool)
    modifies nvm
    ensures |nvm.words| == old(|nvm.words|)
    ensures nvm.failures >= old(nvm.failures)
    ensures |nvm.words| > CHECKSUM_REG ==> nvm.failures == old(nvm.failures) + if err then 1 else 0
    ensures !err ==> |nvm.words| > CHECKSUM_REG
    ensures !err ==> nvm.words == old(nvm.words)[CHECKSUM_REG := ChecksumOf(old(nvm.words))]
  {
    hide Sum, Cut;
    var checksum: Word := 0;
    SumNothing(nvm.words);
    var i := 0;
    while i < CHECKSUM_REG
      invariant nvm.failures == old(nvm.failures)
      invariant i <= CHECKSUM_REG && nvm.words == old(nvm.words)
      invariant i <= |nvm.words| && checksum == Cut(Sum(nvm.words, i))
    {
      var data;
      err, data := nvm.Read(i, 1);
      if err { return; }
      SumMore(nvm.words, i);
      CutAdd(Sum(nvm.words, i), data[0]);
      checksum := Cut(checksum + data[0]);
      i := i + 1;
    }
    CutAdd(Sum(nvm.words, CHECKSUM_REG), NVM_SUM);
    checksum := Cut(NVM_SUM - checksum);
    err := nvm.Write(CHECKSUM_REG, [checksum]);
    if !err {
      ChecksumIs(old(nvm.words), checksum);
      ReplaceOne(old(nvm.words), CHECKSUM_REG, checksum);
    }
  }

  lemma SumNothing(words: seq<Word>)
    ensures Sum(words, 0) == 0 && Cut(0) == 0
  {
  }

  lemma SumMore(words: seq<Word>, n: nat)
    requires n < |words|
    ensures Sum(words, n + 1) == Sum(words, n) + words[n]
  {
  }

  lemma ChecksumIs(words: seq<Word>, c: Word)
    requires |words| > CHECKSUM_REG && c == Cut(NVM_SUM - Sum(words, CHECKSUM_REG))
    ensures c == ChecksumOf(words)
  {
    hide Sum;
  }

  lemma ReplaceOne(words: seq<Word>, k: nat, c: Word)
    requires k < |words|
    ensures words[..k] + [c] + words[k + 1..] == words[k := c]
  {
  }

  /** e1000_set_eeprom: the bytes are written, and then the checksum is brought up to date if a
      word up to its own was among them or the part asks for it. The range is within the part:
      the ethtool core has checked it. `plain` is the part with the bytes and the old checksum. */
  method SetEeprom(nvm: WordNvm, offset: nat, bytes: seq<Byte>, magicOk: bool, readOnly: bool, flushType: bool,
      noMemory: bool)
    returns (r: Outcome, ghost plain: seq<Word>)
    requires offset + |bytes| <= 2 * |nvm.words|
    modifies nvm
    ensures nvm.failures >= old(nvm.failures)
    ensures |nvm.words| == old(|nvm.words|)
    ensures r == Done ==> bytes != [] && magicOk && !readOnly
    ensures r == Done ==> Flat(plain) == Spliced(old(Flat(nvm.words)), offset, bytes)
    ensures r == Done ==>
      if flushType || offset / 2 <= CHECKSUM_REG
      then |plain| > CHECKSUM_REG && nvm.words == plain[CHECKSUM_REG := ChecksumOf(plain)]
      else nvm.words == plain
    ensures r == NotSupported <==> bytes == []
    ensures r == BadMagic <==> bytes != [] && !magicOk
    ensures r == Invalid <==> bytes != [] && magicOk && readOnly
    ensures r == NoMemory <==> bytes != [] && magicOk && !readOnly && noMemory
    ensures r == NvmError || r == Done ==> |nvm.words| > CHECKSUM_REG || !(flushType || offset / 2 <= CHECKSUM_REG) ==>
      (r == Done <==> nvm.failures == old(nvm.failures))
    ensures r != NvmError && r != Done ==> nvm.words == old(nvm.words)
  {
    hide Flat, Spliced, ChecksumOf;
    var flush;
    r, flush := WriteBytes(nvm, offset, bytes, magicOk, readOnly, flushType, noMemory);
    plain := nvm.words;
    if r == Done && flush {
      var err := UpdateChecksum(nvm);
      if err { r := NvmError; }
    }
  }

  lemma SplicedSlice(flat: seq<Byte>, offset: nat, bytes: seq<Byte>, a: nat, b: nat)
    requires a <= offset && offset + |bytes| <= b <= |flat|
    ensures Spliced(flat, a, Spliced(flat, offset, bytes)[a..b]) == Spliced(flat, offset, bytes)
  {
  }

  /** The buffer holds the data between the two outer bytes that were read back. */
  lemma EdgesKept(flat: seq<Byte>, offset: nat, bytes: seq<Byte>, before: seq<Byte>, buff: seq<Byte>, first: nat,
      n: nat)
    requires |bytes| > 0 && 2 * first + offset % 2 == offset
    requires 2 * (first + n) == offset + |bytes| + (offset + |bytes|) % 2
    requires 2 * (first + n) <= |flat| && n > 0 && 2 * n <= |before|
    requires offset % 2 + |bytes| <= 2 * n && buff == Spliced(before, offset % 2, bytes)
    requires offset % 2 == 1 ==> before[0] == flat[2 * first]
    requires (offset + |bytes|) % 2 == 1 ==> before[2 * n - 1] == flat[2 * (first + n) - 1]
    ensures buff[..2 * n] == Spliced(flat, offset, bytes)[2 * first..2 * (first + n)]
  {
    forall k | 0 <= k < 2 * n ensures buff[k] == Spliced(flat, offset, bytes)[2 * first + k] {
    }
  }

  /** Replacing whole words replaces their bytes. */
  lemma FlatReplace(words: seq<Word>, k: nat, data: seq<Word>)
    requires k + |data| <= |words|
    ensures Flat(words[..k] + data + words[k + |data|..]) == Spliced(Flat(words), 2 * k, Flat(data))
  {
    hide ByteOf;
    var w := words[..k] + data + words[k + |data|..];
    forall i | 0 <= i < 2 * |words| ensures Flat(w)[i] == Spliced(Flat(words), 2 * k, Flat(data))[i] {
      if 2 * k <= i < 2 * (k + |data|) {
        assert w[i / 2] == data[(i - 2 * k) / 2] && i % 2 == (i - 2 * k) % 2;
      }
    }
  }

  /** The byte at `k` is not written again by the checksum update after a write at `offset`. */
  predicate Kept(offset: nat, k: nat) { offset / 2 > CHECKSUM_REG || k / 2 != CHECKSUM_REG }

  /** What was written is what is read back, but for the checksum if it has been updated. */
  method RoundTrip(nvm: WordNvm, offset: nat, bytes: seq<Byte>) returns (w: Outcome, r: Outcome, back: seq<Byte>)
    requires offset + |bytes| <= 2 * |nvm.words|
    modifies nvm
    ensures bytes != [] && |nvm.words| > CHECKSUM_REG && nvm.failures == old(nvm.failures) ==> w == Done && r == Done
    ensures w == Done && r == Done ==> |back| == |bytes|
    ensures w == Done && r == Done ==> forall k :: 0 <= k < |bytes| && Kept(offset, offset + k) ==> back[k] == bytes[k]
  {
    ghost var plain;
    w, plain := SetEeprom(nvm, offset, bytes, true, false, false, false);
    ghost var words := nvm.words;
    r, back := GetEeprom(nvm, offset, |bytes|, false);
    if w == Done && r == Done {
      forall k | 0 <= k < |bytes| && Kept(offset, offset + k) ensures back[k] == bytes[k] {
        assert back[k] == Flat(words)[offset + k] == Flat(plain)[offset + k];
      }
    }
  }
}
