/** The two-bank flash of the ICH/PCH parts as values: what a bank holds, which bank is
    active, what the driver sees through the shadow RAM, and which flash contents a
    commit can leave behind when it is cut short. */
module FlashSpec {

  const SHADOW_WORDS: nat := 2048
  const SIG_WORD: nat := 0x13
  const CHECKSUM_WORD: nat := 0x3F
  const NVM_SUM: bv16 := 0xBABA

  type Cells = seq<bv16>

  datatype ShadowEntry = ShadowEntry(value: bv16, modified: bool)
  const CLEAR := ShadowEntry(0xFFFF, false)

  /** Flash geometry in 16-bit words: two banks; an erase covers one sector. */
  datatype Geometry = Geometry(bankWords: nat, sectorWords: nat) {
    ghost predicate Valid() { SHADOW_WORDS <= sectorWords <= bankWords }

    function Base(bank: nat): nat { if bank == 0 then 0 else bankWords }
  }

  ghost predicate ValidState(g: Geometry, c: Cells, sh: seq<ShadowEntry>) {
    g.Valid() && |c| == 2 * g.bankWords && |sh| == SHADOW_WORDS
  }

  // ---- signatures and bank choice -------------------------------------------------

  predicate SigValid(w: bv16) { w & 0xC000 == 0x8000 }

  predicate SigOpen(w: bv16) { w & 0xC000 == 0xC000 }

  /** Signature bits 15:14 set to 11b, bit 14 cleared, high byte cleared. */
  function Opened(w: bv16): bv16 { w | 0xC000 }

  function Closed(w: bv16): bv16 { w & 0xBFFF }

  function Retired(w: bv16): bv16 { w & 0x00FF }

  function Masked(w: bv16, m: bv16): bv16 { w & m }

  /** Bank 0 is looked at first; with no valid signature the driver assumes bank 0. */
  function ActiveBank(g: Geometry, c: Cells): nat
    requires g.Valid() && |c| == 2 * g.bankWords
  {
    if SigValid(c[SIG_WORD]) then 0 else if SigValid(c[g.bankWords + SIG_WORD]) then 1 else 0
  }

  function Image(g: Geometry, c: Cells, bank: nat): (r: seq<bv16>)
    requires g.Valid() && |c| == 2 * g.bankWords
  {
    c[g.Base(bank)..g.Base(bank) + SHADOW_WORDS]
  }

  function ActiveImage(g: Geometry, c: Cells): seq<bv16>
    requires g.Valid() && |c| == 2 * g.bankWords
  {
    Image(g, c, ActiveBank(g, c))
  }

  // ---- the shadow RAM in front of a bank ------------------------------------------

  function Overlay(img: seq<bv16>, sh: seq<ShadowEntry>): (r: seq<bv16>)
    requires |img| == |sh|
  {
    seq(|img|, w requires 0 <= w < |img| => if sh[w].modified then sh[w].value else img[w])
  }

  /** The shadow RAM after a write of `data` at `offset`. */
  function Stored(sh: seq<ShadowEntry>, offset: nat, data: seq<bv16>): (r: seq<ShadowEntry>)
    requires offset + |data| <= |sh|
    ensures |r| == |sh|
  {
    seq(|sh|, w requires 0 <= w < |sh| =>
      if offset <= w < offset + |data| then ShadowEntry(data[w - offset], true) else sh[w])
  }

  /** What reads would return if bank o were the active one. */
  function FromBank(g: Geometry, c: Cells, sh: seq<ShadowEntry>, o: nat): (r: seq<bv16>)
    requires ValidState(g, c, sh)
    ensures |r| == SHADOW_WORDS
  {
    Overlay(Image(g, c, o), sh)
  }

  /** What reads of words 0..2047 return. */
  function View(g: Geometry, c: Cells, sh: seq<ShadowEntry>): (r: seq<bv16>)
    requires ValidState(g, c, sh)
    ensures |r| == SHADOW_WORDS
  {
    FromBank(g, c, sh, ActiveBank(g, c))
  }

  /** The image a commit is meant to install when `o` is taken as the old bank. */
  function NewImage(g: Geometry, c: Cells, o: nat, sh: seq<ShadowEntry>): (r: seq<bv16>)
    requires ValidState(g, c, sh)
    ensures |r| == SHADOW_WORDS
  {
    var v := Overlay(Image(g, c, o), sh);
    v[SIG_WORD := Closed(Opened(v[SIG_WORD]))]
  }

  /** 16-bit addition and subtraction, which wrap. */
  function Plus(a: bv16, b: bv16): bv16 { a + b }

  function Minus(a: bv16, b: bv16): bv16 { a - b }

  function Sum(v: seq<bv16>, n: nat): bv16
    requires n <= |v|
  {
    if n == 0 then 0 else Plus(Sum(v, n - 1), v[n - 1])
  }

  function Checksum(v: seq<bv16>): bv16
    requires CHECKSUM_WORD <= |v|
  {
    Minus(NVM_SUM, Sum(v, CHECKSUM_WORD))
  }

  // ---- flash cycles ---------------------------------------------------------------

  /** Byte 0 of a word is its low half. */
  function HalfOf(w: bv16, half: nat): bv8 {
    if half == 0 then (w & 0xFF) as bv8 else (w >> 8) as bv8
  }

  /** Programming one byte leaves the other byte of its word alone. */
  function ByteMask(b: bv8, half: nat): bv16 {
    if half == 0 then 0xFF00 | b as bv16 else (b as bv16 << 8) | 0x00FF
  }

  /** The two words of a dword; the lower address holds the low half. */
  function Low(d: bv32): bv16 { (d & 0xFFFF) as bv16 }

  function High(d: bv32): bv16 { (d >> 16) as bv16 }

  function WithLow(d: bv32, v: bv16): bv32 { (d & 0xFFFF0000) | v as bv32 }

  function WithHigh(d: bv32, v: bv16): bv32 { (d & 0x0000FFFF) | (v as bv32 << 16) }

  /** Bits 15:8 of a dword read at the signature word. */
  function SigByteOf(d: bv32): bv8 { ((d & 0xFF00) >> 8) as bv8 }

  function Dword(lo: bv16, hi: bv16): bv32 { (hi as bv32 << 16) | lo as bv32 }

  function Erased(g: Geometry, c: Cells, bank: nat): (r: Cells)
    requires g.Valid() && |c| == 2 * g.bankWords
    ensures |r| == |c|
    ensures forall w :: 0 <= w < |c| ==>
      r[w] == if g.Base(bank) <= w < g.Base(bank) + g.sectorWords then 0xFFFF else c[w]
  {
    seq(|c|, w requires 0 <= w < |c| =>
      if g.Base(bank) <= w < g.Base(bank) + g.sectorWords then 0xFFFF else c[w])
  }

  /** `n` is what a cell holding `o` may hold after a program cycle with mask `m` that was
      not reported good: with `tears` any subset of the 1-to-0 changes, else all or none. */
  predicate Landed(o: bv16, m: bv16, n: bv16, tears: bool) {
    Masked(n, m) == Masked(o, m) && Masked(n, o) == n && (!tears ==> n == o || n == Masked(o, m))
  }

  /** The cells agree on a whole bank, except perhaps at word `but`. */
  ghost predicate SameBank(g: Geometry, c: Cells, c': Cells, bank: nat, but: int)
    requires |c| == |c'| == 2 * g.bankWords
  {
    forall w :: g.Base(bank) <= w < g.Base(bank) + g.bankWords && w != but ==> c'[w] == c[w]
  }

  // ---- where a commit can be cut short --------------------------------------------

  ghost predicate Copying(g: Geometry, c0: Cells, o: nat, c: Cells)
    requires g.Valid() && |c| == |c0| == 2 * g.bankWords && o <= 1
  {
    && SameBank(g, c0, c, o, -1)
    && SigOpen(c[g.Base(1 - o) + SIG_WORD])
  }

  ghost predicate Retiring(g: Geometry, c0: Cells, sh: seq<ShadowEntry>, o: nat, c: Cells, tears: bool)
    requires ValidState(g, c0, sh) && |c| == |c0| && o <= 1
  {
    && Image(g, c, 1 - o) == NewImage(g, c0, o, sh)
    && SameBank(g, c0, c, o, g.Base(o) + SIG_WORD)
    && Landed(c0[g.Base(o) + SIG_WORD], 0x00FF, c[g.Base(o) + SIG_WORD], tears)
  }

  /** Every flash content that can be found after some cycle of a commit from `c0` with
      shadow `sh` that took `o` for the old bank. */
  ghost predicate CrashPoint(g: Geometry, c0: Cells, sh: seq<ShadowEntry>, o: nat, c: Cells, tears: bool)
    requires ValidState(g, c0, sh) && o <= 1
  {
    |c| == |c0| && (c == c0 || Copying(g, c0, o, c) || Retiring(g, c0, sh, o, c, tears))
  }

  /** The word the copy loop writes: as NewImage, but with the signature held at 11b. */
  function CopyWord(g: Geometry, c0: Cells, sh: seq<ShadowEntry>, o: nat, w: nat): bv16
    requires ValidState(g, c0, sh) && w < SHADOW_WORDS
  {
    var v := if sh[w].modified then sh[w].value else c0[g.Base(o) + w];
    if w == SIG_WORD then Opened(v) else v
  }

  /** The flash once the new bank is erased and its first `k` words are copied. */
  function Copied(g: Geometry, c0: Cells, sh: seq<ShadowEntry>, o: nat, k: nat): (r: Cells)
    requires ValidState(g, c0, sh) && o <= 1 && k <= SHADOW_WORDS
    ensures |r| == |c0|
  {
    var e := Erased(g, c0, 1 - o);
    var n := g.Base(1 - o);
    seq(|c0|, w requires 0 <= w < |c0| => if n <= w < n + k then CopyWord(g, c0, sh, o, w - n) else e[w])
  }

  /** The flash after a commit that ran to its end. */
  function Committed(g: Geometry, c0: Cells, sh: seq<ShadowEntry>, o: nat): (r: Cells)
    requires ValidState(g, c0, sh) && o <= 1
    ensures |r| == |c0|
  {
    var c := Copied(g, c0, sh, o, SHADOW_WORDS);
    var n := g.Base(1 - o) + SIG_WORD;
    c[n := Closed(c[n])][g.Base(o) + SIG_WORD := Retired(c0[g.Base(o) + SIG_WORD])]
  }

  // ---- an erase that is reported good and did nothing -----------------------------

  /** The flash once the first `k` words are programmed into the new bank. With `silent` the
      bank has not been erased, so that the words are ANDed into what it held. */
  function CopiedOnto(g: Geometry, c0: Cells, sh: seq<ShadowEntry>, o: nat, k: nat, silent: bool): (r: Cells)
    requires ValidState(g, c0, sh) && o <= 1 && k <= SHADOW_WORDS
    ensures |r| == |c0|
  {
    var e := if silent then c0 else Erased(g, c0, 1 - o);
    var n := g.Base(1 - o);
    seq(|c0|, w requires 0 <= w < |c0| => if n <= w < n + k then Masked(e[w], CopyWord(g, c0, sh, o, w - n)) else e[w])
  }

  function SealedOnto(g: Geometry, c0: Cells, sh: seq<ShadowEntry>, o: nat, silent: bool): (r: Cells)
    requires ValidState(g, c0, sh) && o <= 1
    ensures |r| == |c0|
  {
    var c := CopiedOnto(g, c0, sh, o, SHADOW_WORDS, silent);
    var n := g.Base(1 - o) + SIG_WORD;
    c[n := Closed(c[n])]
  }

  /** The flash after a commit that ran to its end. */
  function CommittedOnto(g: Geometry, c0: Cells, sh: seq<ShadowEntry>, o: nat, silent: bool): (r: Cells)
    requires ValidState(g, c0, sh) && o <= 1
    ensures |r| == |c0|
  {
    SealedOnto(g, c0, sh, o, silent)[g.Base(o) + SIG_WORD := Retired(c0[g.Base(o) + SIG_WORD])]
  }
}
