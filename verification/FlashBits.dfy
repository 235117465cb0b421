/** The facts about 16-bit masks that the flash proofs rest on. */
module FlashBits {
  import opened FlashSpec

  /** Clearing only some of the bits the mask would clear. */
  lemma TornCell(o: bv16, m: bv16, stuck: bv16)
    ensures Landed(o, m, o & (m | stuck), true)
  {
    TornBits(o, m, stuck);
  }

  lemma TornBits(o: bv16, m: bv16, s: bv16)
    ensures (o & (m | s)) & m == o & m && (o & (m | s)) & o == o & (m | s)
  {
  }

  lemma WholeCell(o: bv16, m: bv16, tears: bool)
    ensures Landed(o, m, Masked(o, m), tears)
  {
  }

  lemma LandedNothing(o: bv16, m: bv16, tears: bool)
    ensures Landed(o, m, o, tears)
  {
  }

  /** Failed cycles add up: retrying never goes outside what one failed cycle can do. */
  lemma LandedAgain(o: bv16, m: bv16, n: bv16, p: bv16, tears: bool)
    requires Landed(o, m, n, tears) && Landed(n, m, p, tears)
    ensures Landed(o, m, p, tears)
    ensures Masked(n, m) == Masked(o, m)
  {
  }

  lemma MaskErased(m: bv16)
    ensures Masked(0xFFFF, m) == m
  {
  }

  /** Two byte cycles program a whole word. */
  lemma TwoBytes(b: bv16, v: bv16)
    ensures Masked(Masked(b, ByteMask(HalfOf(v, 0), 0)), ByteMask(HalfOf(v, 1), 1)) == Masked(b, v)
  {
  }

  lemma ByteMasksOpen(v: bv16)
    requires SigOpen(v)
    ensures SigOpen(ByteMask(HalfOf(v, 0), 0)) && SigOpen(ByteMask(HalfOf(v, 1), 1))
  {
  }

  lemma KeepsSignatureOpen(o: bv16, m: bv16, n: bv16, tears: bool)
    requires SigOpen(o) && SigOpen(m) && Landed(o, m, n, tears)
    ensures SigOpen(n)
  {
  }

  lemma ErasedIsOpen()
    ensures SigOpen(0xFFFF)
  {
  }

  lemma OpenedIsOpen(v: bv16)
    ensures SigOpen(Opened(v)) && SigValid(Closed(Opened(v)))
  {
  }

  lemma OpenIsNotValid(v: bv16)
    requires SigOpen(v)
    ensures !SigValid(v)
  {
  }

  /** Only bit 14 can change when the seal is programmed, so that cycle cannot tear. */
  lemma SealCell(o: bv16, m: bv16, n: bv16, tears: bool)
    requires SigOpen(o) && Masked(o, m) == Closed(o) && Landed(o, m, n, tears)
    ensures n == o || n == Closed(o)
  {
  }

  lemma SealByteMask(o: bv16)
    ensures Masked(o, ByteMask(HalfOf(Closed(o), 1), 1)) == Closed(o)
  {
  }

  lemma RetireByteMask(o: bv16)
    ensures ByteMask(0, 1) == 0x00FF && Masked(o, 0x00FF) == Retired(o)
  {
  }

  lemma SigByte(w: bv16)
    ensures (HalfOf(w, 1) & 0xC0 == 0x80) <==> SigValid(w)
  {
  }

  // ---- dwords ---------------------------------------------------------------------

  lemma SigDword(lo: bv16, hi: bv16)
    ensures (SigByteOf(Dword(lo, hi)) & 0xC0 == 0x80) <==> SigValid(lo)
  {
  }

  lemma DwordHalves(lo: bv16, hi: bv16)
    ensures Low(Dword(lo, hi)) == lo && High(Dword(lo, hi)) == hi
  {
  }

  lemma WithHalves(d: bv32, v: bv16)
    ensures Low(WithLow(d, v)) == v && High(WithLow(d, v)) == High(d)
    ensures High(WithHigh(d, v)) == v && Low(WithHigh(d, v)) == Low(d)
  {
  }

  lemma OpenHigh(d: bv32)
    ensures Low(d | (0xC000 << 16)) == Low(d) && High(d | (0xC000 << 16)) == Opened(High(d))
  {
  }

  lemma CloseHigh(d: bv32)
    ensures Low(d & 0xBFFFFFFF) == Low(d) && High(d & 0xBFFFFFFF) == Closed(High(d))
  {
  }

  lemma RetireHigh(d: bv32)
    ensures Low(d & 0x00FFFFFF) == Low(d) && High(d & 0x00FFFFFF) == Retired(High(d))
  {
  }

  lemma MaskClosed(o: bv16)
    ensures Masked(o, Closed(o)) == Closed(o)
  {
  }

  lemma MaskRetired(o: bv16)
    ensures Masked(o, Retired(o)) == Retired(o)
  {
  }

  /** Programming a word with its own value changes nothing, however the cycle ends. */
  lemma LandedSame(o: bv16, n: bv16, tears: bool)
    requires Landed(o, o, n, tears)
    ensures n == o
  {
  }

  lemma LandedRetired(o: bv16, n: bv16, tears: bool)
    requires Landed(o, Retired(o), n, tears)
    ensures Landed(o, 0x00FF, n, tears)
  {
  }
}
