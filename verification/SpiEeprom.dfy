/** Writing words to an SPI EEPROM by driving its pins: the part clocks in bits while it is
    selected, acts when it is deselected, and wraps within a page when it programs. */
module SpiEeprom {
  import opened Bytes
  import opened Paging
  import opened SpiBits

  const WRITE_OPCODE: nat := 0x02
  const RDSR_OPCODE: nat := 0x05
  const WREN_OPCODE: nat := 0x06
  const A8_OPCODE: nat := 0x08
  const OPCODE_BITS: nat := 8
  const MAX_RETRY: nat := 5000

  // ---- the part -------------------------------------------------------------------------

  datatype Pins = Pins(cs: bool, sk: bool, di: bool)

  /** Size, page size and address width. */
  datatype Part = Part(words: nat, pageSize: nat, addressBits: nat) {
    ghost predicate Valid() {
      && pageSize > 0 && pageSize % 2 == 0 && words > 0 && 2 * words % pageSize == 0
      && ((addressBits == 16 && words <= 0x8000) || (addressBits == 8 && words <= 256 && 256 % pageSize == 0))
    }
  }

  /** Programming: from `addr` on, wrapping at the end of the page. */
  function Program(p: Part, mem: seq<Byte>, addr: nat, data: seq<Byte>): (r: seq<Byte>)
    requires p.Valid() && |mem| == 2 * p.words && addr < |mem|
    ensures |r| == |mem|
  {
    if data == [] then mem else
      var n := |data| - 1;
      PageFits(p.pageSize, addr, |mem|);
      Split(p.pageSize, addr + n);
      Program(p, mem, addr, data[..n])[Base(p.pageSize, addr) + Pos(p.pageSize, addr + n) := data[n]]
  }

  /** The state an instruction can change: the memory and the write-enable latch. */
  datatype Chip = Chip(mem: seq<Byte>, wel: bool)

  /** What the part does with the bits of an instruction when it is deselected. */
  function Execute(p: Part, c: Chip, bits: seq<bool>): (r: Chip)
    requires p.Valid() && |c.mem| == 2 * p.words
    ensures |r.mem| == |c.mem|
  {
    if |bits| < 8 then c else
      var op := FromBits(bits[..8]);
      if op == WREN_OPCODE then (if |bits| == 8 then c.(wel := true) else c)
      else if (op == WRITE_OPCODE || op == WRITE_OPCODE + A8_OPCODE) && c.wel && |bits| >= 8 + p.addressBits + 8 then
        var addr := FromBits(bits[8..8 + p.addressBits])
                    + if op != WRITE_OPCODE && p.addressBits == 8 then 256 else 0;
        var payload := bits[8 + p.addressBits..];
        Split(|c.mem|, addr);
        Chip(Program(p, c.mem, Pos(|c.mem|, addr), BytesOf(payload, |payload| / 8)), false)
      else c
  }

  class Eeprom {
    const part: Part
    var pins: Pins
    var chip: Chip
    var bits: seq<bool>
    ghost var failures: nat // times access was refused or the part did not become ready

    ghost predicate Valid()
      reads this
    {
      part.Valid() && |chip.mem| == 2 * part.words
    }

    constructor (part: Part, mem: seq<Byte>)
      requires part.Valid() && |mem| == 2 * part.words
      ensures Valid() && this.part == part && chip.mem == mem && Idle()
    {
      this.part, pins, chip, bits, failures := part, Pins(true, false, false), Chip(mem, false), [], 0;
    }

    /** Deselected, clock low. */
    predicate Idle()
      reads this
    {
      pins.cs && !pins.sk
    }

    /** Selected, clock low. */
    predicate Selected()
      reads this
    {
      !pins.cs && !pins.sk
    }

    /** A write to the pin register. */
    method SetPins(v: Pins)
      requires Valid()
      modifies this`pins, this`chip, this`bits
      ensures Valid() && pins == v
      ensures chip == if v.cs && !old(pins.cs) then Execute(part, old(chip), old(bits)) else old(chip)
      ensures bits ==
        if v.cs != old(pins.cs) then [] else if !v.cs && v.sk && !old(pins.sk) then old(bits) + [v.di] else old(bits)
    {
      if v.cs && !pins.cs { chip := Execute(part, chip, bits); }
      bits := if v.cs != pins.cs then [] else if !v.cs && v.sk && !pins.sk then bits + [v.di] else bits;
      pins := v;
    }

    // ---- the driver -----------------------------------------------------------------------

    /** Shifts out the low `count` bits of `data`, the highest of them first. */
    method ShiftOut(data: nat, count: nat)
      requires Valid() && Selected() && count > 0
      modifies this`pins, this`chip, this`bits
      ensures Valid() && Selected() && chip == old(chip) && bits == old(bits) + Bits(data, count)
    {
      hide Bits, Pow2, Shr, Quotient;
      var eecd := pins;
      var mask := Pow2(count - 1);
      ghost var k: int := count - 1;
      TopBits(data, count);
      while mask > 0
        invariant Valid() && Selected() && chip == old(chip)
        invariant !eecd.cs && !eecd.sk && -1 <= k < count
        invariant mask == if k >= 0 then Pow2(k) else 0
        invariant bits == old(bits) + Bits(Shr(data, k + 1), count - 1 - k)
        decreases mask
      {
        NextBit(data, count, k);
        HalfPow2(k);
        eecd := eecd.(di := Quotient(data, mask) % 2 == 1);
        SetPins(eecd);
        SetPins(eecd.(sk := true));
        SetPins(eecd.(sk := false));
        assert bits == old(bits) + (Bits(Shr(data, k + 1), count - 1 - k) + [eecd.di]);
        mask := mask / 2;
        k := k - 1;
      }
      AllBits(data);
      SetPins(eecd.(di := false));
    }

    /** Shifts in `count` bits, the first one highest; `line` is what the part puts out. */
    method ShiftIn(count: nat) returns (data: nat, ghost line: seq<bool>)
      requires Valid() && Selected()
      modifies this`pins, this`chip, this`bits
      ensures Valid() && Selected() && chip == old(chip) && old(bits) <= bits
      ensures |line| == count && data == FromBits(line)
    {
      var eecd := pins.(di := false);
      data, line := 0, [];
      for i := 0 to count
        invariant Valid() && Selected() && chip == old(chip) && old(bits) <= bits
        invariant !eecd.cs && !eecd.sk && |line| == i && data == FromBits(line)
      {
        SetPins(eecd.(sk := true));
        var dataOut: bool := *;
        assert (line + [dataOut])[..i] == line;
        data, line := 2 * data + (if dataOut then 1 else 0), line + [dataOut];
        SetPins(eecd.(sk := false));
      }
    }

    /** Toggles the chip select: the instruction so far is acted on. */
    method Standby()
      requires Valid() && Selected()
      modifies this`pins, this`chip, this`bits
      ensures Valid() && Selected() && bits == [] && chip == Execute(part, old(chip), old(bits))
    {
      SetPins(pins.(cs := true));
      SetPins(pins.(cs := false));
    }

    /** e1000_acquire_nvm, which may be refused. */
    method Acquire() returns (err: bool)
      modifies this`failures
      ensures failures == old(failures) + if err then 1 else 0
    {
      err := *;
      if err { failures := failures + 1; }
    }

    /** Selects the part and polls its status until it is ready; `polls` are the answers. */
    method Ready() returns (err: bool, ghost polls: seq<nat>)
      requires Valid() && Idle()
      modifies this
      ensures Valid() && Selected() && chip == old(chip) && Execute(part, chip, bits) == chip
      ensures 0 < |polls| <= MAX_RETRY && forall k :: 0 <= k < |polls| - 1 ==> polls[k] % 2 == 1
      ensures failures == old(failures) + if err then 1 else 0
      ensures if err then |polls| == MAX_RETRY && polls[|polls| - 1] % 2 == 1 else polls[|polls| - 1] % 2 == 0
    {
      SetPins(pins.(cs := false, sk := false));
      polls := [];
      var timeout := MAX_RETRY;
      while timeout > 0
        invariant failures == old(failures)
        invariant 0 <= timeout && Valid() && Selected() && chip == old(chip) && bits == []
        invariant |polls| == MAX_RETRY - timeout && forall k :: 0 <= k < |polls| ==> polls[k] % 2 == 1
      {
        ShiftOut(RDSR_OPCODE, OPCODE_BITS);
        var status;
        ghost var line;
        status, line := ShiftIn(8);
        StatusOnly(part, chip, bits);
        polls := polls + [status];
        if status % 2 == 0 { return false, polls; }
        Standby();
        timeout := timeout - 1;
      }
      failures := failures + 1;
      return true, polls;
    }

    /** Releases the part: deselecting it ends the instruction. */
    method Release()
      requires Valid() && Selected()
      modifies this`pins, this`chip, this`bits
      ensures Valid() && Idle() && chip == Execute(part, old(chip), old(bits))
    {
      SetPins(pins.(cs := true, sk := false));
    }

    /** One WRITE instruction, from word `start` of the data to the end of the page or of the
        data, and the release that follows. */
    method SendBurst(offset: nat, data: seq<Word>, start: nat) returns (widx: nat)
      requires Valid() && Selected() && bits == [] && chip.wel
      requires start < |data| && offset + |data| <= part.words
      modifies this`pins, this`chip, this`bits
      ensures Valid() && Idle() && widx == BurstEnd(part, offset, start, |data|)
      ensures chip == Chip(AfterBurst(part, old(chip.mem), offset, data, start), false)
    {
      hide Execute, Bits, Flat, WordBits, AfterBurst, Pow2, Where, Pos, Space;
      var p := part;
      ghost var c0 := chip;
      var opcode := WRITE_OPCODE + if p.addressBits == 8 && offset >= 128 then A8_OPCODE else 0;
      ShiftOut(opcode, OPCODE_BITS);
      ShiftOut((offset + start) * 2 % 0x1_0000, p.addressBits);
      ghost var header := bits;
      assert header == Bits(opcode, OPCODE_BITS) + Bits((offset + start) * 2 % 0x1_0000, p.addressBits);
      widx := start;
      PageSpace(p, offset, start);
      NoWords(data, start);
      assert header == header + WordBits(data[start..start]);
      while widx < |data|
        invariant start <= widx <= |data| && Valid() && Selected() && chip == c0
        invariant bits == header + WordBits(data[start..widx])
        invariant widx < start + Space(p, offset, start)
      {
        var wordOut := Swapped(data[widx]);
        ShiftOut(wordOut, 16);
        MoreWords(data, start, widx);
        assert header + (WordBits(data[start..widx]) + Bits(wordOut, 16))
            == header + WordBits(data[start..widx]) + Bits(wordOut, 16);
        widx := widx + 1;
        PageEnd(p, offset, start, widx);
        if Pos(part.pageSize, 2 * (offset + widx)) == 0 {
          BurstLands(p, c0, offset, data, start, widx);
          Standby();
          Nothing(p, chip);
          Release();
          return;
        }
      }
      BurstLands(p, c0, offset, data, start, widx);
      Release();
    }

    /** Writes the words at word `offset`. It fails exactly if the range is bad, access is refused
        or the part does not become ready. A call that succeeds leaves every burst in place, a
        call that fails a number of whole bursts. */
    method WriteNvm(offset: nat, data: seq<Word>) returns (err: bool, ghost done: nat)
      requires Valid() && Idle()
      modifies this
      ensures Valid() && Idle()
      ensures offset >= part.words || |data| > part.words - offset || |data| == 0 ==> err && chip == old(chip)
      ensures failures == old(failures) + if err && 0 < |data| <= part.words - offset then 1 else 0
      ensures !err ==> done == |data| && offset + |data| <= part.words
      ensures offset + |data| <= part.words ==>
        done <= |data| && chip.mem == Bursts(part, old(chip.mem), offset, data, 0, done)
    {
      hide Execute, Bits, Flat, AfterBurst, Where, Space, Bursts, Reaches, Pos;
      StartBursts(part, chip.mem, offset, data);
      done := 0;
      if offset >= part.words || |data| > part.words - offset || |data| == 0 { return true, 0; }
      ghost var mem0 := chip.mem;
      var widx := 0;
      while widx < |data|
        invariant failures == old(failures)
        invariant widx <= |data| && done == widx && Valid() && Idle()
        invariant widx < |data| ==> Reaches(part, offset, |data|, 0, widx)
        invariant chip.mem == Bursts(part, mem0, offset, data, 0, widx)
        decreases |data| - widx
      {
        err := Acquire();
        if err { return true, done; }
        ghost var polls;
        err, polls := Ready();
        if err {
          Release();
          return true, done;
        }
        Standby();
        ghost var mem := chip.mem;
        ShiftOut(WREN_OPCODE, OPCODE_BITS);
        assert bits == Bits(WREN_OPCODE, OPCODE_BITS);
        EnablesWrite(part, chip, bits);
        Standby();
        ghost var start := widx;
        PageSpace(part, offset, start);
        widx := SendBurst(offset, data, widx);
        BurstsMore(part, mem0, offset, data, 0, start);
        ReachesNext(part, offset, |data|, 0, start);
        done := widx;
      }
      return false, done;
    }
  }

  // ---- bursts ---------------------------------------------------------------------------

  /** Where in the memory the part puts a burst that starts at word s: 8-bit parts get the
      ninth address bit from the offset of the whole write. */
  function Where(p: Part, offset: nat, s: nat): (a: nat)
    requires p.Valid() && offset <= s < p.words
    ensures a < 2 * p.words
  {
    if p.addressBits == 16 then 2 * s else 2 * s % 256 + if offset >= 128 then 256 else 0
  }

  /** The words that fit between word offset + start and the end of its page. */
  function Space(p: Part, offset: nat, start: nat): nat
    requires p.Valid()
  {
    Split(p.pageSize, 2 * (offset + start));
    (p.pageSize - Pos(p.pageSize, 2 * (offset + start))) / 2
  }

  function BurstEnd(p: Part, offset: nat, start: nat, words: nat): (e: nat)
    requires p.Valid() && start <= words
    ensures start <= e <= words
  {
    if start + Space(p, offset, start) < words then start + Space(p, offset, start) else words
  }

  /** The memory after the burst that starts at data[start]. */
  function AfterBurst(p: Part, mem: seq<Byte>, offset: nat, data: seq<Word>, start: nat): (r: seq<Byte>)
    requires p.Valid() && |mem| == 2 * p.words && offset + |data| <= p.words && start < |data|
    ensures |r| == |mem|
  {
    BurstInPage(p, offset, start, |data|);
    Spliced(mem, Where(p, offset, offset + start), Flat(data[start..BurstEnd(p, offset, start, |data|)]))
  }

  /** The memory after the bursts that cover data[start..stop]. */
  function Bursts(p: Part, mem: seq<Byte>, offset: nat, data: seq<Word>, start: nat, stop: nat): (r: seq<Byte>)
    requires p.Valid() && |mem| == 2 * p.words && offset + |data| <= p.words && stop <= |data|
    ensures |r| == |mem|
    decreases |data| - start
  {
    if start >= stop then mem else
      PageSpace(p, offset, start);
      Bursts(p, AfterBurst(p, mem, offset, data, start), offset, data, BurstEnd(p, offset, start, |data|), stop)
  }

  lemma PageSpace(p: Part, offset: nat, start: nat)
    requires p.Valid()
    ensures Space(p, offset, start) > 0
    ensures Pos(p.pageSize, 2 * (offset + start)) + 2 * Space(p, offset, start) == p.pageSize
  {
    hide Pos;
    EvenPos(p.pageSize, offset + start);
    Split(p.pageSize, 2 * (offset + start));
    HalfRest(p.pageSize, Pos(p.pageSize, 2 * (offset + start)));
  }

  lemma HalfRest(m: nat, r: nat)
    requires m % 2 == 0 && r % 2 == 0 && r < m
    ensures (m - r) / 2 > 0 && r + 2 * ((m - r) / 2) == m
  {
  }

  /** The page ends exactly where the space runs out. */
  lemma PageEnd(p: Part, offset: nat, start: nat, widx: nat)
    requires p.Valid() && start < widx <= start + Space(p, offset, start)
    ensures Pos(p.pageSize, 2 * (offset + widx)) == 0 <==> widx == start + Space(p, offset, start)
  {
    hide Pos;
    PageSpace(p, offset, start);
    Move(p.pageSize, 2 * (offset + start), 2 * (widx - start));
    assert 2 * (offset + start) + 2 * (widx - start) == 2 * (offset + widx);
  }

  /** The place of a burst has the same position in its page as the words have in theirs. */
  lemma SamePosition(p: Part, offset: nat, s: nat)
    requires p.Valid() && offset <= s < p.words
    ensures Pos(p.pageSize, Where(p, offset, s)) == Pos(p.pageSize, 2 * s)
  {
    hide Pos;
    if p.addressBits == 8 {
      var k := 256 / p.pageSize;
      assert 256 == p.pageSize * k;
      var a := 2 * s % 256;
      SamePos(p.pageSize, a, a + 256, k);
    }
  }

  /** A burst never crosses the end of a page, nor the end of the memory. */
  lemma BurstInPage(p: Part, offset: nat, start: nat, words: nat)
    requires p.Valid() && start < words && offset + words <= p.words
    ensures var a, n := Where(p, offset, offset + start), 2 * (BurstEnd(p, offset, start, words) - start);
      n > 0 && Pos(p.pageSize, a) + n <= p.pageSize && a + n <= 2 * p.words
  {
    hide Where, Pos, Base;
    PageSpace(p, offset, start);
    SamePosition(p, offset, offset + start);
    Split(p.pageSize, Where(p, offset, offset + start));
    PageFits(p.pageSize, Where(p, offset, offset + start), 2 * p.words);
  }

  /** Inside one page, programming is plain writing. */
  lemma {:induction false} ProgramInPage(p: Part, mem: seq<Byte>, addr: nat, data: seq<Byte>)
    requires p.Valid() && |mem| == 2 * p.words && addr + |data| <= |mem| && addr < |mem|
    requires Pos(p.pageSize, addr) + |data| <= p.pageSize
    ensures Program(p, mem, addr, data) == Spliced(mem, addr, data)
  {
    hide Pos, Base;
    if data != [] {
      var n := |data| - 1;
      ProgramInPage(p, mem, addr, data[..n]);
      Split(p.pageSize, addr);
      Move(p.pageSize, addr, n);
      SplicedMore(mem, addr, data);
    }
  }

  lemma SplicedMore(mem: seq<Byte>, addr: nat, data: seq<Byte>)
    requires data != [] && addr + |data| <= |mem|
    ensures var n := |data| - 1; Spliced(mem, addr, data) == Spliced(mem, addr, data[..n])[addr + n := data[n]]
  {
  }

  // ---- instructions -----------------------------------------------------------------------

  lemma Opcode(op: nat, more: seq<bool>)
    requires op < 256
    ensures FromBits((Bits(op, 8) + more)[..8]) == op
  {
    hide Bits, Pow2;
    assert (Bits(op, 8) + more)[..8] == Bits(op, 8);
    RoundTrip(op, 8);
    Pow2s();
  }

  lemma StatusOnly(p: Part, c: Chip, bits: seq<bool>)
    requires p.Valid() && |c.mem| == 2 * p.words && Bits(RDSR_OPCODE, OPCODE_BITS) <= bits
    ensures Execute(p, c, bits) == c
  {
    hide Bits, Program, BytesOf;
    Opcode(RDSR_OPCODE, bits[8..]);
    assert bits == Bits(RDSR_OPCODE, 8) + bits[8..];
  }

  lemma EnablesWrite(p: Part, c: Chip, bits: seq<bool>)
    requires p.Valid() && |c.mem| == 2 * p.words && bits == Bits(WREN_OPCODE, OPCODE_BITS)
    ensures Execute(p, c, bits) == c.(wel := true)
  {
    hide Bits, Program, BytesOf;
    Opcode(WREN_OPCODE, []);
    assert bits == Bits(WREN_OPCODE, 8) + [];
  }

  lemma Nothing(p: Part, c: Chip)
    requires p.Valid() && |c.mem| == 2 * p.words
    ensures Execute(p, c, []) == c
  {
  }

  lemma NoWords(data: seq<Word>, k: nat)
    requires k <= |data|
    ensures WordBits(data[k..k]) == []
  {
  }

  lemma MoreWords(data: seq<Word>, start: nat, k: nat)
    requires start <= k < |data|
    ensures WordBits(data[start..k + 1]) == WordBits(data[start..k]) + Bits(Swapped(data[k]), 16)
  {
    assert data[start..k + 1][..k - start] == data[start..k];
  }

  /** The address field as the part reads it. */
  lemma AddressField(p: Part, op: nat, s: nat, more: seq<bool>)
    requires p.Valid() && op < 256 && s < p.words
    ensures var bits := Bits(op, 8) + Bits(s * 2 % 0x1_0000, p.addressBits) + more;
      && FromBits(bits[8..8 + p.addressBits]) == (if p.addressBits == 16 then 2 * s else 2 * s % 256)
      && bits[8 + p.addressBits..] == more
  {
    hide Bits, Pow2;
    var bits := Bits(op, 8) + Bits(s * 2 % 0x1_0000, p.addressBits) + more;
    assert bits[8..8 + p.addressBits] == Bits(s * 2 % 0x1_0000, p.addressBits);
    assert bits[8 + p.addressBits..] == more;
    RoundTrip(s * 2 % 0x1_0000, p.addressBits);
    Pow2s();
  }

  /** A complete WRITE instruction puts its words where the burst belongs. */
  lemma BurstLands(p: Part, c: Chip, offset: nat, data: seq<Word>, start: nat, widx: nat)
    requires p.Valid() && |c.mem| == 2 * p.words && c.wel && offset + |data| <= p.words
    requires start < |data| && start < widx == BurstEnd(p, offset, start, |data|)
    ensures var op := WRITE_OPCODE + if p.addressBits == 8 && offset >= 128 then A8_OPCODE else 0;
      Execute(p, c, Bits(op, OPCODE_BITS) + Bits((offset + start) * 2 % 0x1_0000, p.addressBits)
                    + WordBits(data[start..widx]))
        == Chip(AfterBurst(p, c.mem, offset, data, start), false)
  {
    hide Bits, WordBits, Flat, Program, Spliced, BytesOf, Space, Swapped, Pos, Execute, FromBits;
    var op := WRITE_OPCODE + if p.addressBits == 8 && offset >= 128 then A8_OPCODE else 0;
    var payload := WordBits(data[start..widx]);
    var addr := Bits((offset + start) * 2 % 0x1_0000, p.addressBits);
    var bits := Bits(op, 8) + addr + payload;
    assert bits == Bits(op, 8) + (addr + payload);
    Opcode(op, addr + payload);
    AddressField(p, op, offset + start, payload);
    BurstInPage(p, offset, start, |data|);
    ExecuteWrite(p, c, bits, op, Where(p, offset, offset + start));
    WordsArrive(data[start..widx]);
    assert |payload| / 8 == 2 * (widx - start);
    ProgramInPage(p, c.mem, Where(p, offset, offset + start), Flat(data[start..widx]));
  }

  lemma SmallPos(size: nat, x: nat)
    requires x < size
    ensures Pos(size, x) == x
  {
  }

  lemma ExecuteWrite(p: Part, c: Chip, bits: seq<bool>, op: nat, a: nat)
    requires p.Valid() && |c.mem| == 2 * p.words && c.wel && a < |c.mem|
    requires |bits| >= 8 + p.addressBits + 8 && FromBits(bits[..8]) == op
    requires op == WRITE_OPCODE || op == WRITE_OPCODE + A8_OPCODE
    requires a == FromBits(bits[8..8 + p.addressBits]) + if op != WRITE_OPCODE && p.addressBits == 8 then 256 else 0
    ensures var payload := bits[8 + p.addressBits..];
      Execute(p, c, bits) == Chip(Program(p, c.mem, a, BytesOf(payload, |payload| / 8)), false)
  {
    hide Program, BytesOf, FromBits, Pos;
    SmallPos(|c.mem|, a);
  }

  // ---- the whole write ------------------------------------------------------------------

  lemma StartBursts(p: Part, mem: seq<Byte>, offset: nat, data: seq<Word>)
    requires p.Valid() && |mem| == 2 * p.words
    ensures Reaches(p, offset, |data|, 0, 0)
    ensures offset + |data| <= p.words ==> Bursts(p, mem, offset, data, 0, 0) == mem
  {
  }

  /** One more burst at the end. */
  lemma {:induction false} BurstsMore(p: Part, mem: seq<Byte>, offset: nat, data: seq<Word>, start: nat, k: nat)
    requires p.Valid() && |mem| == 2 * p.words && offset + |data| <= p.words && start <= k < |data|
    requires Reaches(p, offset, |data|, start, k)
    ensures Bursts(p, mem, offset, data, start, BurstEnd(p, offset, k, |data|))
         == AfterBurst(p, Bursts(p, mem, offset, data, start, k), offset, data, k)
    decreases |data| - start
  {
    hide AfterBurst, Space;
    PageSpace(p, offset, k);
    if start < k {
      PageSpace(p, offset, start);
      BurstsMore(p, AfterBurst(p, mem, offset, data, start), offset, data, BurstEnd(p, offset, start, |data|), k);
    }
  }

  /** Word k is where some burst after word start begins. */
  ghost predicate Reaches(p: Part, offset: nat, words: nat, start: nat, k: nat)
    requires p.Valid() && start <= words
    decreases words - start
  {
    PageSpace(p, offset, start);
    start == k || (start < k && start < words && Reaches(p, offset, words, BurstEnd(p, offset, start, words), k))
  }

  lemma {:induction false} ReachesNext(p: Part, offset: nat, words: nat, start: nat, k: nat)
    requires p.Valid() && start <= k < words && Reaches(p, offset, words, start, k)
    ensures Reaches(p, offset, words, start, BurstEnd(p, offset, k, words))
    decreases words - start
  {
    PageSpace(p, offset, k);
    if start < k {
      PageSpace(p, offset, start);
      ReachesNext(p, offset, words, BurstEnd(p, offset, start, words), k);
    }
  }

  /** The bursts put the data at its place when the ninth address bit is right for all of
      them: 16-bit parts always, 8-bit parts when the range does not cross word 128. */
  ghost predicate RightHalf(p: Part, offset: nat, words: nat) {
    p.addressBits == 16 || offset >= 128 || offset + words <= 128
  }

  lemma WhereExact(p: Part, offset: nat, n: nat, s: nat)
    requires p.Valid() && offset <= s < offset + n <= p.words && RightHalf(p, offset, n)
    ensures Where(p, offset, s) == 2 * s
  {
  }

  lemma NoData(mem: seq<Byte>, at: nat)
    requires at <= |mem|
    ensures Flat([]) == [] && Spliced(mem, at, Flat([])) == mem
  {
  }

  lemma {:induction false} BurstsExact(p: Part, mem: seq<Byte>, offset: nat, data: seq<Word>, start: nat)
    requires p.Valid() && |mem| == 2 * p.words && offset + |data| <= p.words && start <= |data|
    requires RightHalf(p, offset, |data|)
    ensures Bursts(p, mem, offset, data, start, |data|) == Spliced(mem, 2 * (offset + start), Flat(data[start..]))
    decreases |data| - start
  {
    hide Space, Flat, Where, Spliced, Pos;
    if start < |data| {
      PageSpace(p, offset, start);
      BurstInPage(p, offset, start, |data|);
      WhereExact(p, offset, |data|, offset + start);
      var e := BurstEnd(p, offset, start, |data|);
      BurstsExact(p, Spliced(mem, 2 * (offset + start), Flat(data[start..e])), offset, data, e);
      FlatConcat(data[start..e], data[e..]);
      assert data[start..] == data[start..e] + data[e..];
      SplicedTwice(mem, 2 * (offset + start), Flat(data[start..e]), Flat(data[e..]));
    } else {
      NoData(mem, 2 * (offset + start));
      assert data[start..] == [];
    }
  }

  /** A write that starts below word 128 of an 8-bit part never reaches the upper half. */
  lemma {:induction false} UpperHalfUntouched(p: Part, mem: seq<Byte>, offset: nat, data: seq<Word>, start: nat, k: nat)
    requires p.Valid() && |mem| == 2 * p.words && offset + |data| <= p.words && start <= |data|
    requires p.addressBits == 8 && offset < 128 && 256 <= k < |mem|
    ensures Bursts(p, mem, offset, data, start, |data|)[k] == mem[k]
    decreases |data| - start
  {
    hide Space, Flat, Pos, Base;
    if start < |data| {
      PageSpace(p, offset, start);
      BurstInPage(p, offset, start, |data|);
      var e := BurstEnd(p, offset, start, |data|);
      var a, n := Where(p, offset, offset + start), 2 * (e - start);
      Split(p.pageSize, a);
      PageFits(p.pageSize, a, 256);
      UpperHalfUntouched(p, Spliced(mem, a, Flat(data[start..e])), offset, data, e, k);
    }
  }

  /** Exactly when a write that succeeds is exact, whatever the memory and the data. */
  lemma WriteExactIff(p: Part, offset: nat, n: nat)
    requires p.Valid() && n > 0 && offset + n <= p.words
    ensures (forall mem: seq<Byte>, data: seq<Word> :: |mem| == 2 * p.words && |data| == n ==>
               Bursts(p, mem, offset, data, 0, n) == Spliced(mem, 2 * offset, Flat(data)))
       <==> RightHalf(p, offset, n)
  {
    hide Bursts, Flat;
    if RightHalf(p, offset, n) {
      forall mem: seq<Byte>, data: seq<Word> | |mem| == 2 * p.words && |data| == n
        ensures Bursts(p, mem, offset, data, 0, n) == Spliced(mem, 2 * offset, Flat(data))
      {
        BurstsExact(p, mem, offset, data, 0);
        assert data[0..] == data;
      }
    } else {
      var mem: seq<Byte> := seq(2 * p.words, _ => 0);
      var data: seq<Word> := seq(n, _ => 0xFFFF);
      UpperHalfUntouched(p, mem, offset, data, 0, 256);
      AllOnes(data, 256 - 2 * offset);
      assert Spliced(mem, 2 * offset, Flat(data))[256] == 255;
    }
  }

  lemma AllOnes(data: seq<Word>, i: nat)
    requires (forall k :: 0 <= k < |data| ==> data[k] == 0xFFFF) && i < 2 * |data|
    ensures Flat(data)[i] == 255
  {
  }

  /** The bits of d above its low k. */
  function Shr(d: nat, k: nat): nat { Quotient(d, Pow2(k)) }

  function Quotient(d: nat, p: nat): nat
    requires p > 0
  {
    d / p
  }

  lemma TopBits(d: nat, c: nat)
    ensures Bits(Shr(d, c), 0) == []
  {
  }

  lemma AllBits(d: nat)
    ensures Shr(d, 0) == d
  {
  }

  lemma HalfPow2(k: nat)
    ensures Pow2(k) / 2 == if k > 0 then Pow2(k - 1) else 0
  {
  }

  lemma NextBit(d: nat, c: nat, k: nat)
    requires k < c
    ensures Bits(Shr(d, k), c - k) == Bits(Shr(d, k + 1), c - 1 - k) + [Quotient(d, Pow2(k)) % 2 == 1]
  {
    Paging.DivTwice(d, Pow2(k));
    assert Pow2(k + 1) == 2 * Pow2(k);
  }
}
