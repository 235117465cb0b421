/** The driver's NVM operations: reads through the shadow RAM, writes to it, and the two
    commits (byte programming before SPT, dword programming from SPT on). */
module Ich8Nvm {
  import opened FlashSpec
  import opened FlashBits
  import opened FlashPoints
  import opened FlashHardware

  const FLASH_CYCLE_REPEAT_COUNT: nat := 10
  const PROGRAM_RETRIES: nat := 100

  /** Errors after which the driver gives up programming a byte or a dword. */
  const GIVE_UP: nat := (PROGRAM_RETRIES + 1) * (FLASH_CYCLE_REPEAT_COUNT + 1)

  /** With so many errors in erasing, a commit does not go on over a bank that is not erased. */
  predicate EraseTold(eraseErrors: int) { eraseErrors < FLASH_CYCLE_REPEAT_COUNT }

  /** What a commit may fail for: a read cycle that failed, a cycle that could not be started or
      did not end, or as many errors in programming. */
  predicate Excused(misreads: int, stuck: int, programErrors: int) {
    misreads > 0 || stuck > 0 || programErrors >= GIVE_UP
  }

  /** Word j of a read from `offset` on the dword-read parts, taken from bank o: a word at an odd
      place follows the flag of the word before it. */
  ghost function SptWordOf(g: Geometry, c: Cells, sh: seq<ShadowEntry>, o: nat, offset: nat, j: nat): bv16
    requires ValidState(g, c, sh) && offset + j < SHADOW_WORDS
  {
    var flag := if j % 2 == 0 then j else j - 1;
    if sh[offset + flag].modified then sh[offset + j].value else Image(g, c, o)[offset + j]
  }

  lemma FromBankAt(g: Geometry, c: Cells, sh: seq<ShadowEntry>, o: nat, w: nat)
    requires ValidState(g, c, sh) && w < SHADOW_WORDS
    ensures g.Base(o) + w < |c|
    ensures FromBank(g, c, sh, o)[w] == if sh[w].modified then sh[w].value else c[g.Base(o) + w]
  {
  }

  lemma SptWordAt(g: Geometry, c: Cells, sh: seq<ShadowEntry>, o: nat, offset: nat, j: nat)
    requires ValidState(g, c, sh) && offset + j < SHADOW_WORDS
    ensures g.Base(o) + offset + j < |c|
    ensures SptWordOf(g, c, sh, o, offset, j) ==
      if sh[offset + (if j % 2 == 0 then j else j - 1)].modified then sh[offset + j].value
      else c[g.Base(o) + offset + j]
  {
  }

  predicate NoBankValid(g: Geometry, c: Cells)
    requires g.Valid() && |c| == 2 * g.bankWords
  {
    !SigValid(c[SIG_WORD]) && !SigValid(c[g.bankWords + SIG_WORD])
  }

  lemma Detected(g: Geometry, c: Cells, err: bool, sure: bool, bank: nat)
    requires g.Valid() && |c| == 2 * g.bankWords && bank == if err then 0 else ActiveBank(g, c)
    requires err <==> !sure || NoBankValid(g, c)
    ensures bank <= 1 && (bank == 0 || bank == ActiveBank(g, c)) && (sure ==> bank == ActiveBank(g, c))
  {
    hide SigValid;
  }

  class Nvm {
    const flash: FlashPart
    const spt: bool       // the flash is read and programmed by dwords
    const shadow: array<ShadowEntry>

    ghost predicate Valid()
      reads flash
    {
      flash.Valid() && shadow.Length == SHADOW_WORDS
    }

    ghost function Contents(): (r: seq<bv16>)
      reads flash, shadow
      requires Valid()
      ensures |r| == SHADOW_WORDS
    {
      View(flash.g, flash.cells, shadow[..])
    }

    /** A fresh driver: every shadow entry is clear. */
    constructor (flash: FlashPart, spt: bool)
      requires flash.Valid()
      ensures Valid() && this.flash == flash && this.spt == spt && fresh(shadow)
      ensures shadow[..] == seq(SHADOW_WORDS, _ => CLEAR)
    {
      this.flash, this.spt := flash, spt;
      shadow := new ShadowEntry[SHADOW_WORDS](_ => CLEAR);
    }

    // ---- bank detection -----------------------------------------------------------

    method DetectBank() returns (err: bool, bank: nat)
      requires Valid()
      modifies flash`misreads
      ensures old(flash.misreads) <= flash.misreads <= old(flash.misreads) + 1
      ensures bank == if err then 0 else ActiveBank(flash.g, flash.cells)
      ensures err <==> flash.misreads > old(flash.misreads) || NoBankValid(flash.g, flash.cells)
    {
      hide SigValid, HalfOf;
      var actOffset := SIG_WORD * 2 + 1;
      var bank1Offset := flash.g.bankWords * 2;
      bank := 0;
      var ok, sigByte := flash.ReadByte(actOffset);
      if !ok { return true, 0; }
      SigByte(flash.cells[SIG_WORD]);
      if sigByte & 0xC0 == 0x80 { return false, 0; }
      ok, sigByte := flash.ReadByte(actOffset + bank1Offset);
      if !ok { return true, 0; }
      SigByte(flash.cells[flash.g.bankWords + SIG_WORD]);
      if sigByte & 0xC0 == 0x80 { return false, 1; }
      return true, 0;
    }

    // ---- reads and writes ---------------------------------------------------------

    /** e1000_read_nvm_ich8lan. `bank` is the bank taken for the active one: bank 0 if a read that
        looked for the signature failed. The call itself fails only if a later one did. */
    method Read(offset: nat, words: nat, data: array<bv16>) returns (err: bool, ghost bank: nat)
      requires Valid() && words <= data.Length && data as object != shadow  // of another type
      modifies data, flash`misreads
      ensures flash.misreads >= old(flash.misreads)
      ensures data[words..] == old(data[words..])
      ensures offset >= SHADOW_WORDS || words > SHADOW_WORDS - offset || words == 0 ==>
        err && data[..] == old(data[..]) && flash.misreads == old(flash.misreads)
      ensures bank <= 1 && (bank == 0 || bank == ActiveBank(flash.g, flash.cells))
      ensures offset + words <= SHADOW_WORDS && words != 0 ==>
        flash.misreads <= old(flash.misreads) + (if err then 2 else 1) && (err ==> flash.misreads > old(flash.misreads))
      ensures !err ==> data[..words] == FromBank(flash.g, flash.cells, shadow[..], bank)[offset..offset + words]
      ensures flash.misreads == old(flash.misreads) ==> bank == ActiveBank(flash.g, flash.cells)
    {
      bank := ActiveBank(flash.g, flash.cells);
      ActiveBankIsBank(flash.g, flash.cells);
      if offset >= SHADOW_WORDS || words > SHADOW_WORDS - offset || words == 0 {
        return true, bank;
      }
      hide SigValid, ActiveBank, NoBankValid, FromBank;
      err := false;
      ghost var sh, c := shadow[..], flash.cells;
      var detectErr, taken := DetectBank();
      Detected(flash.g, c, detectErr, flash.misreads == old(flash.misreads), taken);
      bank := taken;
      ghost var from, m := FromBank(flash.g, c, sh, bank), flash.misreads;
      var actOffset := (if taken == 1 then flash.g.bankWords else 0) + offset;
      var i := 0;
      while i < words
        invariant i <= words && flash.misreads == m
        invariant data[words..] == old(data[words..])
        invariant shadow[..] == sh && flash.cells == c
        invariant forall j :: 0 <= j < i ==> data[j] == from[offset + j]
      {
        FromBankAt(flash.g, c, sh, bank, offset + i);
        if shadow[offset + i].modified {
          data[i] := shadow[offset + i].value;
        } else {
          var ok, word := flash.ReadWord(actOffset + i);
          if !ok { return true, bank; }
          data[i] := word;
        }
        i := i + 1;
      }
      assert data[..words] == from[offset..offset + words];
    }

    ghost function SptWord(o: nat, offset: nat, j: nat): bv16
      reads flash, shadow
      requires Valid() && offset + j < SHADOW_WORDS
    {
      SptWordOf(flash.g, flash.cells, shadow[..], o, offset, j)
    }

    /** e1000_read_nvm_spt: two words at a time, a last odd one alone. */
    method ReadSpt(offset: nat, words: nat, data: array<bv16>) returns (err: bool, ghost bank: nat)
      requires Valid() && words <= data.Length && data as object != shadow  // of another type
      modifies data, flash`misreads
      ensures flash.misreads >= old(flash.misreads)
      ensures offset >= SHADOW_WORDS || words > SHADOW_WORDS - offset || words == 0 ==>
        err && data[..] == old(data[..]) && flash.misreads == old(flash.misreads)
      ensures bank <= 1 && (bank == 0 || bank == ActiveBank(flash.g, flash.cells))
      ensures offset + words <= SHADOW_WORDS && words != 0 ==>
        flash.misreads <= old(flash.misreads) + (if err then 2 else 1) && (err ==> flash.misreads > old(flash.misreads))
      ensures !err ==>
        offset + words <= SHADOW_WORDS && forall j :: 0 <= j < words ==> data[j] == SptWord(bank, offset, j)
      ensures flash.misreads == old(flash.misreads) ==> bank == ActiveBank(flash.g, flash.cells)
    {
      hide SigValid, ActiveBank, NoBankValid, SptWordOf, ActiveImage, Image;
      bank := ActiveBank(flash.g, flash.cells);
      ActiveBankIsBank(flash.g, flash.cells);
      if offset >= SHADOW_WORDS || words > SHADOW_WORDS - offset || words == 0 {
        return true, bank;
      }
      err := false;
      ghost var g, c, sh := flash.g, flash.cells, shadow[..];
      var detectErr, taken := DetectBankSpt();
      Detected(g, c, detectErr, flash.misreads == old(flash.misreads), taken);
      bank := taken;
      ghost var m := flash.misreads;
      var actOffset := (if taken == 1 then flash.g.bankWords else 0) + offset;
      var i := 0;
      while i < words
        invariant 0 <= i && (i % 2 == 0 || i >= words) && flash.misreads == m
        invariant shadow[..] == sh && flash.cells == c
        invariant forall j :: 0 <= j < i && j < words ==> data[j] == SptWordOf(g, c, sh, bank, offset, j)
      {
        var ok;
        SptWordAt(g, c, sh, bank, offset, i);
        if words - i == 1 {
          ok, data[i] := ReadLast(offset + i, actOffset + i);
          if !ok { return true, bank; }
        } else {
          SptWordAt(g, c, sh, bank, offset, i + 1);
          var lo, hi;
          ok, lo, hi := ReadPair(offset + i, actOffset + i);
          if !ok { return true, bank; }
          data[i] := lo;
          data[i + 1] := hi;
        }
        i := i + 2;
      }
    }

    /** A word without a second one after it. */
    method ReadLast(w: nat, act: nat) returns (ok: bool, v: bv16)
      requires Valid() && w < SHADOW_WORDS && act < |flash.cells|
      modifies flash`misreads
      ensures flash.misreads == old(flash.misreads) + if ok then 0 else 1
      ensures ok ==> v == if shadow[w].modified then shadow[w].value else flash.cells[act]
    {
      hide Low, High, Dword;
      if shadow[w].modified { return true, shadow[w].value; }
      var toRead := act - act % 2;
      var dword;
      ok, dword := flash.ReadDword(toRead);
      DwordHalves(flash.cells[toRead], flash.cells[toRead + 1]);
      v := if act % 2 == 0 then Low(dword) else High(dword);
    }

    /** Two words. The flag of the first decides about both. */
    method ReadPair(w: nat, act: nat) returns (ok: bool, lo: bv16, hi: bv16)
      requires Valid() && w + 1 < SHADOW_WORDS && act + 1 < |flash.cells|
      modifies flash`misreads
      ensures flash.misreads == old(flash.misreads) + if ok then 0 else 1
      ensures ok ==> lo == (if shadow[w].modified then shadow[w].value else flash.cells[act])
      ensures ok ==> hi == if shadow[w].modified then shadow[w + 1].value else flash.cells[act + 1]
    {
      hide Low, High, Dword;
      var dword: bv32 := 0;
      ok := true;
      if !shadow[w].modified || !shadow[w + 1].modified {
        ok, dword := flash.ReadDword(act);
        DwordHalves(flash.cells[act], flash.cells[act + 1]);
      }
      lo := if shadow[w].modified then shadow[w].value else Low(dword);
      hi := if shadow[w].modified then shadow[w + 1].value else High(dword);
    }

    /** One word, as the checksum functions read it. */
    method ReadOne(i: nat) returns (err: bool, word: bv16)
      requires Valid() && i < SHADOW_WORDS
      modifies flash`misreads
      ensures flash.misreads >= old(flash.misreads)
      ensures err ==> flash.misreads > old(flash.misreads)
      ensures flash.misreads == old(flash.misreads) ==> word == Contents()[i]
    {
      hide SigValid, ActiveBank, Overlay, Image;
      var data := new bv16[1];
      ghost var bank;
      if spt {
        err, bank := ReadSpt(i, 1, data);
        if !err {
          SptWordAt(flash.g, flash.cells, shadow[..], bank, i, 0);
          assert data[0] == SptWord(bank, i, 0);
        }
      } else {
        err, bank := Read(i, 1, data);
        if !err { assert data[..1][0] == FromBank(flash.g, flash.cells, shadow[..], bank)[i..i + 1][0]; }
      }
      FromBankAt(flash.g, flash.cells, shadow[..], bank, i);
      word := data[0];
    }

    method Write(offset: nat, data: seq<bv16>) returns (err: bool)
      requires Valid()
      modifies shadow
      ensures err <==> offset >= SHADOW_WORDS || |data| > SHADOW_WORDS - offset || |data| == 0
      ensures err ==> shadow[..] == old(shadow[..])
      ensures !err ==> shadow[..] == Stored(old(shadow[..]), offset, data)
    {
      if offset >= SHADOW_WORDS || |data| > SHADOW_WORDS - offset || |data| == 0 {
        return true;
      }
      for i := 0 to |data|
        invariant forall w :: 0 <= w < SHADOW_WORDS ==>
          shadow[w] == if offset <= w < offset + i then ShadowEntry(data[w - offset], true) else old(shadow[w])
      {
        shadow[offset + i] := ShadowEntry(data[i], true);
      }
      return false;
    }

    // ---- checksum -----------------------------------------------------------------

    method UpdateChecksum() returns (err: bool)
      requires Valid()
      modifies shadow, flash`misreads
      ensures flash.misreads >= old(flash.misreads)
      ensures err ==> shadow[..] == old(shadow[..]) && flash.misreads > old(flash.misreads)
      ensures !err ==> shadow[..] == Stored(old(shadow[..]), CHECKSUM_WORD, [shadow[CHECKSUM_WORD].value])
      ensures flash.misreads == old(flash.misreads) ==> shadow[CHECKSUM_WORD].value == Checksum(old(Contents()))
    {
      hide SigValid, Plus, Minus, Overlay, ActiveBank;
      var checksum: bv16 := 0;
      var i := 0;
      while i < CHECKSUM_WORD
        invariant i <= CHECKSUM_WORD
        invariant flash.misreads >= old(flash.misreads)
        invariant shadow[..] == old(shadow[..])
        invariant flash.misreads == old(flash.misreads) ==> checksum == Sum(old(Contents()), i)
      {
        var nvmData;
        err, nvmData := ReadOne(i);
        if err { return; }
        checksum := Plus(checksum, nvmData);
        i := i + 1;
      }
      checksum := Minus(NVM_SUM, checksum);
      err := Write(CHECKSUM_WORD, [checksum]);
    }

    method ValidateChecksum() returns (err: bool)
      requires Valid()
      modifies flash`misreads
      ensures flash.misreads >= old(flash.misreads)
      ensures flash.misreads == old(flash.misreads) ==>
        (err <==> Sum(Contents(), CHECKSUM_WORD + 1) != NVM_SUM)
    {
      hide SigValid, Plus, Minus, Overlay, ActiveBank;
      var checksum: bv16 := 0;
      var i := 0;
      while i < CHECKSUM_WORD + 1
        invariant i <= CHECKSUM_WORD + 1
        invariant flash.misreads >= old(flash.misreads)
        invariant flash.misreads == old(flash.misreads) ==> checksum == Sum(Contents(), i)
      {
        var nvmData;
        err, nvmData := ReadOne(i);
        if err { return; }
        checksum := Plus(checksum, nvmData);
        i := i + 1;
      }
      return checksum != NVM_SUM;
    }

    // ---- programming with retries ---------------------------------------------------

    /** e1000_write_flash_data_ich8lan for one byte: a cycle that ends in an error is repeated
        up to ten times, unless it did not end at all or could not be started. */
    method WriteFlashByte(off: nat, b: bv8) returns (err: bool)
      requires Valid() && off < 2 * |flash.cells|
      modifies flash`cells, flash`trail, flash`stuck, flash`programErrors
      ensures Valid()
      ensures TrailWord(old(flash.trail), flash.trail, old(flash.cells), off / 2, ByteMask(b, off % 2), flash.tears)
      ensures WordLanded(old(flash.cells), flash.cells, off / 2, ByteMask(b, off % 2), flash.tears)
      ensures !err ==> flash.cells[off / 2] == Masked(old(flash.cells)[off / 2], ByteMask(b, off % 2))
      ensures old(flash.stuck) <= flash.stuck <= old(flash.stuck) + 1
      ensures flash.programErrors >= old(flash.programErrors)
      ensures flash.stuck > old(flash.stuck) ==> err
      ensures flash.stuck == old(flash.stuck) ==>
        (err <==> flash.programErrors == old(flash.programErrors) + FLASH_CYCLE_REPEAT_COUNT + 1)
    {
      hide Landed, Masked, ByteMask;
      ghost var b0, w, m := flash.cells, off / 2, ByteMask(b, off % 2);
      LandedNothing(b0[w], m, flash.tears);
      var count := 0;
      while count <= FLASH_CYCLE_REPEAT_COUNT
        invariant Valid() && WordLanded(b0, flash.cells, w, m, flash.tears)
        invariant TrailWord(old(flash.trail), flash.trail, b0, w, m, flash.tears)
        invariant count <= FLASH_CYCLE_REPEAT_COUNT + 1 && flash.stuck == old(flash.stuck)
        invariant flash.programErrors == old(flash.programErrors) + count
      {
        var started := flash.Start();
        if !started { return true; }
        ghost var b1, t1 := flash.cells, flash.trail;
        var end := flash.ProgramWord(off / 2, ByteMask(b, off % 2));
        WordAgain(old(flash.trail), t1, flash.trail, b0, b1, flash.cells, w, m, flash.tears);
        if end.Good? { return false; }
        if end.Endless? { return true; }
        count := count + 1;
      }
      return true;
    }

    method RetryWriteByte(off: nat, b: bv8) returns (err: bool)
      requires Valid() && off < 2 * |flash.cells|
      modifies flash`cells, flash`trail, flash`stuck, flash`programErrors
      ensures Valid()
      ensures TrailWord(old(flash.trail), flash.trail, old(flash.cells), off / 2, ByteMask(b, off % 2), flash.tears)
      ensures WordLanded(old(flash.cells), flash.cells, off / 2, ByteMask(b, off % 2), flash.tears)
      ensures !err ==> flash.cells[off / 2] == Masked(old(flash.cells)[off / 2], ByteMask(b, off % 2))
      ensures old(flash.stuck) <= flash.stuck && old(flash.programErrors) <= flash.programErrors
      ensures err ==>
        (FLASH_CYCLE_REPEAT_COUNT + 1) * (flash.stuck - old(flash.stuck))
          + (flash.programErrors - old(flash.programErrors)) >= GIVE_UP
      ensures !err ==> flash.stuck <= old(flash.stuck) + PROGRAM_RETRIES
    {
      hide Landed, Masked, ByteMask;
      ghost var b0, w, m := flash.cells, off / 2, ByteMask(b, off % 2);
      err := WriteFlashByte(off, b);
      if !err { return; }
      var retries := 0;
      while retries < PROGRAM_RETRIES
        invariant retries <= PROGRAM_RETRIES
        invariant old(flash.stuck) <= flash.stuck <= old(flash.stuck) + retries + 1
        invariant old(flash.programErrors) <= flash.programErrors
        invariant
          (FLASH_CYCLE_REPEAT_COUNT + 1) * (flash.stuck - old(flash.stuck))
            + (flash.programErrors - old(flash.programErrors)) >= (retries + 1) * (FLASH_CYCLE_REPEAT_COUNT + 1)
        invariant Valid() && WordLanded(b0, flash.cells, w, m, flash.tears)
        invariant TrailWord(old(flash.trail), flash.trail, b0, w, m, flash.tears)
      {
        ghost var b1, t1 := flash.cells, flash.trail;
        err := WriteFlashByte(off, b);
        WordAgain(old(flash.trail), t1, flash.trail, b0, b1, flash.cells, w, m, flash.tears);
        if !err { return; }
        retries := retries + 1;
      }
      return true;
    }

    /** e1000_write_flash_data32_ich8lan. */
    method WriteFlashDword(w: nat, dword: bv32) returns (err: bool)
      requires Valid() && w + 1 < |flash.cells|
      modifies flash`cells, flash`trail, flash`stuck, flash`programErrors
      ensures Valid()
      ensures TrailDword(old(flash.trail), flash.trail, old(flash.cells), w, Low(dword), High(dword), flash.tears)
      ensures DwordLanded(old(flash.cells), flash.cells, w, Low(dword), High(dword), flash.tears)
      ensures !err ==> flash.cells[w] == Masked(old(flash.cells)[w], Low(dword))
      ensures !err ==> flash.cells[w + 1] == Masked(old(flash.cells)[w + 1], High(dword))
      ensures old(flash.stuck) <= flash.stuck <= old(flash.stuck) + 1
      ensures flash.programErrors >= old(flash.programErrors)
      ensures flash.stuck > old(flash.stuck) ==> err
      ensures flash.stuck == old(flash.stuck) ==>
        (err <==> flash.programErrors == old(flash.programErrors) + FLASH_CYCLE_REPEAT_COUNT + 1)
    {
      hide Landed, Masked, Low, High, TrailDword;
      ghost var b0, m, m1 := flash.cells, Low(dword), High(dword);
      DwordNothing(flash.trail, b0, w, m, m1, flash.tears);
      var count := 0;
      while count <= FLASH_CYCLE_REPEAT_COUNT
        invariant Valid() && DwordLanded(b0, flash.cells, w, m, m1, flash.tears)
        invariant TrailDword(old(flash.trail), flash.trail, b0, w, m, m1, flash.tears)
        invariant count <= FLASH_CYCLE_REPEAT_COUNT + 1 && flash.stuck == old(flash.stuck)
        invariant flash.programErrors == old(flash.programErrors) + count
      {
        var started := flash.Start();
        if !started { return true; }
        ghost var b1, t1 := flash.cells, flash.trail;
        var end := flash.ProgramDword(w, Low(dword), High(dword));
        DwordOnce(t1, b1, flash.cells, w, m, m1, flash.tears);
        DwordAgain(old(flash.trail), t1, flash.trail, b0, b1, flash.cells, w, m, m1, flash.tears);
        if end.Good? { return false; }
        if end.Endless? { return true; }
        count := count + 1;
      }
      return true;
    }

    method RetryWriteDword(w: nat, dword: bv32) returns (err: bool)
      requires Valid() && w + 1 < |flash.cells|
      modifies flash`cells, flash`trail, flash`stuck, flash`programErrors
      ensures Valid()
      ensures TrailDword(old(flash.trail), flash.trail, old(flash.cells), w, Low(dword), High(dword), flash.tears)
      ensures DwordLanded(old(flash.cells), flash.cells, w, Low(dword), High(dword), flash.tears)
      ensures !err ==> flash.cells[w] == Masked(old(flash.cells)[w], Low(dword))
      ensures !err ==> flash.cells[w + 1] == Masked(old(flash.cells)[w + 1], High(dword))
      ensures old(flash.stuck) <= flash.stuck && old(flash.programErrors) <= flash.programErrors
      ensures err ==>
        (FLASH_CYCLE_REPEAT_COUNT + 1) * (flash.stuck - old(flash.stuck))
          + (flash.programErrors - old(flash.programErrors)) >= GIVE_UP
      ensures !err ==> flash.stuck <= old(flash.stuck) + PROGRAM_RETRIES
    {
      hide Landed, Masked, Low, High;
      ghost var b0, m, m1 := flash.cells, Low(dword), High(dword);
      err := WriteFlashDword(w, dword);
      if !err { return; }
      var retries := 0;
      while retries < PROGRAM_RETRIES
        invariant retries <= PROGRAM_RETRIES
        invariant old(flash.stuck) <= flash.stuck <= old(flash.stuck) + retries + 1
        invariant old(flash.programErrors) <= flash.programErrors
        invariant
          (FLASH_CYCLE_REPEAT_COUNT + 1) * (flash.stuck - old(flash.stuck))
            + (flash.programErrors - old(flash.programErrors)) >= (retries + 1) * (FLASH_CYCLE_REPEAT_COUNT + 1)
        invariant Valid() && DwordLanded(b0, flash.cells, w, m, m1, flash.tears)
        invariant TrailDword(old(flash.trail), flash.trail, b0, w, m, m1, flash.tears)
      {
        ghost var b1, t1 := flash.cells, flash.trail;
        err := WriteFlashDword(w, dword);
        DwordAgain(old(flash.trail), t1, flash.trail, b0, b1, flash.cells, w, m, m1, flash.tears);
        if !err { return; }
        retries := retries + 1;
      }
      return true;
    }

    /** e1000_erase_flash_bank_ich8lan for one sector. After ten errors in a row, and only then, it
        returns as if the erase had been done: `silent`. It fails exactly when a cycle could not be
        started or did not end. */
    method EraseBank(bank: nat) returns (err: bool, ghost silent: bool)
      requires Valid() && bank <= 1
      modifies flash`cells, flash`trail, flash`stuck, flash`eraseErrors
      ensures Valid() && flash.stuck >= old(flash.stuck)
      ensures old(flash.eraseErrors) <= flash.eraseErrors <= old(flash.eraseErrors) + FLASH_CYCLE_REPEAT_COUNT
      ensures silent <==> flash.eraseErrors == old(flash.eraseErrors) + FLASH_CYCLE_REPEAT_COUNT
      ensures err <==> flash.stuck > old(flash.stuck)
      ensures silent ==> !err
      ensures flash.cells == if err || silent then old(flash.cells) else Erased(flash.g, old(flash.cells), bank)
      ensures ErasedLast(old(flash.trail), flash.trail, old(flash.cells), flash.cells, err || silent)
    {
      hide Erased;
      silent := false;
      var count := 0;
      while count < FLASH_CYCLE_REPEAT_COUNT
        invariant Valid() && flash.cells == old(flash.cells) && flash.stuck == old(flash.stuck)
        invariant count <= FLASH_CYCLE_REPEAT_COUNT && flash.eraseErrors == old(flash.eraseErrors) + count && !silent
        invariant ErasedLast(old(flash.trail), flash.trail, old(flash.cells), flash.cells, true)
      {
        var started := flash.Start();
        if !started { return true, silent; }
        var end := flash.Erase(bank);
        if end.Good? { return false, silent; }
        if end.Endless? { return true, silent; }
        count := count + 1;
      }
      return false, true;
    }

    // ---- the commit of the byte-programmed parts --------------------------------------

    /** What the copy loop writes at word i. */
    method WordToCopy(o: nat, ghost c0: Cells, i: nat, ghost silent: bool) returns (ok: bool, data: bv16)
      requires Valid() && o <= 1 && |c0| == |flash.cells| && i < SHADOW_WORDS
      requires flash.cells == CopiedOnto(flash.g, c0, shadow[..], o, i, silent)
      modifies flash`misreads
      ensures flash.misreads == old(flash.misreads) + if ok then 0 else 1
      ensures ok ==> data == CopyWord(flash.g, c0, shadow[..], o, i)
    {
      hide Opened, CopiedOnto;
      OntoOldBank(flash.g, c0, shadow[..], o, i, silent, i);
      ok := true;
      if shadow[i].modified {
        data := shadow[i].value;
      } else {
        ok, data := flash.ReadWord(i + flash.g.Base(o));
        if !ok { return; }
      }
      if i == SIG_WORD {
        data := Opened(data);
      }
    }

    /** The copy loop; `c0` is the flash before the erase. */
    method CopyWords(o: nat, ghost c0: Cells, ghost silent: bool) returns (err: bool)
      requires Valid() && o <= 1 && |c0| == |flash.cells|
      requires flash.cells == CopiedOnto(flash.g, c0, shadow[..], o, 0, silent)
      modifies flash`cells, flash`trail, flash`misreads, flash`stuck, flash`programErrors
      ensures Valid() && |flash.cells| == |c0| && flash.misreads >= old(flash.misreads)
      ensures flash.stuck >= old(flash.stuck) && flash.programErrors >= old(flash.programErrors)
      ensures err ==> Excused(flash.misreads - old(flash.misreads), flash.stuck - old(flash.stuck),
                          flash.programErrors - old(flash.programErrors))
      ensures !silent ==> old(flash.trail) <= flash.trail
      ensures !silent ==> TrailSafe(old(flash.trail), flash.trail, flash.g, c0, shadow[..], o, flash.tears)
      ensures !silent ==> CrashPoint(flash.g, c0, shadow[..], o, flash.cells, flash.tears)
      ensures !err ==> flash.cells == CopiedOnto(flash.g, c0, shadow[..], o, SHADOW_WORDS, silent)
    {
      hide Landed, SigOpen, Opened, Masked, ByteMask, HalfOf, WordLanded, CrashPoint, Copying, TrailSafe, TrailWord,
        Copied, CopiedOnto, CopyWord;
      ghost var g, sh, tears := flash.g, shadow[..], flash.tears;
      ghost var nb := g.Base(1 - o);
      if !silent {
        OntoErased(g, c0, sh, o, 0);
        CopiedIsCopying(g, c0, sh, o, 0);
        CopyingIsCrashPoint(g, c0, sh, o, flash.cells, tears);
        TrailNothing(flash.trail, g, c0, sh, o, tears);
      }
      var i := 0;
      while i < SHADOW_WORDS
        invariant i <= SHADOW_WORDS && Valid() && |flash.cells| == |c0|
        invariant flash.misreads >= old(flash.misreads)
        invariant flash.stuck >= old(flash.stuck) && flash.programErrors >= old(flash.programErrors)
        invariant flash.cells == CopiedOnto(g, c0, sh, o, i, silent) && (!silent ==> old(flash.trail) <= flash.trail)
        invariant !silent ==> TrailSafe(old(flash.trail), flash.trail, g, c0, sh, o, tears)
        invariant !silent ==> CrashPoint(g, c0, sh, o, flash.cells, tears)
      {
        CopyOneOnto(g, c0, sh, o, i, silent);
        if !silent {
          OntoErased(g, c0, sh, o, i);
          CopiedIsCopying(g, c0, sh, o, i);
        }
        var ok, data := WordToCopy(o, c0, i, silent);
        if !ok { return true; }
        if i == SIG_WORD {
          CopyWordOpen(g, c0, sh, o);
          ByteMasksOpen(data);
        }
        var actOffset := 2 * (i + flash.g.Base(1 - o));
        TwoBytes(flash.cells[nb + i], data);

        ghost var b, t := flash.cells, flash.trail;
        err := RetryWriteByte(actOffset, HalfOf(data, 0));
        if !silent {
          CopyTrailWord(t, flash.trail, flash.cells, g, c0, sh, o, b, nb + i, ByteMask(HalfOf(data, 0), 0), tears);
          TrailJoin(old(flash.trail), t, flash.trail, g, c0, sh, o, tears);
        }
        if err { return; }

        ghost var b1, t1 := flash.cells, flash.trail;
        err := RetryWriteByte(actOffset + 1, HalfOf(data, 1));
        if !silent {
          CopyTrailWord(t1, flash.trail, flash.cells, g, c0, sh, o, b1, nb + i, ByteMask(HalfOf(data, 1), 1), tears);
          TrailJoin(old(flash.trail), t1, flash.trail, g, c0, sh, o, tears);
        }
        if err { return; }
        TwoLandings(b, b1, flash.cells, nb + i, ByteMask(HalfOf(data, 0), 0), ByteMask(HalfOf(data, 1), 1), tears);
        i := i + 1;
      }
      return false;
    }

    /** Sets the new signature to 10b, then clears the high byte of the old one. */
    method SwitchBanks(o: nat, ghost c0: Cells, ghost silent: bool) returns (err: bool)
      requires Valid() && o <= 1 && |c0| == |flash.cells|
      requires flash.cells == CopiedOnto(flash.g, c0, shadow[..], o, SHADOW_WORDS, silent)
      modifies flash`cells, flash`trail, flash`misreads, flash`stuck, flash`programErrors
      ensures Valid() && |flash.cells| == |c0| && flash.misreads >= old(flash.misreads)
      ensures flash.stuck >= old(flash.stuck) && flash.programErrors >= old(flash.programErrors)
      ensures err ==> Excused(flash.misreads - old(flash.misreads), flash.stuck - old(flash.stuck),
                          flash.programErrors - old(flash.programErrors))
      ensures !silent ==> old(flash.trail) <= flash.trail
      ensures !silent ==> TrailSafe(old(flash.trail), flash.trail, flash.g, c0, shadow[..], o, flash.tears)
      ensures !silent ==> CrashPoint(flash.g, c0, shadow[..], o, flash.cells, flash.tears)
      ensures !err ==> flash.cells == CommittedOnto(flash.g, c0, shadow[..], o, silent)
    {
      hide Landed, SigOpen, Closed, Retired, Masked, ByteMask, HalfOf, CrashPoint, TrailSafe, TrailWord, Copied,
        CopiedOnto, Committed, CommittedOnto, SigValid;
      ghost var g, sh, tears, t0 := flash.g, shadow[..], flash.tears, flash.trail;
      if !silent {
        OntoErased(g, c0, sh, o, SHADOW_WORDS);
        CopiedIsCopying(g, c0, sh, o, SHADOW_WORDS);
        CopyingIsCrashPoint(g, c0, sh, o, flash.cells, tears);
        TrailNothing(t0, g, c0, sh, o, tears);
      }

      var actOffset := flash.g.Base(1 - o) + SIG_WORD;
      var ok, data := flash.ReadWord(actOffset);
      if !ok { return true; }
      SealByteMask(data);
      err := RetryWriteByte(actOffset * 2 + 1, HalfOf(Closed(data), 1));
      if !silent {
        SealTrail(t0, flash.trail, flash.cells, g, c0, sh, o, ByteMask(HalfOf(Closed(data), 1), 1), tears);
      }
      if err { return; }
      assert flash.cells == SealedOnto(g, c0, sh, o, silent);
      SealedWordsOnto(g, c0, sh, o, silent);

      ghost var t1 := flash.trail;
      actOffset := (flash.g.Base(o) + SIG_WORD) * 2 + 1;
      RetireByteMask(flash.cells[flash.g.Base(o) + SIG_WORD]);
      err := RetryWriteByte(actOffset, 0);
      if !silent {
        RetireTrail(t1, flash.trail, flash.cells, g, c0, sh, o, tears);
        TrailJoin(t0, t1, flash.trail, g, c0, sh, o, tears);
      }
    }

    method ClearShadow()
      requires Valid()
      modifies shadow
      ensures shadow[..] == seq(SHADOW_WORDS, _ => CLEAR)
    {
      for i := 0 to SHADOW_WORDS
        invariant forall j :: 0 <= j < i ==> shadow[j] == CLEAR
      {
        shadow[i] := CLEAR;
      }
    }

    /** The commit. `o` is the bank it took for the old one, `sh` the shadow RAM it wrote
        from, `erased` whether it got as far as erasing the other bank, `sure` whether the reads
        that looked for the signature were all good, and `silent` whether the erase was reported
        good and did nothing. */
    method Commit()
      returns (err: bool, ghost o: nat, ghost sh: seq<ShadowEntry>,
               ghost erased: bool, ghost sure: bool, ghost silent: bool)
      requires Valid()
      modifies flash, shadow
      ensures Valid() && flash.misreads >= old(flash.misreads) && flash.stuck >= old(flash.stuck)
      ensures flash.programErrors >= old(flash.programErrors)
      ensures old(flash.eraseErrors) <= flash.eraseErrors <= old(flash.eraseErrors) + FLASH_CYCLE_REPEAT_COUNT
      ensures silent <==> flash.eraseErrors == old(flash.eraseErrors) + FLASH_CYCLE_REPEAT_COUNT
      ensures err ==> Excused(flash.misreads - old(flash.misreads), flash.stuck - old(flash.stuck),
                          flash.programErrors - old(flash.programErrors))
      ensures o <= 1 && ValidState(flash.g, old(flash.cells), sh)
      ensures !silent ==> CommitResult(flash.g, old(flash.cells), old(shadow[..]), old(flash.trail),
                                       flash.cells, shadow[..], flash.trail, flash.tears, err, o, sh, erased)
      ensures |flash.cells| == old(|flash.cells|)
      ensures !err ==>
        && flash.cells == CommittedOnto(flash.g, old(flash.cells), sh, o, silent)
        && shadow[..] == seq(SHADOW_WORDS, _ => CLEAR)
      ensures o == 0 || o == ActiveBank(flash.g, old(flash.cells))
      ensures sure ==> o == ActiveBank(flash.g, old(flash.cells))
      ensures flash.misreads == old(flash.misreads) ==>
        sure && sh == Stored(old(shadow[..]), CHECKSUM_WORD, [Checksum(old(Contents()))])
    {
      hide CrashPoint, TrailSafe, Committed, CommittedOnto, Copied, CopiedOnto, SigValid, Checksum, Stored,
        ActiveBank, NoBankValid, View, Erased, Copying;
      ghost var g, c0, tears, t0 := flash.g, flash.cells, flash.tears, flash.trail;
      o, sh, erased, sure, silent := ActiveBank(g, c0), shadow[..], false, true, false;
      ActiveBankIsBank(g, c0);
      Untouched(g, c0, sh, o, tears);
      TrailNothing(t0, g, c0, sh, o, tears);
      err := UpdateChecksum();
      if err { return; }
      sh := shadow[..];
      ghost var before := flash.misreads;
      var detectErr, bank := DetectBank();
      sure := flash.misreads == before;
      o := bank;
      Detected(g, c0, detectErr, sure, o);
      Untouched(g, c0, sh, o, tears);
      TrailNothing(t0, g, c0, sh, o, tears);
      err, silent := EraseBank(1 - bank);
      NothingOnto(g, c0, sh, o);
      if !silent {
        ErasedIsCopied(g, c0, sh, o);
        CopiedIsCopying(g, c0, sh, o, 0);
        TrailErase(t0, flash.trail, flash.cells, g, c0, sh, o, tears);
      }
      if err { return; }
      erased := !silent;
      ghost var t1 := flash.trail;
      err := CopyWords(bank, c0, silent);
      if !silent { TrailJoin(t0, t1, flash.trail, g, c0, sh, o, tears); }
      if err { return; }
      ghost var t2 := flash.trail;
      err := SwitchBanks(bank, c0, silent);
      if !silent { TrailJoin(t0, t2, flash.trail, g, c0, sh, o, tears); }
      SealedWordsOnto(g, c0, sh, o, silent);
      if err { return; }
      ClearShadow();
    }

    // ---- the commit of the dword-programmed parts (SPT and later) ---------------------

    method DetectBankSpt() returns (err: bool, bank: nat)
      requires Valid()
      modifies flash`misreads
      ensures old(flash.misreads) <= flash.misreads <= old(flash.misreads) + 1
      ensures bank == if err then 0 else ActiveBank(flash.g, flash.cells)
      ensures err <==> flash.misreads > old(flash.misreads) || NoBankValid(flash.g, flash.cells)
    {
      hide SigValid, SigByteOf, Dword;
      var actOffset := SIG_WORD;
      bank := 0;
      var ok, nvmDword := flash.ReadDword(actOffset);
      if !ok { return true, 0; }
      SigDword(flash.cells[actOffset], flash.cells[actOffset + 1]);
      if SigByteOf(nvmDword) & 0xC0 == 0x80 { return false, 0; }
      actOffset := actOffset + flash.g.bankWords;
      ok, nvmDword := flash.ReadDword(actOffset);
      if !ok { return true, 0; }
      SigDword(flash.cells[actOffset], flash.cells[actOffset + 1]);
      if SigByteOf(nvmDword) & 0xC0 == 0x80 { return false, 1; }
      return true, 0;
    }

    /** What the copy loop writes at words i and i+1. */
    method DwordToCopy(o: nat, ghost c0: Cells, i: nat, ghost silent: bool) returns (ok: bool, dword: bv32)
      requires Valid() && o <= 1 && |c0| == |flash.cells| && i % 2 == 0 && i < SHADOW_WORDS
      requires flash.cells == CopiedOnto(flash.g, c0, shadow[..], o, i, silent)
      modifies flash`misreads
      ensures flash.misreads == old(flash.misreads) + if ok then 0 else 1
      ensures ok ==> Low(dword) == CopyWord(flash.g, c0, shadow[..], o, i)
      ensures ok ==> High(dword) == CopyWord(flash.g, c0, shadow[..], o, i + 1)
    {
      hide Opened, CopiedOnto, Low, High, Dword, WithLow, WithHigh;
      OntoOldBank(flash.g, c0, shadow[..], o, i, silent, i);
      OntoOldBank(flash.g, c0, shadow[..], o, i, silent, i + 1);
      ok, dword := flash.ReadDword(i + flash.g.Base(o));
      if ok { DwordHalves(flash.cells[i + flash.g.Base(o)], flash.cells[i + flash.g.Base(o) + 1]); }
      if shadow[i].modified {
        WithHalves(dword, shadow[i].value);
        dword := WithLow(dword, shadow[i].value);
      }
      if shadow[i + 1].modified {
        WithHalves(dword, shadow[i + 1].value);
        dword := WithHigh(dword, shadow[i + 1].value);
      }
      if !ok { return; }
      if i == SIG_WORD - 1 {
        OpenHigh(dword);
        dword := dword | (0xC000 << 16);
      }
    }

    method CopyDwords(o: nat, ghost c0: Cells, ghost silent: bool) returns (err: bool)
      requires Valid() && o <= 1 && |c0| == |flash.cells|
      requires flash.cells == CopiedOnto(flash.g, c0, shadow[..], o, 0, silent)
      modifies flash`cells, flash`trail, flash`misreads, flash`stuck, flash`programErrors
      ensures Valid() && |flash.cells| == |c0| && flash.misreads >= old(flash.misreads)
      ensures flash.stuck >= old(flash.stuck) && flash.programErrors >= old(flash.programErrors)
      ensures err ==> Excused(flash.misreads - old(flash.misreads), flash.stuck - old(flash.stuck),
                          flash.programErrors - old(flash.programErrors))
      ensures !silent ==> old(flash.trail) <= flash.trail
      ensures !silent ==> TrailSafe(old(flash.trail), flash.trail, flash.g, c0, shadow[..], o, flash.tears)
      ensures !silent ==> CrashPoint(flash.g, c0, shadow[..], o, flash.cells, flash.tears)
      ensures !err ==> flash.cells == CopiedOnto(flash.g, c0, shadow[..], o, SHADOW_WORDS, silent)
    {
      hide Landed, SigOpen, Opened, Masked, CrashPoint, Copying, TrailSafe, TrailDword, Copied, CopiedOnto, CopyWord,
        Low, High;
      ghost var g, sh, tears := flash.g, shadow[..], flash.tears;
      ghost var nb := g.Base(1 - o);
      if !silent {
        OntoErased(g, c0, sh, o, 0);
        CopiedIsCopying(g, c0, sh, o, 0);
        CopyingIsCrashPoint(g, c0, sh, o, flash.cells, tears);
        TrailNothing(flash.trail, g, c0, sh, o, tears);
      }
      var i := 0;
      while i < SHADOW_WORDS
        invariant i <= SHADOW_WORDS && i % 2 == 0 && Valid() && |flash.cells| == |c0|
        invariant flash.misreads >= old(flash.misreads)
        invariant flash.stuck >= old(flash.stuck) && flash.programErrors >= old(flash.programErrors)
        invariant flash.cells == CopiedOnto(g, c0, sh, o, i, silent) && (!silent ==> old(flash.trail) <= flash.trail)
        invariant !silent ==> TrailSafe(old(flash.trail), flash.trail, g, c0, sh, o, tears)
        invariant !silent ==> CrashPoint(g, c0, sh, o, flash.cells, tears)
      {
        CopyOneOnto(g, c0, sh, o, i, silent);
        CopyOneOnto(g, c0, sh, o, i + 1, silent);
        if !silent {
          OntoErased(g, c0, sh, o, i);
          CopiedIsCopying(g, c0, sh, o, i);
        }
        var ok, dword := DwordToCopy(o, c0, i, silent);
        if !ok { return true; }
        if i == SIG_WORD - 1 { CopyWordOpen(g, c0, sh, o); }

        ghost var b, t := flash.cells, flash.trail;
        err := RetryWriteDword(i + flash.g.Base(1 - o), dword);
        if !silent {
          CopyTrailDword(t, flash.trail, flash.cells, g, c0, sh, o, b, nb + i, Low(dword), High(dword), tears);
          TrailJoin(old(flash.trail), t, flash.trail, g, c0, sh, o, tears);
        }
        if err { return; }
        i := i + 2;
      }
      return false;
    }

    method SwitchBanksSpt(o: nat, ghost c0: Cells, ghost silent: bool) returns (err: bool)
      requires Valid() && o <= 1 && |c0| == |flash.cells|
      requires flash.cells == CopiedOnto(flash.g, c0, shadow[..], o, SHADOW_WORDS, silent)
      modifies flash`cells, flash`trail, flash`misreads, flash`stuck, flash`programErrors
      ensures Valid() && |flash.cells| == |c0| && flash.misreads >= old(flash.misreads)
      ensures flash.stuck >= old(flash.stuck) && flash.programErrors >= old(flash.programErrors)
      ensures err ==> Excused(flash.misreads - old(flash.misreads), flash.stuck - old(flash.stuck),
                          flash.programErrors - old(flash.programErrors))
      ensures !silent ==> old(flash.trail) <= flash.trail
      ensures !silent ==> TrailSafe(old(flash.trail), flash.trail, flash.g, c0, shadow[..], o, flash.tears)
      ensures !silent ==> CrashPoint(flash.g, c0, shadow[..], o, flash.cells, flash.tears)
      ensures !err ==> flash.cells == CommittedOnto(flash.g, c0, shadow[..], o, silent)
    {
      hide Landed, SigOpen, Closed, Retired, Masked, CrashPoint, TrailSafe, Copied, CopiedOnto, Committed,
        CommittedOnto, SigValid, Low, High, Dword;
      ghost var g, sh, tears, t0 := flash.g, shadow[..], flash.tears, flash.trail;
      if !silent {
        OntoErased(g, c0, sh, o, SHADOW_WORDS);
        CopiedIsCopying(g, c0, sh, o, SHADOW_WORDS);
        CopyingIsCrashPoint(g, c0, sh, o, flash.cells, tears);
        TrailNothing(t0, g, c0, sh, o, tears);
      }

      var actOffset := flash.g.Base(1 - o) + SIG_WORD - 1;
      var ok, dword := flash.ReadDword(actOffset);
      if !ok { return true; }
      ghost var b := flash.cells;
      DwordHalves(b[actOffset], b[actOffset + 1]);
      CloseHigh(dword);
      MaskClosed(b[actOffset + 1]);
      dword := dword & 0xBFFFFFFF;
      err := RetryWriteDword(actOffset, dword);
      OnlyHigh(t0, flash.trail, flash.cells, b, actOffset, Closed(b[actOffset + 1]), tears);
      if !silent {
        SealTrail(t0, flash.trail, flash.cells, g, c0, sh, o, Closed(b[actOffset + 1]), tears);
      }
      if err { return; }
      assert flash.cells == SealedOnto(g, c0, sh, o, silent);
      SealedWordsOnto(g, c0, sh, o, silent);

      ghost var t1, b1 := flash.trail, flash.cells;
      actOffset := flash.g.Base(o) + SIG_WORD - 1;
      ok, dword := flash.ReadDword(actOffset);
      if !ok { return true; }
      DwordHalves(b1[actOffset], b1[actOffset + 1]);
      RetireHigh(dword);
      MaskRetired(b1[actOffset + 1]);
      dword := dword & 0x00FFFFFF;
      err := RetryWriteDword(actOffset, dword);
      OnlyHigh(t1, flash.trail, flash.cells, b1, actOffset, Retired(b1[actOffset + 1]), tears);
      RetireMasks(t1, flash.trail, flash.cells, b1, actOffset + 1, tears);
      if !silent {
        RetireTrail(t1, flash.trail, flash.cells, g, c0, sh, o, tears);
        TrailJoin(t0, t1, flash.trail, g, c0, sh, o, tears);
      }
    }

    method CommitSpt()
      returns (err: bool, ghost o: nat, ghost sh: seq<ShadowEntry>,
               ghost erased: bool, ghost sure: bool, ghost silent: bool)
      requires Valid()
      modifies flash, shadow
      ensures Valid() && flash.misreads >= old(flash.misreads) && flash.stuck >= old(flash.stuck)
      ensures flash.programErrors >= old(flash.programErrors)
      ensures old(flash.eraseErrors) <= flash.eraseErrors <= old(flash.eraseErrors) + FLASH_CYCLE_REPEAT_COUNT
      ensures silent <==> flash.eraseErrors == old(flash.eraseErrors) + FLASH_CYCLE_REPEAT_COUNT
      ensures err ==> Excused(flash.misreads - old(flash.misreads), flash.stuck - old(flash.stuck),
                          flash.programErrors - old(flash.programErrors))
      ensures o <= 1 && ValidState(flash.g, old(flash.cells), sh)
      ensures !silent ==> CommitResult(flash.g, old(flash.cells), old(shadow[..]), old(flash.trail),
                                       flash.cells, shadow[..], flash.trail, flash.tears, err, o, sh, erased)
      ensures |flash.cells| == old(|flash.cells|)
      ensures !err ==>
        && flash.cells == CommittedOnto(flash.g, old(flash.cells), sh, o, silent)
        && shadow[..] == seq(SHADOW_WORDS, _ => CLEAR)
      ensures o == 0 || o == ActiveBank(flash.g, old(flash.cells))
      ensures sure ==> o == ActiveBank(flash.g, old(flash.cells))
      ensures flash.misreads == old(flash.misreads) ==>
        sure && sh == Stored(old(shadow[..]), CHECKSUM_WORD, [Checksum(old(Contents()))])
    {
      hide CrashPoint, TrailSafe, Committed, CommittedOnto, Copied, CopiedOnto, SigValid, Checksum, Stored,
        ActiveBank, NoBankValid, View, Erased, Copying;
      ghost var g, c0, tears, t0 := flash.g, flash.cells, flash.tears, flash.trail;
      o, sh, erased, sure, silent := ActiveBank(g, c0), shadow[..], false, true, false;
      ActiveBankIsBank(g, c0);
      Untouched(g, c0, sh, o, tears);
      TrailNothing(t0, g, c0, sh, o, tears);
      err := UpdateChecksum();
      if err { return; }
      sh := shadow[..];
      ghost var before := flash.misreads;
      var detectErr, bank := DetectBankSpt();
      sure := flash.misreads == before;
      o := bank;
      Detected(g, c0, detectErr, sure, o);
      Untouched(g, c0, sh, o, tears);
      TrailNothing(t0, g, c0, sh, o, tears);
      err, silent := EraseBank(1 - bank);
      NothingOnto(g, c0, sh, o);
      if !silent {
        ErasedIsCopied(g, c0, sh, o);
        CopiedIsCopying(g, c0, sh, o, 0);
        TrailErase(t0, flash.trail, flash.cells, g, c0, sh, o, tears);
      }
      if err { return; }
      erased := !silent;
      ghost var t1 := flash.trail;
      err := CopyDwords(bank, c0, silent);
      if !silent { TrailJoin(t0, t1, flash.trail, g, c0, sh, o, tears); }
      if err { return; }
      ghost var t2 := flash.trail;
      err := SwitchBanksSpt(bank, c0, silent);
      if !silent { TrailJoin(t0, t2, flash.trail, g, c0, sh, o, tears); }
      SealedWordsOnto(g, c0, sh, o, silent);
      if err { return; }
      ClearShadow();
    }
  }
}
