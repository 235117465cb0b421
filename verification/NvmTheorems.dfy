/** What the commits guarantee: atomicity under power loss, a faithful overlay over any
    run of writes and commits, and a valid checksum. */
module NvmTheorems {
  import opened FlashSpec
  import opened FlashBits
  import opened FlashPoints
  import opened FlashHardware
  import opened Ich8Nvm
  import opened WordSums

  // ---- power loss -------------------------------------------------------------------

  /** The next start of the driver finds the whole old image or the whole new one. */
  ghost predicate OldOrNew(g: Geometry, c0: Cells, sh: seq<ShadowEntry>, c: Cells)
    requires ValidState(g, c0, sh) && |c| == |c0|
  {
    || ActiveImage(g, c) == ActiveImage(g, c0)
    || ActiveImage(g, c) == NewImage(g, c0, ActiveBank(g, c0), sh)
  }

  lemma NewImageSealed(g: Geometry, c0: Cells, sh: seq<ShadowEntry>, o: nat)
    requires ValidState(g, c0, sh)
    ensures SigValid(NewImage(g, c0, o, sh)[SIG_WORD])
  {
    hide SigValid, Opened, Closed;
    OpenedIsOpen(Overlay(Image(g, c0, o), sh)[SIG_WORD]);
  }

  lemma SameImage(g: Geometry, c: Cells, c': Cells, bank: nat)
    requires g.Valid() && |c| == |c'| == 2 * g.bankWords && bank <= 1 && SameBank(g, c, c', bank, -1)
    ensures Image(g, c', bank) == Image(g, c, bank) && c'[g.Base(bank) + SIG_WORD] == c[g.Base(bank) + SIG_WORD]
  {
    forall w | 0 <= w < SHADOW_WORDS ensures Image(g, c', bank)[w] == Image(g, c, bank)[w] {
      assert c'[g.Base(bank) + w] == c[g.Base(bank) + w];
    }
  }

  lemma CopyingKeepsImage(g: Geometry, c0: Cells, o: nat, c: Cells)
    requires g.Valid() && |c| == |c0| == 2 * g.bankWords && o == ActiveBank(g, c0) && Copying(g, c0, o, c)
    ensures ActiveBank(g, c) == o && ActiveImage(g, c) == ActiveImage(g, c0)
  {
    hide SigValid, SigOpen;
    SameImage(g, c0, c, o);
    OpenIsNotValid(c[g.Base(1 - o) + SIG_WORD]);
  }

  /** A retired signature is invalid, and with whole cycles there is nothing in between. */
  lemma RetiredSignature(o: bv16, n: bv16)
    requires Landed(o, 0x00FF, n, false)
    ensures n == o || !SigValid(n)
  {
  }

  lemma RetiringActive(g: Geometry, c0: Cells, sh: seq<ShadowEntry>, o: nat, c: Cells, tears: bool)
    requires ValidState(g, c0, sh) && |c| == |c0| && o == ActiveBank(g, c0) && Retiring(g, c0, sh, o, c, tears)
    ensures ActiveBank(g, c) == 1 - o ==> ActiveImage(g, c) == NewImage(g, c0, o, sh)
    ensures ActiveBank(g, c) != 1 - o ==> o == 0 && SigValid(c[SIG_WORD])
  {
    hide SigValid, Landed;
    NewImageSealed(g, c0, sh, o);
    assert c[g.Base(1 - o) + SIG_WORD] == Image(g, c, 1 - o)[SIG_WORD];
  }

  /** With cycles that land whole, every crash point shows the old image or the new one. */
  lemma CrashAtomic(g: Geometry, c0: Cells, sh: seq<ShadowEntry>, c: Cells)
    requires ValidState(g, c0, sh) && CrashPoint(g, c0, sh, ActiveBank(g, c0), c, false)
    ensures OldOrNew(g, c0, sh, c)
  {
    hide SigValid, Landed;
    var o := ActiveBank(g, c0);
    if c == c0 {
    } else if Copying(g, c0, o, c) {
      CopyingKeepsImage(g, c0, o, c);
    } else {
      RetiringActive(g, c0, sh, o, c, false);
      if ActiveBank(g, c) != 1 - o {
        RetiredSignature(c0[SIG_WORD], c[SIG_WORD]);
        assert SameBank(g, c0, c, o, -1);
        SameImage(g, c0, c, o);
      }
    }
  }

  /** A commit that took the wrong bank for the old one has destroyed the active image as
      soon as its erase is done. */
  lemma WrongBankLosesImage(g: Geometry, c0: Cells, sh: seq<ShadowEntry>)
    requires ValidState(g, c0, sh) && ActiveBank(g, c0) == 1
    ensures !OldOrNew(g, c0, sh, Erased(g, c0, 1))
  {
    hide SigValid, SigOpen;
    var c := Erased(g, c0, 1);
    ErasedIsOpen();
    OpenIsNotValid(0xFFFF);
    assert ActiveBank(g, c) == 0 && !SigValid(ActiveImage(g, c)[SIG_WORD]);
    NewImageSealed(g, c0, sh, 1);
    assert SigValid(ActiveImage(g, c0)[SIG_WORD]);
  }

  /** Exactly when a commit is crash-atomic. Bank detection takes bank 0 for the old bank
      when its flash read fails, so `o` may be 0 although bank 1 is the active one. */
  lemma CrashAtomicIff(g: Geometry, c0: Cells, sh: seq<ShadowEntry>, o: nat)
    requires ValidState(g, c0, sh) && o <= 1 && (o == 0 || o == ActiveBank(g, c0))
    ensures (forall c :: CrashPoint(g, c0, sh, o, c, false) ==> OldOrNew(g, c0, sh, c)) <==> o == ActiveBank(g, c0)
  {
    hide Copying, Retiring, OldOrNew, SigValid;
    if o == ActiveBank(g, c0) {
      forall c | CrashPoint(g, c0, sh, o, c, false) ensures OldOrNew(g, c0, sh, c) {
        CrashAtomic(g, c0, sh, c);
      }
    } else {
      ErasedIsCopied(g, c0, sh, 0);
      CopiedIsCopying(g, c0, sh, 0, 0);
      CopyingIsCrashPoint(g, c0, sh, 0, Erased(g, c0, 1), false);
      WrongBankLosesImage(g, c0, sh);
    }
  }

  /** The same about the recorded trail of a commit: losing power after any cycle shows the
      old or the new image exactly when the right bank was erased, or none. */
  lemma PowerLossAnywhere(
    g: Geometry, c0: Cells, sh0: seq<ShadowEntry>, t0: seq<Cells>,
    c: Cells, sh1: seq<ShadowEntry>, t: seq<Cells>, err: bool, o: nat, sh: seq<ShadowEntry>, erased: bool)
    requires ValidState(g, c0, sh0) && |sh| == SHADOW_WORDS && o <= 1 && (o == 0 || o == ActiveBank(g, c0))
    requires CommitResult(g, c0, sh0, t0, c, sh1, t, false, err, o, sh, erased)
    ensures forall i :: |t0| <= i < |t| ==> |t[i]| == |c0|
    ensures (forall i :: |t0| <= i < |t| ==> OldOrNew(g, c0, sh, t[i])) <==> o == ActiveBank(g, c0) || !erased
  {
    hide Copying, Retiring, OldOrNew, SigValid, Committed, Stored;
    if !erased {
      forall i | |t0| <= i < |t| ensures OldOrNew(g, c0, sh, t[i]) {
        OldIsOld(g, c0, sh);
      }
    } else if o == ActiveBank(g, c0) {
      forall i | |t0| <= i < |t| ensures OldOrNew(g, c0, sh, t[i]) {
        CrashAtomic(g, c0, sh, t[i]);
      }
    } else {
      WrongBankLosesImage(g, c0, sh);
      var i :| 0 <= i < |t[|t0|..]| && t[|t0|..][i] == Erased(g, c0, 1);
      assert t[|t0| + i] == Erased(g, c0, 1);
    }
  }

  lemma OldIsOld(g: Geometry, c0: Cells, sh: seq<ShadowEntry>)
    requires ValidState(g, c0, sh)
    ensures OldOrNew(g, c0, sh, c0)
  {
  }

  // ---- power loss when failed cycles may land partially -------------------------------

  /** Clearing part of the high byte cannot leave another valid signature: bit 15 is clear,
      or it is the only bit to clear. */
  predicate CleanSignature(w: bv16) { w & 0x8000 == 0 || w & 0xFF00 == 0x8000 }

  lemma CleanStays(w: bv16, n: bv16)
    requires CleanSignature(w) && Landed(w, 0x00FF, n, true) && SigValid(n)
    ensures n == w
  {
  }

  /** What is left of an unclean signature word when only bit 15 of the high byte survives. */
  function Torn(w: bv16): bv16 { w & 0x80FF }

  lemma TornIsValid(w: bv16)
    requires w & 0x8000 != 0
    ensures Landed(w, 0x00FF, Torn(w), true) && SigValid(Torn(w))
    ensures !CleanSignature(w) ==> Torn(w) != w
  {
  }

  /** If a failed cycle may clear only some of its bits, the one exposed moment is the
      retirement of bank 0: its signature word is damaged and still reads as valid. */
  lemma TornCrash(g: Geometry, c0: Cells, sh: seq<ShadowEntry>, c: Cells)
    requires ValidState(g, c0, sh) && CrashPoint(g, c0, sh, ActiveBank(g, c0), c, true)
    ensures OldOrNew(g, c0, sh, c) || (ActiveBank(g, c0) == 0 && !CleanSignature(c0[SIG_WORD]))
  {
    hide SigValid, Landed, CleanSignature;
    var o := ActiveBank(g, c0);
    if c == c0 {
    } else if Copying(g, c0, o, c) {
      CopyingKeepsImage(g, c0, o, c);
    } else {
      RetiringActive(g, c0, sh, o, c, true);
      if ActiveBank(g, c) != 1 - o && CleanSignature(c0[SIG_WORD]) {
        CleanStays(c0[SIG_WORD], c[SIG_WORD]);
        assert SameBank(g, c0, c, o, -1);
        SameImage(g, c0, c, o);
      }
    }
  }

  /** The flash cut off while the signature of bank 0 is being retired. */
  lemma TornPoint(g: Geometry, c0: Cells, sh: seq<ShadowEntry>) returns (c: Cells)
    requires ValidState(g, c0, sh) && c0[SIG_WORD] & 0x8000 != 0
    ensures |c| == |c0| && CrashPoint(g, c0, sh, 0, c, true) && ActiveBank(g, c) == 0
    ensures Image(g, c, 0) == Image(g, c0, 0)[SIG_WORD := Torn(c0[SIG_WORD])]
  {
    hide SigValid, Landed, Copied, Torn;
    TornIsValid(c0[SIG_WORD]);
    SealedOldBank(g, c0, sh, 0);
    c := SealedCells(g, c0, sh, 0)[SIG_WORD := Torn(c0[SIG_WORD])];
    RetirePoint(g, c0, sh, 0, c, true);
  }

  /** With a word other than the signature to change, such a signature shows an image that is
      neither the old nor the new one. */
  lemma TornExposed(g: Geometry, c0: Cells, sh: seq<ShadowEntry>, w: nat) returns (c: Cells)
    requires ValidState(g, c0, sh) && ActiveBank(g, c0) == 0 && !CleanSignature(c0[SIG_WORD])
    requires w < SHADOW_WORDS && w != SIG_WORD && NewImage(g, c0, 0, sh)[w] != c0[w]
    ensures |c| == |c0| && CrashPoint(g, c0, sh, 0, c, true) && !OldOrNew(g, c0, sh, c)
  {
    hide SigValid, Landed, NewImage, ActiveBank, CrashPoint, Torn;
    TornIsValid(c0[SIG_WORD]);
    c := TornPoint(g, c0, sh);
    assert Image(g, c, 0)[SIG_WORD] != Image(g, c0, 0)[SIG_WORD] && Image(g, c, 0)[w] == c0[w];
  }

  /** Exactly when every commit is crash-atomic on a part whose failed cycles may land
      partially, whatever the shadow RAM holds. */
  lemma TornAtomicIff(g: Geometry, c0: Cells, o: nat)
    requires g.Valid() && |c0| == 2 * g.bankWords && o <= 1 && (o == 0 || o == ActiveBank(g, c0))
    ensures (forall sh: seq<ShadowEntry>, c :: |sh| == SHADOW_WORDS && CrashPoint(g, c0, sh, o, c, true) ==>
               |c| == |c0| && OldOrNew(g, c0, sh, c))
       <==> o == ActiveBank(g, c0) && (o == 1 || CleanSignature(c0[SIG_WORD]))
  {
    hide OldOrNew, SigValid, CrashPoint, CleanSignature;
    if o != ActiveBank(g, c0) {
      var sh := seq(SHADOW_WORDS, _ => CLEAR);
      ErasedIsCopied(g, c0, sh, 0);
      CopiedIsCopying(g, c0, sh, 0, 0);
      CopyingIsCrashPoint(g, c0, sh, 0, Erased(g, c0, 1), true);
      WrongBankLosesImage(g, c0, sh);
    } else if o == 1 || CleanSignature(c0[SIG_WORD]) {
      forall sh: seq<ShadowEntry>, c | |sh| == SHADOW_WORDS && CrashPoint(g, c0, sh, o, c, true)
        ensures |c| == |c0| && OldOrNew(g, c0, sh, c)
      {
        CrashLength(g, c0, sh, o, c, true);
        TornCrash(g, c0, sh, c);
      }
    } else {
      var sh := seq(SHADOW_WORDS, _ => CLEAR)[0 := ShadowEntry(!c0[0], true)];
      var c := TornExposed(g, c0, sh, 0);
    }
  }

  /** For instance, clearing only bit 8 of a signature word 81xxh. */
  lemma TornRetirement(g: Geometry, c0: Cells, sh: seq<ShadowEntry>)
    requires ValidState(g, c0, sh) && c0[SIG_WORD] == 0x8142
    requires !sh[SIG_WORD].modified
    ensures exists c :: |c| == |c0| && CrashPoint(g, c0, sh, 0, c, true) && !OldOrNew(g, c0, sh, c)
  {
    hide SigValid, Landed, Closed, Opened, Copied, Torn;
    TornBit();
    var c := TornPoint(g, c0, sh);
    assert ActiveImage(g, c)[SIG_WORD] == 0x8042;
    assert ActiveImage(g, c0)[SIG_WORD] == 0x8142;
    assert NewImage(g, c0, 0, sh)[SIG_WORD] == Closed(Opened(0x8142));
  }

  lemma TornBit()
    ensures Torn(0x8142) == 0x8042 && SigValid(0x8042) && SigValid(0x8142)
    ensures Closed(Opened(0x8142)) == 0x8142
  {
  }

  // ---- the overlay over a commit ------------------------------------------------------

  /** The bits below the signature. */
  function Rest(w: bv16): bv16 { w & 0x3FFF }

  lemma RestOfSeal(v: bv16)
    ensures Rest(Closed(Opened(v))) == Rest(v)
  {
  }

  /** Same contents, except the checksum word and the signature bits. */
  ghost predicate Agree(v: seq<bv16>, v': seq<bv16>)
    requires |v| == |v'| == SHADOW_WORDS
  {
    && Rest(v'[SIG_WORD]) == Rest(v[SIG_WORD])
    && forall w :: 0 <= w < SHADOW_WORDS && w != SIG_WORD && w != CHECKSUM_WORD ==> v'[w] == v[w]
  }

  lemma NewImageAgrees(g: Geometry, c0: Cells, sh: seq<ShadowEntry>, o: nat)
    requires ValidState(g, c0, sh)
    ensures Agree(FromBank(g, c0, sh, o), NewImage(g, c0, o, sh))
  {
    hide Rest, Closed, Opened, SigValid;
    RestOfSeal(FromBank(g, c0, sh, o)[SIG_WORD]);
  }

  /** A partial landing on the signature of the old bank does no harm to what is read: the old
      bank is bank 1, the shadow RAM covers the word, or there is nothing below the signature
      bits to lose. */
  predicate Shielded(c0: Cells, sh: seq<ShadowEntry>, o: nat)
    requires |c0| > SIG_WORD && |sh| > SIG_WORD
  {
    o == 1 || sh[SIG_WORD].modified || c0[SIG_WORD] & 0x8000 == 0 || c0[SIG_WORD] & 0x3F00 == 0
  }

  lemma LandedRest(w: bv16, n: bv16, tears: bool)
    requires Landed(w, 0x00FF, n, tears) && SigValid(n)
    ensures w & 0x8000 != 0
    ensures !tears || w & 0x3F00 == 0 ==> Rest(n) == Rest(w)
  {
  }

  lemma TornRest(w: bv16)
    requires w & 0x3F00 != 0
    ensures Rest(Torn(w)) != Rest(w)
  {
  }

  /** With power lost at a crash point bank 0 is active again only by its signature. */
  lemma RetiringOther(g: Geometry, c0: Cells, sh: seq<ShadowEntry>, o: nat, c: Cells, tears: bool)
    requires ValidState(g, c0, sh) && |c| == |c0| && o <= 1 && (o == 0 || o == ActiveBank(g, c0))
    requires Retiring(g, c0, sh, o, c, tears)
    ensures ActiveBank(g, c) != 1 - o ==> o == 0 && ActiveBank(g, c) == 0 && SigValid(c[SIG_WORD])
    ensures ActiveBank(g, c) == 1 - o ==> ActiveImage(g, c) == NewImage(g, c0, o, sh)
  {
    hide SigValid, Landed, NewImage;
    NewImageSealed(g, c0, sh, o);
    assert c[g.Base(1 - o) + SIG_WORD] == Image(g, c, 1 - o)[SIG_WORD];
  }

  lemma CopyingActive(g: Geometry, c0: Cells, o: nat, c: Cells)
    requires g.Valid() && |c| == |c0| == 2 * g.bankWords && o <= 1 && (o == 0 || o == ActiveBank(g, c0))
    requires Copying(g, c0, o, c)
    ensures ActiveBank(g, c) == o && ActiveImage(g, c) == Image(g, c0, o)
  {
    hide SigValid, SigOpen;
    SameImage(g, c0, c, o);
    OpenIsNotValid(c[g.Base(1 - o) + SIG_WORD]);
  }

  /** After power loss the words read are those of the bank the commit took for the old one. */
  lemma ViewAtCrashPoint(g: Geometry, c0: Cells, sh: seq<ShadowEntry>, o: nat, c: Cells, tears: bool)
    requires ValidState(g, c0, sh) && o <= 1 && (o == 0 || o == ActiveBank(g, c0))
    requires CrashPoint(g, c0, sh, o, c, tears) && (!tears || Shielded(c0, sh, o))
    ensures |c| == |c0| && (c == c0 || Agree(FromBank(g, c0, sh, o), View(g, c, sh)))
  {
    hide Rest, SigValid, ActiveBank, Copying, NewImage;
    if c == c0 {
    } else if Copying(g, c0, o, c) {
      CopyingActive(g, c0, o, c);
      AgreeSame(View(g, c, sh));
    } else {
      RetiringOther(g, c0, sh, o, c, tears);
      if ActiveBank(g, c) == 1 - o {
        NewImageAgrees(g, c0, sh, o);
        OverlayAgain(FromBank(g, c0, sh, o), NewImage(g, c0, o, sh), View(g, c, sh), sh, Image(g, c0, o));
      } else {
        LandedRest(c0[SIG_WORD], c[SIG_WORD], tears);
        assert forall w :: 0 <= w < SHADOW_WORDS && w != SIG_WORD ==> Image(g, c, 0)[w] == Image(g, c0, 0)[w];
      }
    }
  }

  lemma OverlayAgain(v: seq<bv16>, img: seq<bv16>, u: seq<bv16>, sh: seq<ShadowEntry>, old': seq<bv16>)
    requires |img| == |sh| == |old'| == SHADOW_WORDS && v == Overlay(old', sh) && u == Overlay(img, sh)
    requires |v| == |u| && Agree(v, img)
    ensures Agree(v, u)
  {
    hide Rest;
  }

  lemma StoredChecksumAgrees(g: Geometry, c0: Cells, sh0: seq<ShadowEntry>, x: bv16)
    requires ValidState(g, c0, sh0)
    ensures Stored(sh0, CHECKSUM_WORD, [x])[SIG_WORD] == sh0[SIG_WORD]
    ensures Agree(View(g, c0, sh0), View(g, c0, Stored(sh0, CHECKSUM_WORD, [x])))
    ensures forall o :: Agree(FromBank(g, c0, sh0, o), FromBank(g, c0, Stored(sh0, CHECKSUM_WORD, [x]), o))
  {
    hide Rest, SigValid, ActiveBank;
  }

  lemma AgreeTransitive(a: seq<bv16>, b: seq<bv16>, c: seq<bv16>)
    requires |a| == |b| == |c| == SHADOW_WORDS && Agree(a, b) && Agree(b, c)
    ensures Agree(a, c)
  {
    hide Rest;
  }

  /** After a commit that ended well the new bank is active and holds the new image. */
  lemma CommittedActive(g: Geometry, c0: Cells, sh: seq<ShadowEntry>, o: nat)
    requires ValidState(g, c0, sh) && o <= 1
    ensures var c := Committed(g, c0, sh, o);
      ActiveBank(g, c) == 1 - o && ActiveImage(g, c) == NewImage(g, c0, o, sh)
  {
    hide SigValid, Closed, Opened, Retired, Copied;
    var c := Committed(g, c0, sh, o);
    SealedWords(g, c0, sh, o);
    SealedImage(g, c0, sh, o);
    NewImageSealed(g, c0, sh, o);
    assert Image(g, c, 1 - o) == Image(g, SealedCells(g, c0, sh, o), 1 - o);
    assert c[g.Base(1 - o) + SIG_WORD] == Image(g, c, 1 - o)[SIG_WORD];
    RetiredInvalid(c0[g.Base(o) + SIG_WORD]);
  }

  lemma RetiredInvalid(w: bv16)
    ensures !SigValid(Retired(w))
  {
  }

  lemma ClearView(g: Geometry, c: Cells)
    requires g.Valid() && |c| == 2 * g.bankWords
    ensures View(g, c, seq(SHADOW_WORDS, _ => CLEAR)) == ActiveImage(g, c)
  {
    hide SigValid;
  }

  /** The bank a commit took for the old one holds what is read: it is the active bank, or
      happens to hold the same words. */
  ghost predicate BankFits(g: Geometry, c0: Cells, sh0: seq<ShadowEntry>, o: nat)
    requires ValidState(g, c0, sh0)
  {
    o == ActiveBank(g, c0) || Agree(View(g, c0, sh0), FromBank(g, c0, sh0, o))
  }

  lemma FitsAgrees(g: Geometry, c0: Cells, sh0: seq<ShadowEntry>, o: nat)
    requires ValidState(g, c0, sh0) && BankFits(g, c0, sh0, o)
    ensures Agree(View(g, c0, sh0), FromBank(g, c0, sh0, o))
  {
    hide ActiveBank;
    AgreeSame(View(g, c0, sh0));
  }

  ghost predicate Safe(g: Geometry, c0: Cells, sh0: seq<ShadowEntry>, o: nat, tears: bool)
    requires ValidState(g, c0, sh0)
  {
    BankFits(g, c0, sh0, o) && (tears ==> Shielded(c0, sh0, o))
  }

  /** A commit, whether it ends well or fails at any step, keeps what is read back if the bank
      it took fits and no partial landing can show. */
  lemma CommitKeepsContents(
    g: Geometry, c0: Cells, sh0: seq<ShadowEntry>, t0: seq<Cells>,
    c: Cells, sh1: seq<ShadowEntry>, t: seq<Cells>, tears: bool, err: bool, o: nat, sh: seq<ShadowEntry>, erased: bool)
    requires ValidState(g, c0, sh0) && |sh| == SHADOW_WORDS && o <= 1 && (o == 0 || o == ActiveBank(g, c0))
    requires CommitResult(g, c0, sh0, t0, c, sh1, t, tears, err, o, sh, erased) && Safe(g, c0, sh0, o, tears)
    ensures |c| == |c0| && |sh1| == SHADOW_WORDS && Agree(View(g, c0, sh0), View(g, c, sh1))
  {
    hide Agree, SigValid, Committed, ActiveBank, CrashPoint, Stored, NewImage, BankFits, View, FromBank;
    FitsAgrees(g, c0, sh0, o);
    if sh != sh0 {
      StoredChecksumAgrees(g, c0, sh0, sh[CHECKSUM_WORD].value);
    } else {
      AgreeSame(View(g, c0, sh0));
      AgreeSame(FromBank(g, c0, sh0, o));
    }
    AgreeTransitive(View(g, c0, sh0), FromBank(g, c0, sh0, o), FromBank(g, c0, sh, o));
    if err {
      ViewAtCrashPoint(g, c0, sh, o, c, tears);
      if c != c0 { AgreeTransitive(View(g, c0, sh0), FromBank(g, c0, sh, o), View(g, c, sh)); }
    } else {
      CommittedActive(g, c0, sh, o);
      ClearView(g, c);
      NewImageAgrees(g, c0, sh, o);
      AgreeTransitive(View(g, c0, sh0), FromBank(g, c0, sh, o), View(g, c, sh1));
    }
  }

  /** Every result of a commit that took bank o keeps what is read back. */
  ghost predicate Keeps(g: Geometry, c0: Cells, sh0: seq<ShadowEntry>, o: nat, tears: bool)
    requires ValidState(g, c0, sh0) && o <= 1
  {
    forall t0, c, sh1, t, err, sh, erased ::
      |sh| == SHADOW_WORDS && CommitResult(g, c0, sh0, t0, c, sh1, t, tears, err, o, sh, erased) ==>
        |c| == |c0| && |sh1| == SHADOW_WORDS && Agree(View(g, c0, sh0), View(g, c, sh1))
  }

  /** Exactly when a commit keeps what is read back, whichever way it ends. */
  lemma CommitKeepsIff(g: Geometry, c0: Cells, sh0: seq<ShadowEntry>, o: nat, tears: bool)
    requires ValidState(g, c0, sh0) && o <= 1 && (o == 0 || o == ActiveBank(g, c0))
    ensures Keeps(g, c0, sh0, o, tears) <==> Safe(g, c0, sh0, o, tears)
  {
    hide Agree, SigValid, CommitResult, View, BankFits, Shielded, ActiveBank;
    if Safe(g, c0, sh0, o, tears) {
      forall t0, c, sh1, t, err, sh, erased
        | |sh| == SHADOW_WORDS && CommitResult(g, c0, sh0, t0, c, sh1, t, tears, err, o, sh, erased)
        ensures |c| == |c0| && |sh1| == SHADOW_WORDS && Agree(View(g, c0, sh0), View(g, c, sh1))
      {
        CommitKeepsContents(g, c0, sh0, t0, c, sh1, t, tears, err, o, sh, erased);
      }
    } else if !BankFits(g, c0, sh0, o) {
      OnlyBankZero(g, c0, sh0, o);
      WrongBankShows(g, c0, sh0, tears);
    } else {
      OnlyBankZero(g, c0, sh0, o);
      var c := TornShows(g, c0, sh0);
    }
  }

  lemma OnlyBankZero(g: Geometry, c0: Cells, sh0: seq<ShadowEntry>, o: nat)
    requires ValidState(g, c0, sh0) && o <= 1 && (o == 0 || o == ActiveBank(g, c0))
    ensures o == 0 || (BankFits(g, c0, sh0, o) && Shielded(c0, sh0, o))
  {
    hide ActiveBank, Agree, View;
  }

  /** The shadow RAM that a commit goes on with once it has stored the checksum. */
  function WithChecksum(g: Geometry, c0: Cells, sh0: seq<ShadowEntry>): (sh: seq<ShadowEntry>)
    requires ValidState(g, c0, sh0)
    ensures |sh| == SHADOW_WORDS && sh[CHECKSUM_WORD].value == Checksum(View(g, c0, sh0))
  {
    Stored(sh0, CHECKSUM_WORD, [Checksum(View(g, c0, sh0))])
  }

  /** A commit that took bank 0 and stops after its erase shows bank 0. */
  lemma WrongBankShows(g: Geometry, c0: Cells, sh0: seq<ShadowEntry>, tears: bool)
    requires ValidState(g, c0, sh0) && !BankFits(g, c0, sh0, 0)
    ensures var c, sh := Erased(g, c0, 1), WithChecksum(g, c0, sh0);
      && CommitResult(g, c0, sh0, [], c, sh, [c], tears, true, 0, sh, true)
      && !Agree(View(g, c0, sh0), View(g, c, sh))
  {
    hide Agree, SigValid, ActiveBank, NewImage, Committed, Copied, Copying, Retiring, View, Checksum;
    var c, sh := Erased(g, c0, 1), WithChecksum(g, c0, sh0);
    ErasedIsCopied(g, c0, sh, 0);
    CopiedIsCopying(g, c0, sh, 0, 0);
    CopyingIsCrashPoint(g, c0, sh, 0, c, tears);
    CopyingActive(g, c0, 0, c);
    ViewIs(g, c, sh, FromBank(g, c0, sh, 0));
    StoredChecksumAgrees(g, c0, sh0, Checksum(View(g, c0, sh0)));
    AgreeBack(View(g, c0, sh0), FromBank(g, c0, sh0, 0), FromBank(g, c0, sh, 0));
  }

  lemma ViewIs(g: Geometry, c: Cells, sh: seq<ShadowEntry>, v: seq<bv16>)
    requires ValidState(g, c, sh) && v == Overlay(ActiveImage(g, c), sh)
    ensures View(g, c, sh) == v
  {
    hide ActiveBank;
  }

  lemma AgreeBack(a: seq<bv16>, b: seq<bv16>, c: seq<bv16>)
    requires |a| == |b| == |c| == SHADOW_WORDS && Agree(b, c) && !Agree(a, b)
    ensures !Agree(a, c)
  {
    hide Rest;
  }

  /** A commit that stops half-way through retiring an unshielded signature shows it. */
  lemma TornShows(g: Geometry, c0: Cells, sh0: seq<ShadowEntry>) returns (c: Cells)
    requires ValidState(g, c0, sh0) && BankFits(g, c0, sh0, 0) && !Shielded(c0, sh0, 0)
    ensures |c| == |c0|
    ensures var sh := WithChecksum(g, c0, sh0);
      && CommitResult(g, c0, sh0, [], c, sh, [Erased(g, c0, 1), c], true, true, 0, sh, true)
      && !Agree(View(g, c0, sh0), View(g, c, sh))
  {
    hide SigValid, ActiveBank, NewImage, Committed, Copied, Copying, Retiring, Rest, Torn, BankFits, Checksum;
    var sh := WithChecksum(g, c0, sh0);
    c := TornPoint(g, c0, sh);
    TornRest(c0[SIG_WORD]);
    FitsAgrees(g, c0, sh0, 0);
    ErasedIsCopied(g, c0, sh, 0);
    CopiedIsCopying(g, c0, sh, 0, 0);
    CopyingIsCrashPoint(g, c0, sh, 0, Erased(g, c0, 1), true);
    assert View(g, c, sh)[SIG_WORD] == Torn(c0[SIG_WORD]);
    assert FromBank(g, c0, sh0, 0)[SIG_WORD] == c0[SIG_WORD];
  }

  lemma AgreeSame(v: seq<bv16>)
    requires |v| == SHADOW_WORDS
    ensures Agree(v, v)
  {
  }

  lemma CrashLength(g: Geometry, c0: Cells, sh: seq<ShadowEntry>, o: nat, c: Cells, tears: bool)
    requires ValidState(g, c0, sh) && o <= 1 && CrashPoint(g, c0, sh, o, c, tears)
    ensures |c| == |c0|
  {
  }

  // ---- any run of writes and commits --------------------------------------------------

  datatype State = State(cells: Cells, shadow: seq<ShadowEntry>)
  /** A commit is listed with the bank it took for the old one. */
  datatype Op = WriteOp(offset: nat, data: seq<bv16>) | CommitOp(bank: nat)

  ghost predicate Step(g: Geometry, s: State, op: Op, s': State, tears: bool)
    requires ValidState(g, s.cells, s.shadow)
  {
    match op
    case WriteOp(offset, data) =>
      s' == if offset + |data| <= SHADOW_WORDS && data != [] then State(s.cells, Stored(s.shadow, offset, data)) else s
    case CommitOp(o) =>
      && o <= 1 && (o == 0 || o == ActiveBank(g, s.cells))
      && exists t0, t, err, sh, erased ::
           |sh| == SHADOW_WORDS &&
           CommitResult(g, s.cells, s.shadow, t0, s'.cells, s'.shadow, t, tears, err, o, sh, erased)
  }

  /** What the condition for keeping the contents asks of an operation. */
  ghost predicate SafeOp(g: Geometry, s: State, op: Op, tears: bool)
    requires ValidState(g, s.cells, s.shadow)
  {
    op.CommitOp? ==> Safe(g, s.cells, s.shadow, op.bank, tears)
  }

  /** The contents a caller expects: the writes, in order, over what was there. */
  function Replay(v: seq<bv16>, ops: seq<Op>): (r: seq<bv16>)
    requires |v| == SHADOW_WORDS
    ensures |r| == SHADOW_WORDS
  {
    if ops == [] then v else Applied(Replay(v, ops[..|ops| - 1]), ops[|ops| - 1])
  }

  function Applied(v: seq<bv16>, op: Op): (r: seq<bv16>)
    requires |v| == SHADOW_WORDS
    ensures |r| == SHADOW_WORDS
  {
    match op
    case CommitOp(_) => v
    case WriteOp(offset, data) =>
      if offset + |data| > SHADOW_WORDS then v else
      seq(SHADOW_WORDS, w requires 0 <= w < SHADOW_WORDS =>
        if offset <= w < offset + |data| then data[w - offset] else v[w])
  }

  lemma WriteContents(g: Geometry, s: State, offset: nat, data: seq<bv16>, w: nat)
    requires ValidState(g, s.cells, s.shadow) && offset + |data| <= SHADOW_WORDS && w < SHADOW_WORDS
    ensures View(g, s.cells, Stored(s.shadow, offset, data))[w]
         == if offset <= w < offset + |data| then data[w - offset] else View(g, s.cells, s.shadow)[w]
  {
    hide SigValid;
  }

  ghost predicate Run(g: Geometry, ss: seq<State>, ops: seq<Op>, tears: bool) {
    && |ss| == |ops| + 1
    && (forall i :: 0 <= i < |ss| ==> ValidState(g, ss[i].cells, ss[i].shadow))
    && (forall i :: 0 <= i < |ops| ==> Step(g, ss[i], ops[i], ss[i + 1], tears))
  }

  lemma WriteAgrees(g: Geometry, s: State, offset: nat, data: seq<bv16>, s': State, v: seq<bv16>, tears: bool)
    requires ValidState(g, s.cells, s.shadow) && ValidState(g, s'.cells, s'.shadow) && |v| == SHADOW_WORDS
    requires Step(g, s, WriteOp(offset, data), s', tears) && Agree(v, View(g, s.cells, s.shadow))
    ensures Agree(Applied(v, WriteOp(offset, data)), View(g, s'.cells, s'.shadow))
  {
    hide View, Rest;
    if offset + |data| <= SHADOW_WORDS {
      forall w | 0 <= w < SHADOW_WORDS
        ensures View(g, s'.cells, s'.shadow)[w]
             == if offset <= w < offset + |data| then data[w - offset] else View(g, s.cells, s.shadow)[w]
      {
        if data != [] { WriteContents(g, s, offset, data, w); }
      }
    }
  }

  lemma CommitAgrees(g: Geometry, s: State, o: nat, s': State, v: seq<bv16>, tears: bool)
    requires ValidState(g, s.cells, s.shadow) && ValidState(g, s'.cells, s'.shadow) && |v| == SHADOW_WORDS
    requires Step(g, s, CommitOp(o), s', tears) && Safe(g, s.cells, s.shadow, o, tears)
    requires Agree(v, View(g, s.cells, s.shadow))
    ensures Agree(v, View(g, s'.cells, s'.shadow))
  {
    hide CommitResult, Agree, View, ActiveBank, Safe;
    var t0, t, err, sh, erased :|
      |sh| == SHADOW_WORDS && CommitResult(g, s.cells, s.shadow, t0, s'.cells, s'.shadow, t, tears, err, o, sh, erased);
    CommitKeepsContents(g, s.cells, s.shadow, t0, s'.cells, s'.shadow, t, tears, err, o, sh, erased);
    AgreeTransitive(v, View(g, s.cells, s.shadow), View(g, s'.cells, s'.shadow));
  }

  /** Over any run of writes and commits, each commit failing wherever it likes, reads
      return what was last written, the checksum word and signature bits apart, as long as
      each commit is safe in the sense of CommitKeepsIff. */
  lemma {:induction false} FaithfulOverlay(g: Geometry, ss: seq<State>, ops: seq<Op>, tears: bool)
    requires Run(g, ss, ops, tears)
    requires forall i :: 0 <= i < |ops| ==> SafeOp(g, ss[i], ops[i], tears)
    ensures Agree(Replay(View(g, ss[0].cells, ss[0].shadow), ops),
                  View(g, ss[|ops|].cells, ss[|ops|].shadow))
    decreases |ops|
  {
    hide Agree, View, Step, Safe;
    var v0 := View(g, ss[0].cells, ss[0].shadow);
    if ops == [] {
      AgreeSame(v0);
    } else {
      var n := |ops| - 1;
      assert Run(g, ss[..n + 1], ops[..n], tears);
      FaithfulOverlay(g, ss[..n + 1], ops[..n], tears);
      assert ss[..n + 1][0] == ss[0] && ss[..n + 1][n] == ss[n];
      var v := Replay(v0, ops[..n]);
      assert Step(g, ss[n], ops[n], ss[n + 1], tears);
      match ops[n]
      case CommitOp(o) =>
        assert SafeOp(g, ss[n], ops[n], tears);
        CommitAgrees(g, ss[n], o, ss[n + 1], v, tears);
      case WriteOp(offset, data) => WriteAgrees(g, ss[n], offset, data, ss[n + 1], v, tears);
    }
  }

  // ---- checksum -----------------------------------------------------------------------

  lemma PlusLeft(a: bv16, b: bv16, c: bv16)
    ensures Plus(a, b) == Plus(a, c) <==> b == c
  {
    hide Plus, Minus;
    MinusPlus(a, b);
    MinusPlus(a, c);
  }

  lemma MinusPlus(a: bv16, b: bv16)
    ensures Minus(Plus(a, b), a) == b && Plus(a, b) == Plus(b, a)
  {
    assert (a + b) - a == b;
  }

  /** Sums that differ in one word are equal just when that word is. */
  lemma {:induction false} SumSplit(v: seq<bv16>, v': seq<bv16>, k: nat, n: nat)
    requires k < n <= |v| == |v'| && forall w :: 0 <= w < n && w != k ==> v[w] == v'[w]
    ensures Sum(v, n) == Sum(v', n) <==> v[k] == v'[k]
    decreases n
  {
    hide Plus;
    if k == n - 1 {
      SumSame(v, v', k);
      PlusLeft(Sum(v, k), v[k], v'[k]);
    } else {
      SumSplit(v, v', k, n - 1);
      PlusRight(Sum(v, n - 1), Sum(v', n - 1), v[n - 1]);
    }
  }

  lemma PlusMinus(a: bv16, b: bv16)
    ensures Plus(a, Minus(b, a)) == b
  {
    hide Plus;
    PlusDifference(a, b);
  }

  lemma PlusDifference(a: bv16, b: bv16)
    ensures Plus(a, b - a) == b
  {
  }

  lemma PlusRight(a: bv16, b: bv16, c: bv16)
    ensures Plus(a, c) == Plus(b, c) <==> a == b
  {
    hide Plus, Minus;
    PlusLeft(c, a, b);
    MinusPlus(a, c);
    MinusPlus(b, c);
  }

  lemma {:induction false} SumSame(v: seq<bv16>, v': seq<bv16>, n: nat)
    requires n <= |v| && n <= |v'| && forall w :: 0 <= w < n ==> v[w] == v'[w]
    ensures Sum(v, n) == Sum(v', n)
  {
    hide Plus;
    if n > 0 { SumSame(v, v', n - 1); }
  }

  lemma ChecksumCompletes(v: seq<bv16>)
    requires |v| == SHADOW_WORDS && v[CHECKSUM_WORD] == Checksum(v)
    ensures Sum(v, CHECKSUM_WORD + 1) == NVM_SUM
  {
    hide Plus, Minus;
    PlusMinus(Sum(v, CHECKSUM_WORD), NVM_SUM);
  }

  /** As numbers: the words up to the checksum sum to BABAh modulo 2^16 with it. */
  lemma ChecksumCompletesTotal(v: seq<bv16>)
    requires |v| == SHADOW_WORDS && v[CHECKSUM_WORD] == Checksum(v)
    ensures Wrapped(Total(v, CHECKSUM_WORD + 1) % 0x1_0000) == NVM_SUM
  {
    hide Sum, Total, Checksum, Wrapped;
    ChecksumCompletes(v);
    SumIsTotal(v, CHECKSUM_WORD + 1);
  }

  lemma SealIdentity(v: bv16)
    ensures Closed(Opened(v)) == v <==> SigValid(v)
  {
  }

  /** After a commit that ended well, validation succeeds exactly when the words summed
      before the commit already carried the signature 10b. */
  lemma ChecksumAfterCommit(g: Geometry, c0: Cells, sh0: seq<ShadowEntry>)
    requires ValidState(g, c0, sh0)
    ensures var v := View(g, c0, sh0);
      var sh := Stored(sh0, CHECKSUM_WORD, [Checksum(v)]);
      var c := Committed(g, c0, sh, ActiveBank(g, c0));
      Sum(View(g, c, seq(SHADOW_WORDS, _ => CLEAR)), CHECKSUM_WORD + 1) == NVM_SUM <==> SigValid(v[SIG_WORD])
  {
    hide SigValid, Plus, Minus, Opened, Closed, Committed, Sum;
    var v := View(g, c0, sh0);
    var x := Checksum(v);
    var sh := Stored(sh0, CHECKSUM_WORD, [x]);
    var o := ActiveBank(g, c0);
    CommittedActive(g, c0, sh, o);
    ClearView(g, Committed(g, c0, sh, o));
    var u := View(g, c0, sh);
    var img := NewImage(g, c0, o, sh);
    assert u[CHECKSUM_WORD] == x && u[SIG_WORD] == v[SIG_WORD];
    SumSame(u, v, CHECKSUM_WORD);
    SumFacts(u, v);
    ChecksumCompletes(u);
    SumSplit(img, u, SIG_WORD, CHECKSUM_WORD + 1);
    SealIdentity(u[SIG_WORD]);
  }

  lemma SumFacts(u: seq<bv16>, v: seq<bv16>)
    requires |u| == |v| == SHADOW_WORDS && Sum(u, CHECKSUM_WORD) == Sum(v, CHECKSUM_WORD)
    ensures Checksum(u) == Checksum(v)
  {
  }

  // ---- the two commits write the same flash --------------------------------------------

  /** From equal states, the dword commit and the byte commit that both end well leave equal
      flash and equal shadow RAM if they took the same bank for the old one, stored the same
      checksum and the same of their erases was done; good reads are enough for bank and checksum. */
  method CommitBothWays(a: Nvm, b: Nvm)
    returns (errA: bool, errB: bool, ghost oA: nat, ghost oB: nat,
             ghost shA: seq<ShadowEntry>, ghost shB: seq<ShadowEntry>, ghost silentA: bool, ghost silentB: bool)
    requires a.Valid() && b.Valid() && a != b && a.flash != b.flash && a.shadow != b.shadow
    requires a.flash.g == b.flash.g && a.flash.cells == b.flash.cells && a.shadow[..] == b.shadow[..]
    modifies a.flash, a.shadow, b.flash, b.shadow
    ensures silentA <==> a.flash.eraseErrors == old(a.flash.eraseErrors) + FLASH_CYCLE_REPEAT_COUNT
    ensures silentB <==> b.flash.eraseErrors == old(b.flash.eraseErrors) + FLASH_CYCLE_REPEAT_COUNT
    ensures !errA && !errB && oA == oB && shA == shB && silentA == silentB ==>
      a.flash.cells == b.flash.cells && a.shadow[..] == b.shadow[..]
    ensures a.flash.misreads == old(a.flash.misreads) && b.flash.misreads == old(b.flash.misreads) ==>
      oA == oB && shA == shB
  {
    hide CommitResult, CommittedOnto, Stored, ActiveBank, Checksum;
    ghost var erased, sure;
    errA, oA, shA, erased, sure, silentA := a.Commit();
    errB, oB, shB, erased, sure, silentB := b.CommitSpt();
  }

  // ---- the driver on its flash ----------------------------------------------------------

  /** The commit of the part at hand. */
  method CommitNvm(n: Nvm)
    returns (err: bool, ghost o: nat, ghost sh: seq<ShadowEntry>,
             ghost erased: bool, ghost sure: bool, ghost silent: bool)
    requires n.Valid()
    modifies n.flash, n.shadow
    ensures n.Valid() && n.flash.misreads >= old(n.flash.misreads) && n.flash.stuck >= old(n.flash.stuck)
    ensures n.flash.programErrors >= old(n.flash.programErrors)
    ensures old(n.flash.eraseErrors) <= n.flash.eraseErrors <= old(n.flash.eraseErrors) + FLASH_CYCLE_REPEAT_COUNT
    ensures silent <==> n.flash.eraseErrors == old(n.flash.eraseErrors) + FLASH_CYCLE_REPEAT_COUNT
    ensures err ==> Excused(n.flash.misreads - old(n.flash.misreads), n.flash.stuck - old(n.flash.stuck),
                        n.flash.programErrors - old(n.flash.programErrors))
    ensures o <= 1 && ValidState(n.flash.g, old(n.flash.cells), sh)
    ensures !silent ==> CommitResult(n.flash.g, old(n.flash.cells), old(n.shadow[..]), old(n.flash.trail),
                                     n.flash.cells, n.shadow[..], n.flash.trail, n.flash.tears, err, o, sh, erased)
    ensures |n.flash.cells| == old(|n.flash.cells|)
    ensures !err ==>
      && n.flash.cells == CommittedOnto(n.flash.g, old(n.flash.cells), sh, o, silent)
      && n.shadow[..] == seq(SHADOW_WORDS, _ => CLEAR)
    ensures o == 0 || o == ActiveBank(n.flash.g, old(n.flash.cells))
    ensures sure ==> o == ActiveBank(n.flash.g, old(n.flash.cells))
    ensures n.flash.misreads == old(n.flash.misreads) ==>
      sure && sh == Stored(old(n.shadow[..]), CHECKSUM_WORD, [Checksum(old(n.Contents()))])
  {
    hide CommitResult, CommittedOnto, Stored, ActiveBank, Checksum, View;
    if n.spt {
      err, o, sh, erased, sure, silent := n.CommitSpt();
    } else {
      err, o, sh, erased, sure, silent := n.Commit();
    }
  }

  /** Commit, then lose power after any of its cycles, whatever reads failed on the way. The
      bank taken is the active one if the reads that looked for it were good. The erase was done, or the
      commit failed before it, unless ten erase cycles ended with an error. */
  method CommitAndLosePower(n: Nvm)
    returns (err: bool, ghost o: nat, ghost sh: seq<ShadowEntry>,
             ghost erased: bool, ghost sure: bool)
    requires n.Valid()
    modifies n.flash, n.shadow
    ensures n.Valid() && ValidState(n.flash.g, old(n.flash.cells), sh)
    ensures (sure ==> o == ActiveBank(n.flash.g, old(n.flash.cells)))
    ensures n.flash.misreads == old(n.flash.misreads) ==> sure
    ensures EraseTold(n.flash.eraseErrors - old(n.flash.eraseErrors)) ==>
      forall i :: old(|n.flash.trail|) <= i < |n.flash.trail| ==> |n.flash.trail[i]| == old(|n.flash.cells|)
    ensures EraseTold(n.flash.eraseErrors - old(n.flash.eraseErrors)) && !n.flash.tears ==>
      ((forall i :: old(|n.flash.trail|) <= i < |n.flash.trail| ==>
          OldOrNew(n.flash.g, old(n.flash.cells), sh, n.flash.trail[i]))
       <==> o == ActiveBank(n.flash.g, old(n.flash.cells)) || !erased)
    ensures EraseTold(n.flash.eraseErrors - old(n.flash.eraseErrors)) ==>
      sure && (o == 1 || CleanSignature(old(n.flash.cells)[SIG_WORD])) ==>
      forall i :: old(|n.flash.trail|) <= i < |n.flash.trail| ==>
        OldOrNew(n.flash.g, old(n.flash.cells), sh, n.flash.trail[i])
  {
    hide CrashPoint, Committed, CommittedOnto, Stored, ActiveBank, Checksum, View, OldOrNew, CleanSignature, Erased;
    ghost var g, c0, sh0, t0, tears := n.flash.g, n.flash.cells, n.shadow[..], n.flash.trail, n.flash.tears;
    ghost var silent;
    err, o, sh, erased, sure, silent := CommitNvm(n);
    if !silent {
      forall i | |t0| <= i < |n.flash.trail| ensures |n.flash.trail[i]| == |c0| {
        CrashLength(g, c0, sh, o, n.flash.trail[i], tears);
      }
      if !tears {
        PowerLossAnywhere(g, c0, sh0, t0, n.flash.cells, n.shadow[..], n.flash.trail, err, o, sh, erased);
      }
      if sure && (o == 1 || CleanSignature(c0[SIG_WORD])) {
        forall i | |t0| <= i < |n.flash.trail| ensures OldOrNew(g, c0, sh, n.flash.trail[i]) {
          WholeIsTorn(g, c0, sh, o, n.flash.trail[i], tears);
          TornCrash(g, c0, sh, n.flash.trail[i]);
        }
      }
    }
  }

  /** A part that lands its cycles whole does nothing that a tearing one could not. */
  lemma WholeIsTorn(g: Geometry, c0: Cells, sh: seq<ShadowEntry>, o: nat, c: Cells, tears: bool)
    requires ValidState(g, c0, sh) && o <= 1 && CrashPoint(g, c0, sh, o, c, tears)
    ensures CrashPoint(g, c0, sh, o, c, true)
  {
    hide NewImage, Copying;
  }

  datatype Request = WriteRequest(offset: nat, data: seq<bv16>) | CommitRequest

  ghost predicate Answers(ops: seq<Op>, requests: seq<Request>) {
    && |ops| == |requests|
    && forall i :: 0 <= i < |ops| ==> match requests[i]
         case WriteRequest(offset, data) => ops[i] == WriteOp(offset, data)
         case CommitRequest => ops[i].CommitOp?
  }

  /** Any sequence of writes and commits on the driver is a run, and the contents are what
      was last written if each commit is safe; on a part that lands its cycles whole good
      reads are enough for that. */
  method Serve(n: Nvm, requests: seq<Request>) returns (ghost ss: seq<State>, ghost ops: seq<Op>)
    requires n.Valid()
    modifies n.flash, n.shadow
    ensures n.Valid()
    ensures EraseTold(n.flash.eraseErrors - old(n.flash.eraseErrors)) ==>
      Answers(ops, requests) && Run(n.flash.g, ss, ops, n.flash.tears)
    ensures EraseTold(n.flash.eraseErrors - old(n.flash.eraseErrors)) ==>
      ss[0] == State(old(n.flash.cells), old(n.shadow[..])) && ss[|ops|] == State(n.flash.cells, n.shadow[..])
    ensures EraseTold(n.flash.eraseErrors - old(n.flash.eraseErrors)) ==>
      (forall i :: 0 <= i < |ops| ==> SafeOp(n.flash.g, ss[i], ops[i], n.flash.tears)) ==>
      Agree(Replay(old(n.Contents()), ops), n.Contents())
    ensures EraseTold(n.flash.eraseErrors - old(n.flash.eraseErrors)) ==>
      !n.flash.tears && n.flash.misreads == old(n.flash.misreads) ==>
      Agree(Replay(old(n.Contents()), ops), n.Contents())
  {
    hide Step, View, Agree, SafeOp, CommitResult, ActiveBank, Checksum;
    ghost var g, tears := n.flash.g, n.flash.tears;
    ghost var silent := false;
    ss, ops := [State(n.flash.cells, n.shadow[..])], [];
    var k := 0;
    while k < |requests|
      invariant k <= |requests| && n.Valid() && n.flash.misreads >= old(n.flash.misreads)
      invariant n.flash.eraseErrors >= old(n.flash.eraseErrors)
      invariant silent ==> !EraseTold(n.flash.eraseErrors - old(n.flash.eraseErrors))
      invariant !silent ==> Answers(ops, requests[..k]) && Run(g, ss, ops, tears)
      invariant !silent ==>
        ss[0] == State(old(n.flash.cells), old(n.shadow[..])) && ss[k] == State(n.flash.cells, n.shadow[..])
      invariant !silent && !tears && n.flash.misreads == old(n.flash.misreads) ==>
        forall i :: 0 <= i < |ops| ==> SafeOp(g, ss[i], ops[i], tears)
    {
      ghost var op, silentOne := ServeOne(n, requests[k]);
      silent := silent || silentOne;
      assert requests[..k + 1] == requests[..k] + [requests[k]];
      if !silent { RunMore(g, ss, ops, op, State(n.flash.cells, n.shadow[..]), tears); }
      ss, ops := ss + [State(n.flash.cells, n.shadow[..])], ops + [op];
      k := k + 1;
    }
    assert requests[..k] == requests;
    if !silent && forall i :: 0 <= i < |ops| ==> SafeOp(g, ss[i], ops[i], tears) {
      FaithfulOverlay(g, ss, ops, tears);
    }
  }

  method ServeOne(n: Nvm, request: Request) returns (ghost op: Op, ghost silent: bool)
    requires n.Valid()
    modifies n.flash, n.shadow
    ensures n.Valid() && Answers([op], [request]) && n.flash.misreads >= old(n.flash.misreads)
    ensures n.flash.eraseErrors >= old(n.flash.eraseErrors)
    ensures silent ==> n.flash.eraseErrors == old(n.flash.eraseErrors) + FLASH_CYCLE_REPEAT_COUNT
    ensures |n.flash.cells| == old(|n.flash.cells|)
    ensures ValidState(n.flash.g, old(n.flash.cells), old(n.shadow[..]))
    ensures !silent ==>
      Step(n.flash.g, State(old(n.flash.cells), old(n.shadow[..])), op,
           State(n.flash.cells, n.shadow[..]), n.flash.tears)
    ensures !silent && !n.flash.tears && n.flash.misreads == old(n.flash.misreads) ==>
      SafeOp(n.flash.g, State(old(n.flash.cells), old(n.shadow[..])), op, n.flash.tears)
  {
    hide View, Agree, CommitResult, CommittedOnto, ActiveBank, Checksum, Stored;
    silent := false;
    match request
    case WriteRequest(offset, data) =>
      var _ := n.Write(offset, data);
      op := WriteOp(offset, data);
    case CommitRequest =>
      ghost var o, sh, erased, sure;
      ghost var t0 := n.flash.trail;
      var err;
      err, o, sh, erased, sure, silent := CommitNvm(n);
      op := CommitOp(o);
  }

  lemma RunMore(g: Geometry, ss: seq<State>, ops: seq<Op>, op: Op, s': State, tears: bool)
    requires Run(g, ss, ops, tears) && ValidState(g, s'.cells, s'.shadow) && Step(g, ss[|ops|], op, s', tears)
    ensures Run(g, ss + [s'], ops + [op], tears)
  {
    hide Step;
  }

  // ---- a read of several words by dwords ------------------------------------------------

  /** The two words of each pair are both modified or both not. */
  ghost predicate PairsAgree(sh: seq<ShadowEntry>, offset: nat, words: nat)
    requires offset + words <= |sh|
  {
    forall j :: 0 <= j < words - 1 && j % 2 == 0 ==> sh[offset + j].modified == sh[offset + j + 1].modified
  }

  /** Exactly when a read of the dword-read parts returns the overlay over the bank taken,
      whatever the flash holds. A single word is always read right. */
  lemma SptReadExactIff(g: Geometry, sh: seq<ShadowEntry>, o: nat, offset: nat, words: nat)
    requires g.Valid() && |sh| == SHADOW_WORDS && offset + words <= SHADOW_WORDS
    ensures (forall c: Cells, j: nat :: |c| == 2 * g.bankWords && j < words ==>
               SptWordOf(g, c, sh, o, offset, j) == FromBank(g, c, sh, o)[offset + j])
       <==> PairsAgree(sh, offset, words)
  {
    hide FromBank, SptWordOf;
    if PairsAgree(sh, offset, words) {
      forall c: Cells, j: nat | |c| == 2 * g.bankWords && j < words
        ensures SptWordOf(g, c, sh, o, offset, j) == FromBank(g, c, sh, o)[offset + j]
      {
        if j % 2 == 1 { SamePair(sh, offset, words, j - 1); }
        FromBankAt(g, c, sh, o, offset + j);
        SptWordAt(g, c, sh, o, offset, j);
      }
    } else {
      var j :| 0 <= j < words - 1 && j % 2 == 0 && sh[offset + j].modified != sh[offset + j + 1].modified;
      var k: nat := j + 1;
      var c: Cells := seq(2 * g.bankWords, _ => !sh[offset + k].value);
      Differs(sh[offset + k].value);
      FromBankAt(g, c, sh, o, offset + k);
      SptWordAt(g, c, sh, o, offset, k);
      assert SptWordOf(g, c, sh, o, offset, k) != FromBank(g, c, sh, o)[offset + k];
    }
  }

  lemma SamePair(sh: seq<ShadowEntry>, offset: nat, words: nat, j: nat)
    requires offset + words <= |sh| && PairsAgree(sh, offset, words) && j + 1 < words && j % 2 == 0
    ensures sh[offset + j].modified == sh[offset + j + 1].modified
  {
  }

  lemma Differs(v: bv16)
    ensures !v != v
  {
  }

  // ---- an erase that is reported good and did nothing -----------------------------------

  lemma MaskedValid(e: bv16, v: bv16)
    ensures SigValid(Closed(Masked(e, Opened(v)))) <==> e & 0x8000 != 0
  {
  }

  lemma MaskedSame(e: bv16, v: bv16)
    ensures Closed(Masked(e, Opened(v))) == Masked(e, Closed(Opened(v)))
  {
  }

  lemma SealedValid(v: bv16)
    ensures SigValid(Closed(Opened(v)))
  {
  }

  lemma MaskedSeal(e: bv16, v: bv16)
    ensures SigValid(Closed(Masked(e, Opened(v)))) <==> e & 0x8000 != 0
    ensures Closed(Masked(e, Opened(v))) == Closed(Opened(v)) <==> Masked(e, Closed(Opened(v))) == Closed(Opened(v))
    ensures Closed(Masked(e, Opened(v))) == Closed(Opened(v)) ==> e & 0x8000 != 0
  {
    hide Closed, Opened, Masked, SigValid;
    MaskedValid(e, v);
    MaskedSame(e, v);
    SealedValid(v);
  }

  /** Nothing that the unerased bank holds is in the way: the new image only clears bits of it. */
  ghost predicate OnlyClears(g: Geometry, c0: Cells, sh: seq<ShadowEntry>, o: nat)
    requires ValidState(g, c0, sh) && o <= 1
  {
    var img := NewImage(g, c0, o, sh);
    forall w :: 0 <= w < SHADOW_WORDS ==> Masked(c0[g.Base(1 - o) + w], img[w]) == img[w]
  }

  lemma UnerasedWord(g: Geometry, c0: Cells, sh: seq<ShadowEntry>, o: nat, w: nat)
    requires ValidState(g, c0, sh) && o <= 1 && w < SHADOW_WORDS
    ensures var e := c0[g.Base(1 - o) + w]; var x := CopyWord(g, c0, sh, o, w);
      Image(g, CommittedOnto(g, c0, sh, o, true), 1 - o)[w] ==
        if w == SIG_WORD then Closed(Masked(e, x)) else Masked(e, x)
  {
    hide Closed, Masked, Retired, CopyWord;
  }

  /** What a commit that ended well leaves when its erase did nothing: the new image becomes
      active exactly when it only clears bits of the unerased bank. */
  lemma SilentEraseIff(g: Geometry, c0: Cells, sh: seq<ShadowEntry>, o: nat)
    requires ValidState(g, c0, sh) && o <= 1
    ensures ActiveImage(g, CommittedOnto(g, c0, sh, o, true)) == NewImage(g, c0, o, sh) <==> OnlyClears(g, c0, sh, o)
  {
    hide Closed, Masked, Retired, SigValid, Opened, CommittedOnto, NewImage;
    var c, img := CommittedOnto(g, c0, sh, o, true), NewImage(g, c0, o, sh);
    var new' := Image(g, c, 1 - o);
    var v := if sh[SIG_WORD].modified then sh[SIG_WORD].value else c0[g.Base(o) + SIG_WORD];
    MaskedSeal(c0[g.Base(1 - o) + SIG_WORD], v);
    NewImageSealed(g, c0, sh, o);
    SilentActive(g, c0, sh, o);
    forall w | 0 <= w < SHADOW_WORDS ensures new'[w] == img[w] <==> Masked(c0[g.Base(1 - o) + w], img[w]) == img[w] {
      UnerasedWord(g, c0, sh, o, w);
      NewWord(g, c0, sh, o, w);
    }
    NewWord(g, c0, sh, o, SIG_WORD);
    assert OnlyClears(g, c0, sh, o) <==> new' == img;
  }

  /** The new bank is valid exactly when the bank it was written over still had bit 15 of its
      signature; otherwise no bank is, and bank 0 is taken for the active one. */
  lemma SilentActive(g: Geometry, c0: Cells, sh: seq<ShadowEntry>, o: nat)
    requires ValidState(g, c0, sh) && o <= 1
    ensures var c := CommittedOnto(g, c0, sh, o, true);
      if c0[g.Base(1 - o) + SIG_WORD] & 0x8000 != 0 then ActiveBank(g, c) == 1 - o
      else NoBankValid(g, c) && !SigValid(ActiveImage(g, c)[SIG_WORD])
  {
    hide Closed, Masked, Retired, SigValid, Opened, CommittedOnto;
    var c := CommittedOnto(g, c0, sh, o, true);
    var v := if sh[SIG_WORD].modified then sh[SIG_WORD].value else c0[g.Base(o) + SIG_WORD];
    MaskedSeal(c0[g.Base(1 - o) + SIG_WORD], v);
    UnerasedWord(g, c0, sh, o, SIG_WORD);
    SilentOld(g, c0, sh, o);
    RetiredInvalid(c0[g.Base(o) + SIG_WORD]);
    assert c[g.Base(1 - o) + SIG_WORD] == Image(g, c, 1 - o)[SIG_WORD];
  }

  lemma SilentOld(g: Geometry, c0: Cells, sh: seq<ShadowEntry>, o: nat)
    requires ValidState(g, c0, sh) && o <= 1
    ensures CommittedOnto(g, c0, sh, o, true)[g.Base(o) + SIG_WORD] == Retired(c0[g.Base(o) + SIG_WORD])
  {
    hide Retired, SealedOnto;
  }

  /** A commit that ended well: what is read afterwards is the new image exactly when the erase
      was done or the new image only clears bits of the bank it was written over. */
  method CommitAndRead(n: Nvm) returns (err: bool, ghost o: nat, ghost sh: seq<ShadowEntry>)
    requires n.Valid()
    modifies n.flash, n.shadow
    ensures n.Valid() && o <= 1 && ValidState(n.flash.g, old(n.flash.cells), sh)
    ensures !err ==>
      (n.Contents() == NewImage(n.flash.g, old(n.flash.cells), o, sh) <==>
       EraseTold(n.flash.eraseErrors - old(n.flash.eraseErrors)) ||
       OnlyClears(n.flash.g, old(n.flash.cells), sh, o))
  {
    hide CommitResult, CommittedOnto, Stored, ActiveBank, Checksum, OnlyClears, NewImage;
    ghost var g, c0 := n.flash.g, n.flash.cells;
    ghost var erased, sure, silent;
    err, o, sh, erased, sure, silent := CommitNvm(n);
    if !err {
      ClearView(g, n.flash.cells);
      SealedWordsOnto(g, c0, sh, o, silent);
      if silent { SilentEraseIff(g, c0, sh, o); } else { CommittedActive(g, c0, sh, o); }
    }
  }

  /** Commit, then validate: the driver's own check agrees with the condition above. */
  method CommitThenValidate(n: Nvm) returns (err: bool, invalid: bool)
    requires n.Valid()
    modifies n.flash, n.shadow
    ensures n.Valid()
    ensures err ==> Excused(n.flash.misreads - old(n.flash.misreads), n.flash.stuck - old(n.flash.stuck),
                            n.flash.programErrors - old(n.flash.programErrors))
    ensures !err && n.flash.misreads == old(n.flash.misreads) ==>
      EraseTold(n.flash.eraseErrors - old(n.flash.eraseErrors)) ==>
        (!invalid <==> SigValid(old(n.Contents())[SIG_WORD]))
  {
    hide CrashPoint, TrailSafe, Committed, CommittedOnto, SigValid, Checksum, Stored, ActiveBank, Sum;
    ghost var g, c0, sh0 := n.flash.g, n.flash.cells, n.shadow[..];
    ghost var o, sh, erased, sure, silent;
    err, o, sh, erased, sure, silent := CommitNvm(n);
    invalid := n.ValidateChecksum();
    ChecksumAfterCommit(g, c0, sh0);
  }
}
