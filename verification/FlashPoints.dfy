/** How single cycles move between the crash points of a commit. */
module FlashPoints {
  import opened FlashSpec
  import opened FlashBits

  /** `c` differs from `b` at most in word w, as a possibly failed program cycle leaves it. */
  ghost predicate WordLanded(b: Cells, c: Cells, w: nat, m: bv16, tears: bool) {
    w < |b| && |c| == |b| && c == b[w := c[w]] && Landed(b[w], m, c[w], tears)
  }

  ghost predicate DwordLanded(b: Cells, c: Cells, w: nat, m: bv16, m1: bv16, tears: bool) {
    && w + 1 < |b| && |c| == |b| && c == b[w := c[w]][w + 1 := c[w + 1]]
    && Landed(b[w], m, c[w], tears) && Landed(b[w + 1], m1, c[w + 1], tears)
  }

  /** `t1` extends `t0` by contents that differ from `b` as a word (dword) program leaves it. */
  ghost predicate TrailWord(t0: seq<Cells>, t1: seq<Cells>, b: Cells, w: nat, m: bv16, tears: bool) {
    t0 <= t1 && forall t :: |t0| <= t < |t1| ==> WordLanded(b, t1[t], w, m, tears)
  }

  ghost predicate TrailDword(t0: seq<Cells>, t1: seq<Cells>, b: Cells, w: nat, m: bv16, m1: bv16, tears: bool) {
    t0 <= t1 && forall t :: |t0| <= t < |t1| ==> DwordLanded(b, t1[t], w, m, m1, tears)
  }

  /** `t1` extends `t0` by crash points only. */
  ghost predicate TrailSafe(t0: seq<Cells>, t1: seq<Cells>, g: Geometry, c0: Cells, sh: seq<ShadowEntry>, o: nat,
      tears: bool)
    requires ValidState(g, c0, sh) && o <= 1
  {
    t0 <= t1 && forall t :: |t0| <= t < |t1| ==> CrashPoint(g, c0, sh, o, t1[t], tears)
  }

  /** A cycle after cycles that may have failed: still within what one failed cycle can do. */
  lemma WordAgain(t0: seq<Cells>, t1: seq<Cells>, t2: seq<Cells>, b0: Cells, b1: Cells, c: Cells, w: nat, m: bv16,
      tears: bool)
    requires TrailWord(t0, t1, b0, w, m, tears) && WordLanded(b0, b1, w, m, tears)
    requires TrailWord(t1, t2, b1, w, m, tears) && WordLanded(b1, c, w, m, tears)
    ensures TrailWord(t0, t2, b0, w, m, tears) && WordLanded(b0, c, w, m, tears)
    ensures Masked(b1[w], m) == Masked(b0[w], m)
  {
    hide Landed, Masked;
    forall t | |t0| <= t < |t2| ensures WordLanded(b0, t2[t], w, m, tears) {
      if t < |t1| {
        assert t2[t] == t1[t];
      } else {
        assert WordLanded(b1, t2[t], w, m, tears);
        LandedAgain(b0[w], m, b1[w], t2[t][w], tears);
      }
    }
    LandedAgain(b0[w], m, b1[w], c[w], tears);
  }

  lemma DwordNothing(t: seq<Cells>, b: Cells, w: nat, m: bv16, m1: bv16, tears: bool)
    requires w + 1 < |b|
    ensures TrailDword(t, t, b, w, m, m1, tears) && DwordLanded(b, b, w, m, m1, tears)
  {
    LandedNothing(b[w], m, tears);
    LandedNothing(b[w + 1], m1, tears);
  }

  lemma DwordOnce(t: seq<Cells>, b: Cells, c: Cells, w: nat, m: bv16, m1: bv16, tears: bool)
    requires DwordLanded(b, c, w, m, m1, tears)
    ensures TrailDword(t, t + [c], b, w, m, m1, tears)
  {
  }

  lemma DwordAgain(t0: seq<Cells>, t1: seq<Cells>, t2: seq<Cells>, b0: Cells, b1: Cells, c: Cells, w: nat, m: bv16,
      m1: bv16, tears: bool)
    requires TrailDword(t0, t1, b0, w, m, m1, tears) && DwordLanded(b0, b1, w, m, m1, tears)
    requires TrailDword(t1, t2, b1, w, m, m1, tears) && DwordLanded(b1, c, w, m, m1, tears)
    ensures TrailDword(t0, t2, b0, w, m, m1, tears) && DwordLanded(b0, c, w, m, m1, tears)
    ensures Masked(b1[w], m) == Masked(b0[w], m) && Masked(b1[w + 1], m1) == Masked(b0[w + 1], m1)
  {
    hide Landed, Masked;
    forall t | |t0| <= t < |t2| ensures DwordLanded(b0, t2[t], w, m, m1, tears) {
      if t < |t1| {
        assert t2[t] == t1[t];
      } else {
        assert DwordLanded(b1, t2[t], w, m, m1, tears);
        LandedAgain(b0[w], m, b1[w], t2[t][w], tears);
        LandedAgain(b0[w + 1], m1, b1[w + 1], t2[t][w + 1], tears);
      }
    }
    LandedAgain(b0[w], m, b1[w], c[w], tears);
    LandedAgain(b0[w + 1], m1, b1[w + 1], c[w + 1], tears);
  }

  lemma WordKeepsCopying(g: Geometry, c0: Cells, o: nat, b: Cells, c: Cells, w: nat, m: bv16, tears: bool)
    requires g.Valid() && |b| == |c0| == 2 * g.bankWords && o <= 1
    requires WordLanded(b, c, w, m, tears) && Copying(g, c0, o, b)
    requires g.Base(1 - o) <= w < g.Base(1 - o) + SHADOW_WORDS
    requires w == g.Base(1 - o) + SIG_WORD ==> SigOpen(m)
    ensures Copying(g, c0, o, c)
  {
    hide Landed, SigOpen, SigValid, Opened, Closed, Retired, Masked;
    if w == g.Base(1 - o) + SIG_WORD {
      KeepsSignatureOpen(b[w], m, c[w], tears);
    }
  }

  lemma DwordKeepsCopying(g: Geometry, c0: Cells, o: nat, b: Cells, c: Cells, w: nat, m: bv16, m1: bv16, tears: bool)
    requires g.Valid() && |b| == |c0| == 2 * g.bankWords && o <= 1
    requires DwordLanded(b, c, w, m, m1, tears) && Copying(g, c0, o, b)
    requires g.Base(1 - o) <= w && w + 1 < g.Base(1 - o) + SHADOW_WORDS
    requires w == g.Base(1 - o) + SIG_WORD ==> SigOpen(m)
    requires w + 1 == g.Base(1 - o) + SIG_WORD ==> SigOpen(m1)
    ensures Copying(g, c0, o, c)
  {
    hide Landed, SigOpen, SigValid, Opened, Closed, Retired, Masked;
    var mid := b[w := c[w]];
    WordKeepsCopying(g, c0, o, b, mid, w, m, tears);
    WordKeepsCopying(g, c0, o, mid, c, w + 1, m1, tears);
  }

  lemma CopiedIsCopying(g: Geometry, c0: Cells, sh: seq<ShadowEntry>, o: nat, k: nat)
    requires ValidState(g, c0, sh) && o <= 1 && k <= SHADOW_WORDS
    ensures Copying(g, c0, o, Copied(g, c0, sh, o, k))
  {
    hide Landed, SigOpen, SigValid, Opened, Closed, Retired, Masked;
    var c := Copied(g, c0, sh, o, k);
    var s := g.Base(1 - o) + SIG_WORD;
    if k > SIG_WORD {
      var v := if sh[SIG_WORD].modified then sh[SIG_WORD].value else c0[g.Base(o) + SIG_WORD];
      assert c[s] == CopyWord(g, c0, sh, o, SIG_WORD);
      assert c[s] == Opened(v);
      OpenedIsOpen(v);
    } else {
      ErasedIsOpen();
    }
  }

  /** One more programmed word. */
  lemma CopyOneOnto(g: Geometry, c0: Cells, sh: seq<ShadowEntry>, o: nat, k: nat, silent: bool)
    requires ValidState(g, c0, sh) && o <= 1 && k < SHADOW_WORDS
    ensures var c := CopiedOnto(g, c0, sh, o, k, silent); var n := g.Base(1 - o) + k;
      n < |c| && CopiedOnto(g, c0, sh, o, k + 1, silent) == c[n := Masked(c[n], CopyWord(g, c0, sh, o, k))]
  {
    hide CopyWord, Masked, Erased;
    var c, n := CopiedOnto(g, c0, sh, o, k, silent), g.Base(1 - o) + k;
    assert CopiedOnto(g, c0, sh, o, k + 1, silent) == c[n := Masked(c[n], CopyWord(g, c0, sh, o, k))];
  }

  /** In an erased bank the words end up as they are written. */
  lemma OntoErased(g: Geometry, c0: Cells, sh: seq<ShadowEntry>, o: nat, k: nat)
    requires ValidState(g, c0, sh) && o <= 1 && k <= SHADOW_WORDS
    ensures CopiedOnto(g, c0, sh, o, k, false) == Copied(g, c0, sh, o, k)
  {
    hide CopyWord, Masked;
    var n := g.Base(1 - o);
    var c, c' := CopiedOnto(g, c0, sh, o, k, false), Copied(g, c0, sh, o, k);
    forall w | 0 <= w < |c0| ensures c[w] == c'[w] {
      if n <= w < n + k { MaskErased(CopyWord(g, c0, sh, o, w - n)); }
    }
  }

  lemma OntoOldBank(g: Geometry, c0: Cells, sh: seq<ShadowEntry>, o: nat, k: nat, silent: bool, w: nat)
    requires ValidState(g, c0, sh) && o <= 1 && k <= SHADOW_WORDS && w < g.bankWords
    ensures CopiedOnto(g, c0, sh, o, k, silent)[g.Base(o) + w] == c0[g.Base(o) + w]
  {
    hide CopyWord, Masked;
  }

  lemma SealedWordsOnto(g: Geometry, c0: Cells, sh: seq<ShadowEntry>, o: nat, silent: bool)
    requires ValidState(g, c0, sh) && o <= 1
    ensures var s := SealedOnto(g, c0, sh, o, silent); var w := g.Base(o) + SIG_WORD;
      && s[w] == c0[w] && s[w - 1] == c0[w - 1]
      && CommittedOnto(g, c0, sh, o, silent) == s[w := Retired(s[w])]
    ensures !silent ==> SealedOnto(g, c0, sh, o, silent) == SealedCells(g, c0, sh, o)
    ensures !silent ==> CommittedOnto(g, c0, sh, o, silent) == Committed(g, c0, sh, o)
  {
    hide CopiedOnto, Copied, Closed, Retired;
    OntoErased(g, c0, sh, o, SHADOW_WORDS);
    OntoOldBank(g, c0, sh, o, SHADOW_WORDS, silent, SIG_WORD);
    OntoOldBank(g, c0, sh, o, SHADOW_WORDS, silent, SIG_WORD - 1);
  }

  lemma NothingOnto(g: Geometry, c0: Cells, sh: seq<ShadowEntry>, o: nat)
    requires ValidState(g, c0, sh) && o <= 1
    ensures CopiedOnto(g, c0, sh, o, 0, true) == c0 && CopiedOnto(g, c0, sh, o, 0, false) == Erased(g, c0, 1 - o)
  {
    hide CopyWord, Masked, Erased;
  }

  /** The bank is complete: sealing it makes its image the new image. */
  lemma SealedImage(g: Geometry, c0: Cells, sh: seq<ShadowEntry>, o: nat)
    requires ValidState(g, c0, sh) && o <= 1
    ensures var c := Copied(g, c0, sh, o, SHADOW_WORDS); var n := g.Base(1 - o) + SIG_WORD;
      && n < |c| && SigOpen(c[n])
      && Image(g, c[n := Closed(c[n])], 1 - o) == NewImage(g, c0, o, sh)
  {
    hide Landed, SigOpen, SigValid, Opened, Closed, Retired, Masked;
    hide Copied, CopyWord, NewImage, Overlay;
    var c := Copied(g, c0, sh, o, SHADOW_WORDS);
    var nb := g.Base(1 - o);
    var n := nb + SIG_WORD;
    var img := Image(g, c[n := Closed(c[n])], 1 - o);
    forall w | 0 <= w < SHADOW_WORDS ensures img[w] == NewImage(g, c0, o, sh)[w] {
      CopiedWord(g, c0, sh, o, w);
      NewWord(g, c0, sh, o, w);
      assert img[w] == if w == SIG_WORD then Closed(c[n]) else c[nb + w];
    }
    CopiedWord(g, c0, sh, o, SIG_WORD);
    CopyWordOpen(g, c0, sh, o);
  }

  lemma CopiedWord(g: Geometry, c0: Cells, sh: seq<ShadowEntry>, o: nat, w: nat)
    requires ValidState(g, c0, sh) && o <= 1 && w < SHADOW_WORDS
    ensures Copied(g, c0, sh, o, SHADOW_WORDS)[g.Base(1 - o) + w] == CopyWord(g, c0, sh, o, w)
  {
    hide Opened, SigOpen, Closed, SigValid;
  }

  lemma NewWord(g: Geometry, c0: Cells, sh: seq<ShadowEntry>, o: nat, w: nat)
    requires ValidState(g, c0, sh) && o <= 1 && w < SHADOW_WORDS
    ensures |NewImage(g, c0, o, sh)| == SHADOW_WORDS
    ensures var x := CopyWord(g, c0, sh, o, w);
      NewImage(g, c0, o, sh)[w] == if w == SIG_WORD then Closed(x) else x
  {
    hide Opened, SigOpen, Closed, SigValid;
  }

  /** The flash once the new bank is sealed and before the old one is retired. */
  function SealedCells(g: Geometry, c0: Cells, sh: seq<ShadowEntry>, o: nat): (r: Cells)
    requires ValidState(g, c0, sh) && o <= 1
    ensures |r| == |c0|
  {
    var b := Copied(g, c0, sh, o, SHADOW_WORDS);
    var n := g.Base(1 - o) + SIG_WORD;
    b[n := Closed(b[n])]
  }

  lemma SealedOldBank(g: Geometry, c0: Cells, sh: seq<ShadowEntry>, o: nat)
    requires ValidState(g, c0, sh) && o <= 1
    ensures SameBank(g, c0, SealedCells(g, c0, sh, o), o, -1)
  {
    hide Landed, SigOpen, SigValid, Opened, Closed, Retired, Masked;
  }

  lemma SealPoint(g: Geometry, c0: Cells, sh: seq<ShadowEntry>, o: nat, c: Cells, m: bv16, tears: bool)
    requires ValidState(g, c0, sh) && o <= 1
    requires var b := Copied(g, c0, sh, o, SHADOW_WORDS); var n := g.Base(1 - o) + SIG_WORD;
      n < |b| && WordLanded(b, c, n, m, tears) && Masked(b[n], m) == Closed(b[n])
    ensures CrashPoint(g, c0, sh, o, c, tears)
  {
    hide Landed, SigOpen, SigValid, Opened, Closed, Retired, Masked;
    var b := Copied(g, c0, sh, o, SHADOW_WORDS);
    var n := g.Base(1 - o) + SIG_WORD;
    SealedImage(g, c0, sh, o);
    SealCell(b[n], m, c[n], tears);
    if c[n] == b[n] {
      CopiedIsCopying(g, c0, sh, o, SHADOW_WORDS);
      assert c == b;
    } else {
      assert c == SealedCells(g, c0, sh, o);
      SealedOldBank(g, c0, sh, o);
      LandedNothing(c0[g.Base(o) + SIG_WORD], 0x00FF, tears);
      assert Retiring(g, c0, sh, o, c, tears);
    }
  }

  lemma RetirePoint(g: Geometry, c0: Cells, sh: seq<ShadowEntry>, o: nat, c: Cells, tears: bool)
    requires ValidState(g, c0, sh) && o <= 1
    requires WordLanded(SealedCells(g, c0, sh, o), c, g.Base(o) + SIG_WORD, 0x00FF, tears)
    ensures CrashPoint(g, c0, sh, o, c, tears)
  {
    hide Landed, SigOpen, SigValid, Opened, Closed, Retired, Masked;
    SealedImage(g, c0, sh, o);
    SealedOldBank(g, c0, sh, o);
    assert Image(g, c, 1 - o) == Image(g, SealedCells(g, c0, sh, o), 1 - o);
    assert Retiring(g, c0, sh, o, c, tears);
  }

  // ---- whole trails -----------------------------------------------------------------

  lemma TrailJoin(t0: seq<Cells>, t1: seq<Cells>, t2: seq<Cells>,
                  g: Geometry, c0: Cells, sh: seq<ShadowEntry>, o: nat, tears: bool)
    requires ValidState(g, c0, sh) && o <= 1
    requires TrailSafe(t0, t1, g, c0, sh, o, tears) && TrailSafe(t1, t2, g, c0, sh, o, tears)
    ensures TrailSafe(t0, t2, g, c0, sh, o, tears) && t0 <= t2
  {
    hide CrashPoint;
    forall t | |t0| <= t < |t2| ensures CrashPoint(g, c0, sh, o, t2[t], tears) {
      if t < |t1| {
        assert t2[t] == t1[t];
      }
    }
  }

  /** Programming inside the new bank while it is being copied. */
  lemma CopyTrailWord(t0: seq<Cells>, t1: seq<Cells>, c: Cells, g: Geometry, c0: Cells, sh: seq<ShadowEntry>,
                      o: nat, b: Cells, w: nat, m: bv16, tears: bool)
    requires ValidState(g, c0, sh) && |b| == |c0| && o <= 1 && Copying(g, c0, o, b)
    requires g.Base(1 - o) <= w < g.Base(1 - o) + SHADOW_WORDS
    requires w == g.Base(1 - o) + SIG_WORD ==> SigOpen(m)
    requires TrailWord(t0, t1, b, w, m, tears) && WordLanded(b, c, w, m, tears)
    ensures t0 <= t1 && TrailSafe(t0, t1, g, c0, sh, o, tears) && CrashPoint(g, c0, sh, o, c, tears)
    ensures Copying(g, c0, o, c)
  {
    hide Landed, SigOpen;
    forall t | |t0| <= t < |t1| ensures CrashPoint(g, c0, sh, o, t1[t], tears) {
      WordKeepsCopying(g, c0, o, b, t1[t], w, m, tears);
    }
    WordKeepsCopying(g, c0, o, b, c, w, m, tears);
  }

  lemma CopyTrailDword(t0: seq<Cells>, t1: seq<Cells>, c: Cells, g: Geometry, c0: Cells, sh: seq<ShadowEntry>,
                       o: nat, b: Cells, w: nat, m: bv16, m1: bv16, tears: bool)
    requires ValidState(g, c0, sh) && |b| == |c0| && o <= 1 && Copying(g, c0, o, b)
    requires g.Base(1 - o) <= w && w + 1 < g.Base(1 - o) + SHADOW_WORDS
    requires w == g.Base(1 - o) + SIG_WORD ==> SigOpen(m)
    requires w + 1 == g.Base(1 - o) + SIG_WORD ==> SigOpen(m1)
    requires TrailDword(t0, t1, b, w, m, m1, tears) && DwordLanded(b, c, w, m, m1, tears)
    ensures t0 <= t1 && TrailSafe(t0, t1, g, c0, sh, o, tears) && CrashPoint(g, c0, sh, o, c, tears)
    ensures Copying(g, c0, o, c)
  {
    hide Landed, SigOpen;
    forall t | |t0| <= t < |t1| ensures CrashPoint(g, c0, sh, o, t1[t], tears) {
      DwordKeepsCopying(g, c0, o, b, t1[t], w, m, m1, tears);
    }
    DwordKeepsCopying(g, c0, o, b, c, w, m, m1, tears);
  }

  lemma TrailNothing(t: seq<Cells>, g: Geometry, c0: Cells, sh: seq<ShadowEntry>, o: nat, tears: bool)
    requires ValidState(g, c0, sh) && o <= 1
    ensures TrailSafe(t, t, g, c0, sh, o, tears)
  {
  }

  lemma CopyingIsCrashPoint(g: Geometry, c0: Cells, sh: seq<ShadowEntry>, o: nat, c: Cells, tears: bool)
    requires ValidState(g, c0, sh) && o <= 1 && |c| == |c0| && Copying(g, c0, o, c)
    ensures CrashPoint(g, c0, sh, o, c, tears)
  {
  }

  lemma TwoLandings(b: Cells, b1: Cells, c: Cells, w: nat, m: bv16, m1: bv16, tears: bool)
    requires WordLanded(b, b1, w, m, tears) && WordLanded(b1, c, w, m1, tears)
    ensures c == b[w := c[w]]
  {
  }

  lemma SealTrail(t0: seq<Cells>, t1: seq<Cells>, c: Cells, g: Geometry, c0: Cells, sh: seq<ShadowEntry>,
                  o: nat, m: bv16, tears: bool)
    requires ValidState(g, c0, sh) && o <= 1
    requires var b := Copied(g, c0, sh, o, SHADOW_WORDS); var n := g.Base(1 - o) + SIG_WORD;
      && n < |b| && Masked(b[n], m) == Closed(b[n])
      && TrailWord(t0, t1, b, n, m, tears) && WordLanded(b, c, n, m, tears)
    ensures t0 <= t1 && TrailSafe(t0, t1, g, c0, sh, o, tears) && CrashPoint(g, c0, sh, o, c, tears)
  {
    hide Landed, Masked, Closed, CrashPoint, Copied;
    forall t | |t0| <= t < |t1| ensures CrashPoint(g, c0, sh, o, t1[t], tears) {
      SealPoint(g, c0, sh, o, t1[t], m, tears);
    }
    SealPoint(g, c0, sh, o, c, m, tears);
  }

  lemma RetireTrail(t0: seq<Cells>, t1: seq<Cells>, c: Cells, g: Geometry, c0: Cells, sh: seq<ShadowEntry>,
                    o: nat, tears: bool)
    requires ValidState(g, c0, sh) && o <= 1
    requires var b := SealedCells(g, c0, sh, o); var w := g.Base(o) + SIG_WORD;
      TrailWord(t0, t1, b, w, 0x00FF, tears) && WordLanded(b, c, w, 0x00FF, tears)
    ensures t0 <= t1 && TrailSafe(t0, t1, g, c0, sh, o, tears) && CrashPoint(g, c0, sh, o, c, tears)
  {
    hide Landed, Masked, Closed, CrashPoint, SealedCells;
    forall t | |t0| <= t < |t1| ensures CrashPoint(g, c0, sh, o, t1[t], tears) {
      RetirePoint(g, c0, sh, o, t1[t], tears);
    }
    RetirePoint(g, c0, sh, o, c, tears);
  }

  lemma SealedWords(g: Geometry, c0: Cells, sh: seq<ShadowEntry>, o: nat)
    requires ValidState(g, c0, sh) && o <= 1
    ensures var s := SealedCells(g, c0, sh, o); var w := g.Base(o) + SIG_WORD;
      && s[w] == c0[w] && s[w - 1] == c0[w - 1]
      && Committed(g, c0, sh, o) == s[w := Retired(s[w])]
  {
  }

  lemma ErasedIsCopied(g: Geometry, c0: Cells, sh: seq<ShadowEntry>, o: nat)
    requires ValidState(g, c0, sh) && o <= 1
    ensures Erased(g, c0, 1 - o) == Copied(g, c0, sh, o, 0)
  {
  }

  lemma ActiveBankIsBank(g: Geometry, c: Cells)
    requires g.Valid() && |c| == 2 * g.bankWords
    ensures ActiveBank(g, c) <= 1
  {
  }

  lemma Untouched(g: Geometry, c0: Cells, sh: seq<ShadowEntry>, o: nat, tears: bool)
    requires ValidState(g, c0, sh) && o <= 1
    ensures CrashPoint(g, c0, sh, o, c0, tears)
  {
  }

  /** `t1` extends `t0` by contents `c0`, and by `c` at the end unless the erase failed. */
  ghost predicate ErasedLast(t0: seq<Cells>, t1: seq<Cells>, c0: Cells, c: Cells, err: bool) {
    && t0 <= t1 && (!err ==> |t0| < |t1| && t1[|t1| - 1] == c)
    && forall i :: |t0| <= i < |t1| && (err || i < |t1| - 1) ==> t1[i] == c0
  }

  lemma TrailErase(t0: seq<Cells>, t1: seq<Cells>, c: Cells, g: Geometry, c0: Cells, sh: seq<ShadowEntry>, o: nat,
      tears: bool)
    requires ValidState(g, c0, sh) && o <= 1 && |c| == |c0| && Copying(g, c0, o, Erased(g, c0, 1 - o))
    requires
      || (c == c0 && ErasedLast(t0, t1, c0, c, true))
      || (c == Erased(g, c0, 1 - o) && ErasedLast(t0, t1, c0, c, false))
    ensures TrailSafe(t0, t1, g, c0, sh, o, tears) && CrashPoint(g, c0, sh, o, c, tears)
  {
    hide Copying, Erased;
  }

  /** What a commit from flash `c0`, shadow `sh0` and trail `t0` leaves behind. */
  ghost predicate CommitResult(
    g: Geometry, c0: Cells, sh0: seq<ShadowEntry>, t0: seq<Cells>,
    c: Cells, sh1: seq<ShadowEntry>, t: seq<Cells>,
    tears: bool, err: bool, o: nat, sh: seq<ShadowEntry>, erased: bool)
    requires ValidState(g, c0, sh) && |sh0| == SHADOW_WORDS && o <= 1
  {
    && (sh == sh0 || sh == Stored(sh0, CHECKSUM_WORD, [sh[CHECKSUM_WORD].value]))
    && TrailSafe(t0, t, g, c0, sh, o, tears)
    && CrashPoint(g, c0, sh, o, c, tears)
    && (erased ==> Erased(g, c0, 1 - o) in t[|t0|..] && sh == Stored(sh0, CHECKSUM_WORD, [sh[CHECKSUM_WORD].value]))
    && (!erased ==> err && c == c0 && forall i :: |t0| <= i < |t| ==> t[i] == c0)
    && (if err then sh1 == sh else c == Committed(g, c0, sh, o) && sh1 == seq(SHADOW_WORDS, _ => CLEAR))
  }

  /** A dword program whose low half rewrites the word already there. */
  lemma OnlyHigh(t0: seq<Cells>, t1: seq<Cells>, c: Cells, b: Cells, w: nat, m1: bv16, tears: bool)
    requires w + 1 < |b| && TrailDword(t0, t1, b, w, b[w], m1, tears) && DwordLanded(b, c, w, b[w], m1, tears)
    ensures TrailWord(t0, t1, b, w + 1, m1, tears) && WordLanded(b, c, w + 1, m1, tears)
  {
    hide Landed;
    forall t | |t0| <= t < |t1| ensures WordLanded(b, t1[t], w + 1, m1, tears) {
      assert DwordLanded(b, t1[t], w, b[w], m1, tears);
      LandedSame(b[w], t1[t][w], tears);
    }
    LandedSame(b[w], c[w], tears);
  }

  lemma RetireMasks(t0: seq<Cells>, t1: seq<Cells>, c: Cells, b: Cells, w: nat, tears: bool)
    requires w < |b| && TrailWord(t0, t1, b, w, Retired(b[w]), tears) && WordLanded(b, c, w, Retired(b[w]), tears)
    ensures TrailWord(t0, t1, b, w, 0x00FF, tears) && WordLanded(b, c, w, 0x00FF, tears)
  {
    hide Landed, Retired;
    forall t | |t0| <= t < |t1| ensures WordLanded(b, t1[t], w, 0x00FF, tears) {
      assert WordLanded(b, t1[t], w, Retired(b[w]), tears);
      LandedRetired(b[w], t1[t][w], tears);
    }
    LandedRetired(b[w], c[w], tears);
  }

  lemma CopyWordOpen(g: Geometry, c0: Cells, sh: seq<ShadowEntry>, o: nat)
    requires ValidState(g, c0, sh)
    ensures SigOpen(CopyWord(g, c0, sh, o, SIG_WORD))
  {
    hide SigOpen, Opened;
    OpenedIsOpen(if sh[SIG_WORD].modified then sh[SIG_WORD].value else c0[g.Base(o) + SIG_WORD]);
  }
}
