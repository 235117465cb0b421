/** What becomes of a whole call of acquire or release, whatever the other drivers and the
    firmware do between its steps. */
module SemaphoreRuns {
  import opened Semaphore

  /** Step x of the run is one of driver a. */
  ghost predicate Own(ms: seq<Move>, a: nat, x: nat) { x < |ms| && ms[x].Driver? && ms[x].a == a }

  function PcAt(ss: seq<State>, a: nat, x: nat): Pc {
    if x < |ss| && a < |ss[x].agents| then ss[x].agents[a].pc else Idle
  }

  function HeldAt(ss: seq<State>, a: nat, x: nat): Mask {
    if x < |ss| && a < |ss[x].agents| then ss[x].agents[a].held else {}
  }

  /** What an own step does to the driver, and that another step does nothing to it. */
  lemma OneStep(ss: seq<State>, ms: seq<Move>, timeout: nat, a: nat, x: nat)
    requires Run(ss, ms, timeout) && x < |ms| && a < |ss[x].agents|
    ensures a < |ss[x + 1].agents|
    ensures !Own(ms, a, x) ==> PcAt(ss, a, x + 1) == PcAt(ss, a, x) && HeldAt(ss, a, x + 1) == HeldAt(ss, a, x)
    ensures Own(ms, a, x) ==> ss[x + 1] == DriverStep(ss[x], a, ms[x].call, timeout)
  {
    hide Init, Refused, AfterPut;
    assert Fair(ss[x], ms[x]) && ss[x + 1] == Step(ss[x], ms[x], timeout);
  }

  // ---- a register that is read while the mask is free -----------------------------------

  /** y is the next step of driver a after x. */
  ghost predicate NextOwn(ms: seq<Move>, a: nat, x: nat, y: nat) {
    x < y && Own(ms, a, y) && forall z :: x < z < y ==> !Own(ms, a, z)
  }

  lemma {:induction false} Waits(ss: seq<State>, ms: seq<Move>, timeout: nat, a: nat, x: nat, y: nat)
    requires Run(ss, ms, timeout) && x <= y < |ss| && a < |ss[x].agents|
    requires forall z :: x <= z < y ==> !Own(ms, a, z)
    ensures a < |ss[y].agents| && PcAt(ss, a, y) == PcAt(ss, a, x) && HeldAt(ss, a, y) == HeldAt(ss, a, x)
    decreases y
  {
    hide Run, Own;
    if x < y {
      Waits(ss, ms, timeout, a, x, y - 1);
      RunLength(ss, ms, timeout);
      OneStep(ss, ms, timeout, a, y - 1);
    }
  }

  lemma RunLength(ss: seq<State>, ms: seq<Move>, timeout: nat)
    requires Run(ss, ms, timeout)
    ensures |ss| == |ms| + 1
  {
  }

  lemma NextStep(ss: seq<State>, ms: seq<Move>, timeout: nat, a: nat, x: nat, y: nat)
    requires Run(ss, ms, timeout) && x < |ms| && a < |ss[x].agents| && NextOwn(ms, a, x, y)
    ensures y < |ms| && a < |ss[y].agents| && a < |ss[y + 1].agents|
    ensures PcAt(ss, a, y) == PcAt(ss, a, x + 1) && HeldAt(ss, a, y) == HeldAt(ss, a, x + 1)
    ensures ss[y + 1] == DriverStep(ss[y], a, ms[y].call, timeout)
  {
    hide DriverStep;
    RunLength(ss, ms, timeout);
    OneStep(ss, ms, timeout, a, x);
    Waits(ss, ms, timeout, a, x + 1, y);
    OneStep(ss, ms, timeout, a, y);
  }

  /** A driver that reads SW_FW_SYNC for an acquire while no bit of its mask is set in either
      half, or for a release, writes the register with its next step, which sets or clears
      exactly its mask; two steps later it returns, with the mask granted or given back. */
  lemma FreeMaskIsGranted(ss: seq<State>, ms: seq<Move>, timeout: nat, a: nat, k: nat, k1: nat, k2: nat, k3: nat)
    requires Run(ss, ms, timeout) && Own(ms, a, k) && PcAt(ss, a, k).SyncRead?
    requires var c := PcAt(ss, a, k).call;
      c.Acquire? ==> forall r :: r in c.mask ==> r !in ss[k].sync.sw && r !in ss[k].sync.fw
    requires NextOwn(ms, a, k, k1) && NextOwn(ms, a, k1, k2) && NextOwn(ms, a, k2, k3)
    ensures k3 < |ms| && |ss| == |ms| + 1
    ensures var c, before, after := PcAt(ss, a, k).call, ss[k1].sync, ss[k1 + 1].sync;
      && after.fw == before.fw
      && after.sw == (if c.Acquire? then before.sw + c.mask else before.sw - c.mask)
      && PcAt(ss, a, k3 + 1) == Idle
      && HeldAt(ss, a, k3 + 1) == if c.Acquire? then HeldAt(ss, a, k) + c.mask else HeldAt(ss, a, k) - c.mask
  {
    hide Run, NextOwn;
    RunLength(ss, ms, timeout);
    NextStep(ss, ms, timeout, a, k, k1);
    OneStep(ss, ms, timeout, a, k);
    NextStep(ss, ms, timeout, a, k1, k2);
    NextStep(ss, ms, timeout, a, k2, k3);
    RunKeeps(ss, ms, timeout, k1);
    SyncIsFresh(ss[k1], a);
  }

  /** The value to be written back is still the one in the register. */
  lemma SyncIsFresh(s: State, a: nat)
    requires Inv(s) && a < |s.agents|
    ensures s.agents[a].pc.SyncWrite? ==> s.agents[a].pc.sync == s.sync
  {
    assert AgentOk(s, s.agents[a]);
  }

  // ---- why an acquire fails ---------------------------------------------------------------

  datatype Kind = AnyStep | Check | Reading

  ghost predicate Counts(kind: Kind, pc: Pc) {
    match kind
    case AnyStep => true
    case Check => pc.LatchCheck?
    case Reading => pc.SyncRead?
  }

  /** The steps of driver a of the given kind among steps lo..hi of the run. */
  ghost function Tally(ss: seq<State>, ms: seq<Move>, a: nat, kind: Kind, lo: nat, hi: nat): nat {
    if hi <= lo then 0 else
      Tally(ss, ms, a, kind, lo, hi - 1) + if Own(ms, a, hi - 1) && Counts(kind, PcAt(ss, a, hi - 1)) then 1 else 0
  }

  /** From step p on, the driver has done nothing but read SWSM, n times, and found SMBI set. */
  ghost predicate FoundSmbi(ss: seq<State>, ms: seq<Move>, a: nat, p: nat, k: nat, n: nat) {
    p <= k < |ss| && Tally(ss, ms, a, AnyStep, p, k) == n &&
    forall x :: p <= x < k && Own(ms, a, x) ==> PcAt(ss, a, x).Spin? && ss[x].swsm.smbi
  }

  /** From step p on, it has looked n times whether SWESMBI had latched, and it never had. */
  ghost predicate FoundUnlatched(ss: seq<State>, ms: seq<Move>, a: nat, p: nat, k: nat, n: nat) {
    p <= k < |ss| && Tally(ss, ms, a, Check, p, k) == n &&
    forall x :: p <= x < k && Own(ms, a, x) && PcAt(ss, a, x).LatchCheck? ==> !ss[x].swsm.swesmbi
  }

  ghost predicate BitSet(s: State, mask: Mask) { exists r :: r in mask && (r in s.sync.sw || r in s.sync.fw) }

  /** From step p on, it has read SW_FW_SYNC n times, each time with a bit of its mask set. */
  ghost predicate FoundBusy(ss: seq<State>, ms: seq<Move>, a: nat, p: nat, k: nat, n: nat, mask: Mask) {
    p <= k < |ss| && Tally(ss, ms, a, Reading, p, k) == n &&
    forall x :: p <= x < k && Own(ms, a, x) && PcAt(ss, a, x).SyncRead? ==> BitSet(ss[x], mask)
  }

  ghost predicate SomeSmbi(ss: seq<State>, ms: seq<Move>, a: nat, b: nat, k: nat, n: nat) {
    exists p :: b <= p && FoundSmbi(ss, ms, a, p, k, n)
  }

  ghost predicate SomeUnlatched(ss: seq<State>, ms: seq<Move>, a: nat, b: nat, k: nat, n: nat) {
    exists p :: b <= p && FoundUnlatched(ss, ms, a, p, k, n)
  }

  /** A call of acquire that started at step b, before step k. */
  ghost predicate Trying(ss: seq<State>, ms: seq<Move>, timeout: nat, a: nat, b: nat, k: nat, mask: Mask, held: Mask) {
    var pc := PcAt(ss, a, k);
    && !pc.Idle? && pc.call.Acquire? && pc.call.mask == mask && pc.call.tries < SWFW_TIMEOUT
    && HeldAt(ss, a, k) == (if (pc.PutRead? || pc.PutWrite?) && pc.after.Written? then held + mask else held)
    && match pc
       case Spin(c, i) => i <= timeout && FoundBusy(ss, ms, a, b, k, c.tries, mask) && SomeSmbi(ss, ms, a, b, k, i)
       case LatchRead(c, i) =>
         i <= timeout && FoundBusy(ss, ms, a, b, k, c.tries, mask) && SomeUnlatched(ss, ms, a, b, k, i)
       case LatchWrite(c, i, _) =>
         i < timeout && FoundBusy(ss, ms, a, b, k, c.tries, mask) && SomeUnlatched(ss, ms, a, b, k, i)
       case LatchCheck(c, i) =>
         i < timeout && FoundBusy(ss, ms, a, b, k, c.tries, mask) && SomeUnlatched(ss, ms, a, b, k, i)
       case SyncRead(c) => FoundBusy(ss, ms, a, b, k, c.tries, mask)
       case SyncWrite(_, _) => true
       case PutRead(c, why) => Because(ss, ms, timeout, a, b, k, c, why)
       case PutWrite(c, why, _) => Because(ss, ms, timeout, a, b, k, c, why)
  }

  ghost predicate Because(ss: seq<State>, ms: seq<Move>, timeout: nat, a: nat, b: nat, k: nat, c: Call, why: After)
    requires c.Acquire?
  {
    match why
    case Written => true
    case Busy => FoundBusy(ss, ms, a, b, k, c.tries + 1, c.mask)
    case NotLatched => SomeUnlatched(ss, ms, a, b, k, timeout)
  }

  /** Whether step k is one of driver a and of the given kind. */
  ghost predicate IsStep(ss: seq<State>, ms: seq<Move>, a: nat, kind: Kind, k: nat) {
    Own(ms, a, k) && Counts(kind, PcAt(ss, a, k))
  }

  lemma SmbiMore(ss: seq<State>, ms: seq<Move>, a: nat, b: nat, k: nat, n: nat)
    requires SomeSmbi(ss, ms, a, b, k, n) && k + 1 < |ss|
    requires Own(ms, a, k) ==> PcAt(ss, a, k).Spin? && ss[k].swsm.smbi
    ensures SomeSmbi(ss, ms, a, b, k + 1, if Own(ms, a, k) then n + 1 else n)
  {
    var p :| b <= p && FoundSmbi(ss, ms, a, p, k, n);
    hide Own, PcAt;
    assert FoundSmbi(ss, ms, a, p, k + 1, if Own(ms, a, k) then n + 1 else n);
  }

  lemma UnlatchedMore(ss: seq<State>, ms: seq<Move>, a: nat, b: nat, k: nat, n: nat)
    requires SomeUnlatched(ss, ms, a, b, k, n) && k + 1 < |ss|
    requires IsStep(ss, ms, a, Check, k) ==> !ss[k].swsm.swesmbi
    ensures SomeUnlatched(ss, ms, a, b, k + 1, if IsStep(ss, ms, a, Check, k) then n + 1 else n)
  {
    var p :| b <= p && FoundUnlatched(ss, ms, a, p, k, n);
    hide Own, PcAt;
    assert FoundUnlatched(ss, ms, a, p, k + 1, if IsStep(ss, ms, a, Check, k) then n + 1 else n);
  }

  lemma BusyMore(ss: seq<State>, ms: seq<Move>, a: nat, b: nat, k: nat, n: nat, mask: Mask)
    requires FoundBusy(ss, ms, a, b, k, n, mask) && k + 1 < |ss|
    requires IsStep(ss, ms, a, Reading, k) ==> BitSet(ss[k], mask)
    ensures FoundBusy(ss, ms, a, b, k + 1, if IsStep(ss, ms, a, Reading, k) then n + 1 else n, mask)
  {
    hide Own, PcAt, BitSet;
  }

  /** Counting starts afresh. */
  lemma NoneYet(ss: seq<State>, ms: seq<Move>, a: nat, b: nat, k: nat)
    requires b <= k < |ss|
    ensures SomeSmbi(ss, ms, a, b, k, 0) && SomeUnlatched(ss, ms, a, b, k, 0)
  {
    assert FoundSmbi(ss, ms, a, k, k, 0) && FoundUnlatched(ss, ms, a, k, k, 0);
  }

  lemma BitSetIff(s: State, mask: Mask)
    ensures BitSet(s, mask) <==> !(s.sync.sw !! mask && s.sync.fw !! mask)
  {
    if r :| r in mask && (r in s.sync.sw || r in s.sync.fw) {
      assert r in s.sync.sw * mask || r in s.sync.fw * mask;
    }
  }

  lemma TryingOther(ss: seq<State>, ms: seq<Move>, timeout: nat, a: nat, b: nat, k: nat, mask: Mask, held: Mask)
    requires Run(ss, ms, timeout) && k < |ms| && a < |ss[k].agents| && b <= k
    requires Trying(ss, ms, timeout, a, b, k, mask, held) && !Own(ms, a, k)
    ensures Trying(ss, ms, timeout, a, b, k + 1, mask, held)
  {
    RunLength(ss, ms, timeout);
    OneStep(ss, ms, timeout, a, k);
    hide Run, Own, PcAt, HeldAt, SomeSmbi, SomeUnlatched, FoundBusy;
    TryingFacts(ss, ms, timeout, a, b, k, mask, held);
  }

  lemma TryingFacts(ss: seq<State>, ms: seq<Move>, timeout: nat, a: nat, b: nat, k: nat, mask: Mask, held: Mask)
    requires b <= k && k + 1 < |ss| && !Own(ms, a, k)
    ensures forall n :: SomeSmbi(ss, ms, a, b, k, n) ==> SomeSmbi(ss, ms, a, b, k + 1, n)
    ensures forall n :: SomeUnlatched(ss, ms, a, b, k, n) ==> SomeUnlatched(ss, ms, a, b, k + 1, n)
    ensures forall n :: FoundBusy(ss, ms, a, b, k, n, mask) ==> FoundBusy(ss, ms, a, b, k + 1, n, mask)
  {
    hide SomeSmbi, SomeUnlatched, FoundBusy, Own;
    forall n | SomeSmbi(ss, ms, a, b, k, n) ensures SomeSmbi(ss, ms, a, b, k + 1, n) {
      SmbiMore(ss, ms, a, b, k, n);
    }
    forall n | SomeUnlatched(ss, ms, a, b, k, n) ensures SomeUnlatched(ss, ms, a, b, k + 1, n) {
      UnlatchedMore(ss, ms, a, b, k, n);
    }
    forall n | FoundBusy(ss, ms, a, b, k, n, mask) ensures FoundBusy(ss, ms, a, b, k + 1, n, mask) {
      BusyMore(ss, ms, a, b, k, n, mask);
    }
  }

  /** An own step of the call, unless it returns. */
  lemma TryingOwn(ss: seq<State>, ms: seq<Move>, timeout: nat, a: nat, b: nat, k: nat, mask: Mask, held: Mask)
    requires Run(ss, ms, timeout) && k < |ms| && a < |ss[k].agents| && b <= k
    requires Trying(ss, ms, timeout, a, b, k, mask, held) && Own(ms, a, k) && !PcAt(ss, a, k + 1).Idle?
    ensures Trying(ss, ms, timeout, a, b, k + 1, mask, held)
  {
    hide Run, SomeSmbi, SomeUnlatched, FoundBusy, BitSet, Own;
    RunLength(ss, ms, timeout);
    OneStep(ss, ms, timeout, a, k);
    NoneYet(ss, ms, a, b, k + 1);
    BitSetIff(ss[k], mask);
    match PcAt(ss, a, k) {
      case Spin(c, i) =>
        BusyMore(ss, ms, a, b, k, c.tries, mask);
        if ss[k].swsm.smbi { SmbiMore(ss, ms, a, b, k, i); }
      case LatchRead(c, i) =>
        BusyMore(ss, ms, a, b, k, c.tries, mask);
        UnlatchedMore(ss, ms, a, b, k, i);
      case LatchWrite(c, i, _) =>
        BusyMore(ss, ms, a, b, k, c.tries, mask);
        UnlatchedMore(ss, ms, a, b, k, i);
      case LatchCheck(c, i) =>
        BusyMore(ss, ms, a, b, k, c.tries, mask);
        if !ss[k].swsm.swesmbi { UnlatchedMore(ss, ms, a, b, k, i); }
      case SyncRead(c) =>
        if BitSet(ss[k], mask) { BusyMore(ss, ms, a, b, k, c.tries, mask); }
      case SyncWrite(_, _) =>
      case PutRead(c, why) => PutMore(ss, ms, timeout, a, b, k, c, why);
      case PutWrite(c, why, _) => PutMore(ss, ms, timeout, a, b, k, c, why);
    }
  }

  lemma PutMore(ss: seq<State>, ms: seq<Move>, timeout: nat, a: nat, b: nat, k: nat, c: Call, why: After)
    requires b <= k && k + 1 < |ss| && c.Acquire? && Because(ss, ms, timeout, a, b, k, c, why)
    requires PcAt(ss, a, k).PutRead? || PcAt(ss, a, k).PutWrite?
    ensures Because(ss, ms, timeout, a, b, k + 1, c, why)
  {
    hide SomeUnlatched, FoundBusy, PcAt;
    match why
    case Written =>
    case Busy => BusyMore(ss, ms, a, b, k, c.tries + 1, c.mask);
    case NotLatched => UnlatchedMore(ss, ms, a, b, k, timeout);
  }

  /** A call of driver a that starts with step b and returns with step e. */
  ghost predicate WholeCall(ss: seq<State>, ms: seq<Move>, a: nat, b: nat, e: nat) {
    && b < e < |ms| && |ss| == |ms| + 1 && a < |ss[b].agents| && Own(ms, a, b) && Own(ms, a, e)
    && PcAt(ss, a, b) == Idle && PcAt(ss, a, e + 1) == Idle
    && forall x :: b < x <= e ==> PcAt(ss, a, x) != Idle
  }

  lemma InCall(ss: seq<State>, ms: seq<Move>, a: nat, b: nat, e: nat, k: nat)
    requires WholeCall(ss, ms, a, b, e) && b < k <= e
    ensures k < |ms| && |ss| == |ms| + 1 && !PcAt(ss, a, k).Idle?
    ensures PcAt(ss, a, b) == Idle && a < |ss[b].agents| && Own(ms, a, b)
  {
  }

  /** One step further, whoever makes it. */
  lemma TryingStep(ss: seq<State>, ms: seq<Move>, timeout: nat, a: nat, b: nat, k: nat, mask: Mask, held: Mask)
    requires Run(ss, ms, timeout) && b <= k < |ms| && |ss| == |ms| + 1 && a < |ss[k].agents|
    requires Trying(ss, ms, timeout, a, b, k, mask, held) && !PcAt(ss, a, k + 1).Idle?
    ensures a < |ss[k + 1].agents| && Trying(ss, ms, timeout, a, b, k + 1, mask, held)
  {
    hide *;
    OneStep(ss, ms, timeout, a, k);
    if Own(ms, a, k) {
      TryingOwn(ss, ms, timeout, a, b, k, mask, held);
    } else {
      TryingOther(ss, ms, timeout, a, b, k, mask, held);
    }
  }

  lemma {:induction false} TryingAlways(ss: seq<State>, ms: seq<Move>, timeout: nat, a: nat, b: nat, e: nat, k: nat,
      mask: Mask, held: Mask)
    requires Run(ss, ms, timeout) && WholeCall(ss, ms, a, b, e) && b < k <= e
    requires a < |ss[b + 1].agents| && Trying(ss, ms, timeout, a, b, b + 1, mask, held)
    ensures |ss| == |ms| + 1 && a < |ss[k].agents| && Trying(ss, ms, timeout, a, b, k, mask, held)
    decreases k
  {
    hide *;
    InCall(ss, ms, a, b, e, k);
    if k > b + 1 {
      TryingAlways(ss, ms, timeout, a, b, e, k - 1, mask, held);
      TryingStep(ss, ms, timeout, a, b, k - 1, mask, held);
    }
  }

  lemma FirstStep(ss: seq<State>, ms: seq<Move>, timeout: nat, a: nat, b: nat)
    requires Run(ss, ms, timeout) && b < |ms| && a < |ss[b].agents| && Own(ms, a, b)
    requires PcAt(ss, a, b) == Idle && ms[b].call.Acquire?
    ensures a < |ss[b + 1].agents| && Trying(ss, ms, timeout, a, b, b + 1, ms[b].call.mask, HeldAt(ss, a, b))
  {
    RunLength(ss, ms, timeout);
    OneStep(ss, ms, timeout, a, b);
    assert Fair(ss[b], ms[b]);
    hide Run, SomeSmbi, SomeUnlatched;
    NoneYet(ss, ms, a, b, b + 1);
    assert Tally(ss, ms, a, Reading, b, b) == 0;
  }

  /** An acquire returns with its mask granted, or it returns with nothing changed and either
      SMBI was set at each of its `timeout` readings of one attempt, or SWESMBI had not latched
      at any of its `timeout` looks, or a bit of its own mask was set at each of its
      SWFW_TIMEOUT readings of SW_FW_SYNC. */
  lemma AcquireReturns(ss: seq<State>, ms: seq<Move>, timeout: nat, a: nat, b: nat, e: nat)
    requires Run(ss, ms, timeout) && WholeCall(ss, ms, a, b, e) && ms[b].call.Acquire?
    ensures var mask, held := ms[b].call.mask, HeldAt(ss, a, b);
      || HeldAt(ss, a, e + 1) == held + mask
      || (HeldAt(ss, a, e + 1) == held
          && (SomeSmbi(ss, ms, a, b, e, timeout) || SomeUnlatched(ss, ms, a, b, e, timeout)
              || FoundBusy(ss, ms, a, b, e, SWFW_TIMEOUT, mask)))
  {
    FirstStep(ss, ms, timeout, a, b);
    TryingAlways(ss, ms, timeout, a, b, e, e, ms[b].call.mask, HeldAt(ss, a, b));
    OneStep(ss, ms, timeout, a, e);
    hide Run, SomeSmbi, SomeUnlatched, FoundBusy, Own;
  }

  // ---- a release always ends with the mask given back -------------------------------------

  ghost predicate Releasing(ss: seq<State>, a: nat, k: nat, mask: Mask, held: Mask) {
    var pc := PcAt(ss, a, k);
    && !pc.Idle? && pc.call == Release(mask)
    && HeldAt(ss, a, k) == (if (pc.PutRead? || pc.PutWrite?) && pc.after.Written? then held - mask else held)
  }

  lemma ReleasingStep(ss: seq<State>, ms: seq<Move>, timeout: nat, a: nat, k: nat, mask: Mask, held: Mask)
    requires Run(ss, ms, timeout) && k < |ms| && a < |ss[k].agents| && !PcAt(ss, a, k + 1).Idle?
    requires
      if PcAt(ss, a, k).Idle? then Own(ms, a, k) && ms[k].call == Release(mask) && HeldAt(ss, a, k) == held
      else Releasing(ss, a, k, mask, held)
    ensures a < |ss[k + 1].agents| && Releasing(ss, a, k + 1, mask, held)
  {
    OneStep(ss, ms, timeout, a, k);
    RunLength(ss, ms, timeout);
    hide Run, Own;
  }

  lemma {:induction false} ReleasingAlways(ss: seq<State>, ms: seq<Move>, timeout: nat, a: nat, b: nat, e: nat, k: nat,
      mask: Mask, held: Mask)
    requires Run(ss, ms, timeout) && WholeCall(ss, ms, a, b, e) && b < k <= e
    requires a < |ss[b + 1].agents| && Releasing(ss, a, b + 1, mask, held)
    ensures |ss| == |ms| + 1 && a < |ss[k].agents| && Releasing(ss, a, k, mask, held)
    decreases k
  {
    hide *;
    InCall(ss, ms, a, b, e, k);
    if k > b + 1 {
      InCall(ss, ms, a, b, e, k - 1);
      ReleasingAlways(ss, ms, timeout, a, b, e, k - 1, mask, held);
      ReleasingStep(ss, ms, timeout, a, k - 1, mask, held);
    }
  }

  /** A release returns only with its mask given back. */
  lemma ReleaseReturns(ss: seq<State>, ms: seq<Move>, timeout: nat, a: nat, b: nat, e: nat)
    requires Run(ss, ms, timeout) && WholeCall(ss, ms, a, b, e) && ms[b].call.Release?
    ensures HeldAt(ss, a, e + 1) == HeldAt(ss, a, b) - ms[b].call.mask
  {
    InCall(ss, ms, a, b, e, b + 1);
    ReleasingStep(ss, ms, timeout, a, b, ms[b].call.mask, HeldAt(ss, a, b));
    ReleasingAlways(ss, ms, timeout, a, b, e, e, ms[b].call.mask, HeldAt(ss, a, b));
    RunKeeps(ss, ms, timeout, e);
    OneStep(ss, ms, timeout, a, e);
    hide Run;
    NotBusy(ss[e], a);
  }

  lemma NotBusy(s: State, a: nat)
    requires Inv(s) && a < |s.agents|
    ensures var pc := s.agents[a].pc; (pc.PutRead? || pc.PutWrite?) && pc.after.Busy? ==> pc.call.Acquire?
  {
    assert AgentOk(s, s.agents[a]);
  }
}
