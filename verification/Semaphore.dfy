/** The two-level lock of the 80003ES2LAN: SWSM.SMBI keeps drivers apart, SWSM.SWESMBI keeps
    the drivers and the firmware apart, and both guard SW_FW_SYNC, whose bits say who owns
    a resource. Every register access is one step; steps of all agents interleave freely.
    A 16-bit half of SW_FW_SYNC is the set of its bit numbers that are 1. */
module Semaphore {

  type Mask = set<nat>

  const SWFW_TIMEOUT: nat := 50

  datatype Call = Acquire(mask: Mask, tries: nat) | Release(mask: Mask)

  /** Why put_hw_semaphore runs: the sync register was written, was busy, or could not be
      reached because SWESMBI would not latch. */
  datatype After = Written | Busy | NotLatched

  datatype Swsm = Swsm(smbi: bool, swesmbi: bool)
  datatype Sync = Sync(sw: Mask, fw: Mask)

  /** Where a driver is: the register access it makes next, with its local values. */
  datatype Pc =
    | Idle
    | Spin(call: Call, i: nat)
    | LatchRead(call: Call, i: nat)
    | LatchWrite(call: Call, i: nat, swsm: Swsm)
    | LatchCheck(call: Call, i: nat)
    | SyncRead(call: Call)
    | SyncWrite(call: Call, sync: Sync)
    | PutRead(call: Call, after: After)
    | PutWrite(call: Call, after: After, swsm: Swsm)

  /** `held` is what the driver was granted and has not given back. */
  datatype Agent = Agent(pc: Pc, held: Mask)

  datatype FwPc = FwIdle | FwLatched | FwWrite(take: bool, mask: Mask, sync: Sync)

  datatype State = State(swsm: Swsm, fwsm: bool, sync: Sync, agents: seq<Agent>, fw: FwPc, fwHeld: Mask)

  // ---- register accesses --------------------------------------------------------------

  /** Reading SWSM returns it and sets SMBI. */
  function ReadSwsm(s: State): State { s.(swsm := s.swsm.(smbi := true)) }

  /** SWESMBI latches only while the firmware does not hold its own semaphore. */
  function WriteSwsm(s: State, v: Swsm): State {
    s.(swsm := Swsm(v.smbi, v.swesmbi && !s.fwsm))
  }

  function Goto(s: State, a: nat, pc: Pc): State
    requires a < |s.agents|
  {
    s.(agents := s.agents[a := s.agents[a].(pc := pc)])
  }

  // ---- one step of a driver -----------------------------------------------------------

  /** What a call does when the hardware semaphore cannot be had: acquire returns an error,
      release tries again. */
  function Refused(call: Call): Pc {
    if call.Acquire? then Idle else Spin(call, 0)
  }

  /** What follows put_hw_semaphore. */
  function AfterPut(call: Call, after: After): Pc {
    match after
    case Written => Idle
    case NotLatched => Refused(call)
    case Busy =>
      if call.Acquire? && call.tries + 1 < SWFW_TIMEOUT then Spin(Acquire(call.mask, call.tries + 1), 0) else Idle
  }

  function Granted(held: Mask, call: Call): Mask {
    if call.Acquire? then held + call.mask else held - call.mask
  }

  function NewSync(v: Sync, call: Call): Sync {
    if call.Acquire? then v.(sw := v.sw + call.mask) else v.(sw := v.sw - call.mask)
  }

  /** The next step of driver `a`; an idle driver starts `call`. `timeout` is the bound of
      both semaphore loops. */
  function DriverStep(s: State, a: nat, call: Call, timeout: nat): State
    requires a < |s.agents|
  {
    var me := s.agents[a];
    match me.pc
    case Idle => Goto(s, a, Spin(call, 0))
    case Spin(c, i) =>
      if i >= timeout then Goto(s, a, Refused(c))
      else if s.swsm.smbi then Goto(ReadSwsm(s), a, Spin(c, i + 1))
      else Goto(ReadSwsm(s), a, LatchRead(c, 0))
    case LatchRead(c, i) =>
      if i >= timeout then Goto(s, a, PutRead(c, NotLatched))
      else Goto(ReadSwsm(s), a, LatchWrite(c, i, s.swsm))
    case LatchWrite(c, i, v) => Goto(WriteSwsm(s, v.(swesmbi := true)), a, LatchCheck(c, i))
    case LatchCheck(c, i) =>
      if s.swsm.swesmbi then Goto(ReadSwsm(s), a, SyncRead(c)) else Goto(ReadSwsm(s), a, LatchRead(c, i + 1))
    case SyncRead(c) =>
      if c.Acquire? && !(s.sync.sw !! c.mask && s.sync.fw !! c.mask) then Goto(s, a, PutRead(c, Busy))
      else Goto(s, a, SyncWrite(c, s.sync))
    case SyncWrite(c, v) =>
      s.(sync := NewSync(v, c), agents := s.agents[a := Agent(PutRead(c, Written), Granted(me.held, c))])
    case PutRead(c, why) => Goto(ReadSwsm(s), a, PutWrite(c, why, s.swsm))
    case PutWrite(c, why, v) => Goto(WriteSwsm(s, Swsm(false, false)), a, AfterPut(c, why))
  }

  /** The next step of the firmware: it may latch its own semaphore only while SWESMBI is
      clear, and takes a resource only if no driver owns it. */
  function FirmwareStep(s: State, take: bool, mask: Mask): State {
    match s.fw
    case FwIdle => if s.swsm.swesmbi then s else s.(fwsm := true, fw := FwLatched)
    case FwLatched =>
      if (take && s.sync.sw !! mask) || (!take && mask <= s.fwHeld) then s.(fw := FwWrite(take, mask, s.sync))
      else s.(fwsm := false, fw := FwIdle)
    case FwWrite(t, m, v) =>
      s.(sync := v.(fw := if t then v.fw + m else v.fw - m),
         fwHeld := if t then s.fwHeld + m else s.fwHeld - m,
         fwsm := false, fw := FwIdle)
  }

  datatype Move = Driver(a: nat, call: Call) | Firmware(take: bool, mask: Mask)

  /** A driver gives back only what it holds, and starts acquiring with no tries used. */
  ghost predicate Fair(s: State, m: Move) {
    match m
    case Driver(a, c) => a < |s.agents| && (s.agents[a].pc.Idle? ==>
                           if c.Acquire? then c.tries == 0 else c.mask <= s.agents[a].held)
    case Firmware(_, _) => true
  }

  function Step(s: State, m: Move, timeout: nat): State
    requires m.Driver? ==> m.a < |s.agents|
  {
    match m
    case Driver(a, c) => DriverStep(s, a, c, timeout)
    case Firmware(t, k) => FirmwareStep(s, t, k)
  }

  // ---- the invariant ------------------------------------------------------------------

  /** Between the read that found SMBI clear and the write that clears it. */
  predicate InSection(pc: Pc) { !pc.Idle? && !pc.Spin? }

  /** Between the check that found SWESMBI latched and the write that clears it. */
  predicate Latched(pc: Pc) {
    pc.SyncRead? || pc.SyncWrite? || ((pc.PutRead? || pc.PutWrite?) && !pc.after.NotLatched?)
  }

  /** The call still has to write SW_FW_SYNC. */
  predicate Unwritten(pc: Pc) {
    !pc.Idle? && !((pc.PutRead? || pc.PutWrite?) && pc.after.Written?)
  }

  ghost predicate AgentOk(s: State, me: Agent) {
    var pc := me.pc;
    && me.held <= s.sync.sw && me.held !! s.fwHeld
    && (InSection(pc) ==> s.swsm.smbi)
    && (Latched(pc) ==> s.swsm.swesmbi)
    && (pc.LatchWrite? ==> pc.swsm.smbi)
    && (pc.SyncWrite? ==> pc.sync == s.sync)
    && (pc.SyncWrite? && pc.call.Acquire? ==> s.sync.sw !! pc.call.mask && s.sync.fw !! pc.call.mask)
    && (Unwritten(pc) && pc.call.Release? ==> pc.call.mask <= me.held)
    && ((pc.PutRead? || pc.PutWrite?) && pc.after.Busy? ==> pc.call.Acquire?)
  }

  ghost predicate AgentsOk(s: State) {
    forall a :: 0 <= a < |s.agents| ==> AgentOk(s, s.agents[a])
  }

  /** At most one driver is past its read of a clear SMBI. */
  ghost predicate OneInSection(s: State) {
    forall a, b :: 0 <= a < |s.agents| && 0 <= b < |s.agents| && a != b ==>
      !(InSection(s.agents[a].pc) && InSection(s.agents[b].pc))
  }

  /** No resource has two drivers as owners. */
  ghost predicate HeldApart(s: State) {
    forall a, b :: 0 <= a < |s.agents| && 0 <= b < |s.agents| && a != b ==> s.agents[a].held !! s.agents[b].held
  }

  /** A set software bit has an owner: nothing leaks. */
  ghost predicate BitsOwned(s: State) {
    forall r :: r in s.sync.sw ==> exists a :: 0 <= a < |s.agents| && r in s.agents[a].held
  }

  ghost predicate LatchOwned(s: State) {
    s.swsm.swesmbi ==> exists a :: 0 <= a < |s.agents| && InSection(s.agents[a].pc)
  }

  ghost predicate FirmwareOk(s: State) {
    && s.sync.fw == s.fwHeld
    && (s.fwsm <==> !s.fw.FwIdle?)
    && !(s.fwsm && s.swsm.swesmbi)
    && (s.fw.FwWrite? ==> s.fw.sync == s.sync && (if s.fw.take then s.sync.sw !! s.fw.mask else s.fw.mask <= s.fwHeld))
  }

  ghost predicate Inv(s: State) {
    AgentsOk(s) && OneInSection(s) && HeldApart(s) && BitsOwned(s) && LatchOwned(s) && FirmwareOk(s)
  }

  ghost predicate Init(s: State) {
    && s.swsm == Swsm(false, false) && !s.fwsm && s.sync == Sync({}, {}) && s.fw == FwIdle && s.fwHeld == {}
    && forall a :: 0 <= a < |s.agents| ==> s.agents[a] == Agent(Idle, {})
  }

  // ---- every step keeps it ------------------------------------------------------------

  /** A driver on its way to the semaphore keeps its own claims. */
  lemma OwnStepLatch(s: State, a: nat, call: Call, timeout: nat)
    requires Inv(s) && Fair(s, Driver(a, call))
    requires var pc := s.agents[a].pc; pc.Idle? || pc.Spin? || pc.LatchRead? || pc.LatchWrite? || pc.LatchCheck?
    ensures var s' := DriverStep(s, a, call, timeout); AgentOk(s', s'.agents[a])
  {
    hide OneInSection, BitsOwned, LatchOwned, HeldApart;
    assert AgentOk(s, s.agents[a]);
  }

  lemma OwnStepSync(s: State, a: nat, call: Call, timeout: nat)
    requires Inv(s) && Fair(s, Driver(a, call))
    requires var pc := s.agents[a].pc; pc.SyncRead? || pc.SyncWrite?
    ensures var s' := DriverStep(s, a, call, timeout); AgentOk(s', s'.agents[a])
  {
    hide OneInSection, BitsOwned, LatchOwned, HeldApart;
    assert AgentOk(s, s.agents[a]);
  }

  lemma OwnStepPut(s: State, a: nat, call: Call, timeout: nat)
    requires Inv(s) && Fair(s, Driver(a, call))
    requires var pc := s.agents[a].pc; pc.PutRead? || pc.PutWrite?
    ensures var s' := DriverStep(s, a, call, timeout); AgentOk(s', s'.agents[a])
  {
    hide OneInSection, BitsOwned, LatchOwned, HeldApart;
    assert AgentOk(s, s.agents[a]);
  }

  lemma OwnStep(s: State, a: nat, call: Call, timeout: nat)
    requires Inv(s) && Fair(s, Driver(a, call))
    ensures var s' := DriverStep(s, a, call, timeout); AgentOk(s', s'.agents[a])
  {
    hide AgentOk, DriverStep, Inv;
    var pc := s.agents[a].pc;
    if pc.SyncRead? || pc.SyncWrite? {
      OwnStepSync(s, a, call, timeout);
    } else if pc.PutRead? || pc.PutWrite? {
      OwnStepPut(s, a, call, timeout);
    } else {
      OwnStepLatch(s, a, call, timeout);
    }
  }

  lemma FirmwareUndisturbed(s: State, a: nat, call: Call, timeout: nat)
    requires Inv(s) && Fair(s, Driver(a, call))
    ensures FirmwareOk(DriverStep(s, a, call, timeout))
  {
    hide OneInSection, BitsOwned, LatchOwned, HeldApart;
    assert AgentOk(s, s.agents[a]);
  }

  /** A driver's step does not upset another driver: outside its section the other has
      nothing at stake in SWSM, and the resources of the two are apart. */
  lemma OtherStep(s: State, a: nat, b: nat, call: Call, timeout: nat)
    requires Inv(s) && Fair(s, Driver(a, call)) && b < |s.agents| && b != a
    ensures var s' := DriverStep(s, a, call, timeout);
      && s'.agents[b] == s.agents[b] && AgentOk(s', s.agents[b])
      && s'.agents[a].held !! s.agents[b].held
      && !(InSection(s'.agents[a].pc) && InSection(s.agents[b].pc))
  {
    hide BitsOwned, LatchOwned;
    assert AgentOk(s, s.agents[a]) && AgentOk(s, s.agents[b]);
    assert s.agents[a].held !! s.agents[b].held;
  }

  lemma DriverBits(s: State, a: nat, call: Call, timeout: nat)
    requires Inv(s) && Fair(s, Driver(a, call))
    ensures BitsOwned(DriverStep(s, a, call, timeout))
  {
    hide OneInSection, LatchOwned, HeldApart, FirmwareOk;
    var s' := DriverStep(s, a, call, timeout);
    assert AgentOk(s, s.agents[a]);
    forall r | r in s'.sync.sw ensures exists b :: 0 <= b < |s'.agents| && r in s'.agents[b].held {
      if r !in s'.agents[a].held {
        var b :| 0 <= b < |s.agents| && r in s.agents[b].held;
        assert b != a && s'.agents[b] == s.agents[b];
      }
    }
  }

  lemma DriverLatch(s: State, a: nat, call: Call, timeout: nat)
    requires Inv(s) && Fair(s, Driver(a, call))
    ensures LatchOwned(DriverStep(s, a, call, timeout))
  {
    hide HeldApart, BitsOwned;
    var s' := DriverStep(s, a, call, timeout);
    assert AgentOk(s, s.agents[a]);
    if s'.swsm.swesmbi && !InSection(s'.agents[a].pc) {
      var b :| 0 <= b < |s.agents| && InSection(s.agents[b].pc);
      assert b != a && s'.agents[b] == s.agents[b];
    }
  }

  lemma DriverKeeps(s: State, a: nat, call: Call, timeout: nat)
    requires Inv(s) && Fair(s, Driver(a, call))
    ensures Inv(DriverStep(s, a, call, timeout))
  {
    hide AgentOk, DriverStep, BitsOwned, LatchOwned, FirmwareOk;
    var s' := DriverStep(s, a, call, timeout);
    DriverCount(s, a, call, timeout);
    OwnStep(s, a, call, timeout);
    FirmwareUndisturbed(s, a, call, timeout);
    DriverBits(s, a, call, timeout);
    DriverLatch(s, a, call, timeout);
    forall b | 0 <= b < |s.agents| && b != a
      ensures s'.agents[b] == s.agents[b] && AgentOk(s', s'.agents[b])
      ensures s'.agents[a].held !! s.agents[b].held && !(InSection(s'.agents[a].pc) && InSection(s.agents[b].pc))
    {
      OtherStep(s, a, b, call, timeout);
    }
  }

  lemma DriverCount(s: State, a: nat, call: Call, timeout: nat)
    requires a < |s.agents|
    ensures |DriverStep(s, a, call, timeout).agents| == |s.agents|
  {
  }

  lemma FirmwareKeeps(s: State, take: bool, mask: Mask)
    requires Inv(s)
    ensures Inv(FirmwareStep(s, take, mask))
  {
    var s' := FirmwareStep(s, take, mask);
    forall b | 0 <= b < |s.agents| ensures AgentOk(s', s'.agents[b]) {
      assert AgentOk(s, s.agents[b]);
    }
  }

  // ---- whole runs ---------------------------------------------------------------------

  ghost predicate Run(ss: seq<State>, ms: seq<Move>, timeout: nat) {
    && |ss| == |ms| + 1 && Init(ss[0])
    && forall i :: 0 <= i < |ms| ==> Fair(ss[i], ms[i]) && ss[i + 1] == Step(ss[i], ms[i], timeout)
  }

  lemma {:induction false} RunKeeps(ss: seq<State>, ms: seq<Move>, timeout: nat, k: nat)
    requires Run(ss, ms, timeout) && k < |ss|
    ensures Inv(ss[k])
  {
    hide AgentOk;
    if k == 0 {
      forall a | 0 <= a < |ss[0].agents| ensures AgentOk(ss[0], ss[0].agents[a]) {
        FreshAgent(ss[0]);
      }
    } else {
      RunKeeps(ss, ms, timeout, k - 1);
      match ms[k - 1]
      case Driver(a, c) => DriverKeeps(ss[k - 1], a, c, timeout);
      case Firmware(t, m) => FirmwareKeeps(ss[k - 1], t, m);
    }
  }

  lemma FreshAgent(s: State)
    requires Init(s)
    ensures AgentOk(s, Agent(Idle, {}))
  {
  }

  /** Mutual exclusion in every reachable state: no resource has two owners, drivers or
      firmware, and a software bit is set exactly while one driver owns it. */
  lemma MutualExclusion(ss: seq<State>, ms: seq<Move>, timeout: nat, k: nat, r: nat)
    requires Run(ss, ms, timeout) && k < |ss|
    ensures var s := ss[k];
      && (forall a, b :: 0 <= a < |s.agents| && 0 <= b < |s.agents| && a != b ==>
            !(r in s.agents[a].held && r in s.agents[b].held))
      && (r in s.sync.sw <==> exists a :: 0 <= a < |s.agents| && r in s.agents[a].held)
      && (r in s.sync.fw <==> r in s.fwHeld)
      && !(r in s.sync.sw && r in s.sync.fw)
  {
    RunKeeps(ss, ms, timeout, k);
    var s := ss[k];
    forall a | 0 <= a < |s.agents| ensures s.agents[a].held <= s.sync.sw && s.agents[a].held !! s.fwHeld {
      assert AgentOk(s, s.agents[a]);
    }
  }

  /** The write that ends a release clears exactly the bits of its own mask, and the write
      that ends an acquire sets exactly its own; both leave the firmware's half alone. */
  lemma WritesOnlyItsMask(ss: seq<State>, ms: seq<Move>, timeout: nat, k: nat)
    requires Run(ss, ms, timeout) && k < |ms| && ms[k].Driver? && ss[k].agents[ms[k].a].pc.SyncWrite?
    ensures var s, s' := ss[k], ss[k + 1]; var c := s.agents[ms[k].a].pc.call;
      && s'.sync.fw == s.sync.fw
      && (c.Release? ==> s'.sync.sw == s.sync.sw - c.mask && c.mask <= s.sync.sw)
      && (c.Acquire? ==> s'.sync.sw == s.sync.sw + c.mask && c.mask !! s.sync.sw && c.mask !! s.sync.fw)
  {
    RunKeeps(ss, ms, timeout, k);
    assert AgentOk(ss[k], ss[k].agents[ms[k].a]);
  }

  /** Every return of acquire or release, granted or not, leaves the caller outside its
      section; unless it never got SMBI, both SWSM bits are clear when it returns. */
  lemma ReturnDropsSemaphore(ss: seq<State>, ms: seq<Move>, timeout: nat, k: nat)
    requires Run(ss, ms, timeout) && k < |ms| && ms[k].Driver?
    requires !ss[k].agents[ms[k].a].pc.Idle? && ss[k + 1].agents[ms[k].a].pc.Idle?
    ensures ss[k + 1].swsm == Swsm(false, false) || (ss[k].agents[ms[k].a].pc.Spin? && ss[k + 1].swsm == ss[k].swsm)
    ensures var s' := ss[k + 1]; InSection(ss[k].agents[ms[k].a].pc) ==>
      forall b :: 0 <= b < |s'.agents| ==> !InSection(s'.agents[b].pc)
  {
    RunKeeps(ss, ms, timeout, k);
    RunKeeps(ss, ms, timeout, k + 1);
    var s' := ss[k + 1];
    if InSection(ss[k].agents[ms[k].a].pc) {
      forall b | 0 <= b < |s'.agents| ensures !InSection(s'.agents[b].pc) {
        assert AgentOk(s', s'.agents[b]);
      }
    }
  }
}
