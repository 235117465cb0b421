/** Transmit, cleaning and hardware completion interleaved step by step: each step is one
    access to shared ring state, or the work on one slot that its side owns, in the order of
    the driver's code. The stop/wake handshake of the queue is part of it. */
module TxMachine {
  import opened Options
  import opened Paging
  import opened RingIndex
  import opened TxRingSpec

  const WAKE_THRESHOLD: int := 32

  /** A packet to send: whether it needs a context descriptor, and its number of pieces. */
  datatype Job = Job(ctx: bool, n: nat)

  /** The descriptors e1000_xmit_frame reserves, and the count it uses. */
  function Reserved(j: Job): nat { (if j.ctx then 1 else 0) + 1 + j.n }

  function Used(j: Job): nat { (if j.ctx then 1 else 0) + j.n }

  /** Where the transmit path is. `job` is what follows once there is room. */
  datatype TxPc =
    | TxIdle
    | Room(job: Option<Job>, size: nat)
    | Stop(job: Option<Job>, size: nat)
    | Recheck(job: Option<Job>, size: nat)
    | Restart(job: Option<Job>)
    | Context(n: nat)
    | Mapping(first: nat, m: nat, n: nat)
    | Queueing(first: nat, n: nat, j: nat)

  /** Where the cleaner is; `n` slots cleaned so far in this call, `eop` the index it read. */
  datatype CleanPc =
    | CleanIdle
    | ReadWatch(n: nat)
    | Test(eop: nat, n: nat)
    | Clean(eop: nat, n: nat)
    | Compare(n: nat)
    | PublishClean(n: nat)
    | TestRoom
    | TestStopped
    | Wake

  /** `pub` is the position last stored to next_to_clean; the ring's own `clean` runs ahead of
      it while the cleaner works. */
  datatype State = State(r: Ring, pub: nat, stopped: bool, tx: TxPc, cl: CleanPc)

  /** Slots mapped for the packet being built. */
  function M(tx: TxPc): nat {
    match tx
    case Mapping(_, m, _) => m
    case Queueing(_, n, _) => n
    case _ => 0
  }

  function Unused(s: State): int
    requires Sized(s.r)
  {
    DescUnused(s.r.count, Pos(s.r.count, s.pub), Pos(s.r.count, s.r.use))
  }

  // ---- the steps ------------------------------------------------------------------------

  function Go(s: State, job: Option<Job>): State {
    match job
    case None => s.(tx := TxIdle)
    case Some(j) => s.(tx := if j.ctx then Context(j.n) else Mapping(s.r.use, 0, j.n))
  }

  /** One step of the transmit path. An idle path takes up `job` unless the queue is stopped;
      `size` is the room it asks for after a packet. */
  function TxStep(s: State, job: Job, size: nat, piece: Piece): State
    requires Sized(s.r)
  {
    match s.tx
    case TxIdle => if s.stopped then s else s.(tx := Room(Some(job), Reserved(job) + 2))
    case Room(j, k) => if Unused(s) >= k then Go(s, j) else s.(tx := Stop(j, k))
    case Stop(j, k) => s.(stopped := true, tx := Recheck(j, k))
    case Recheck(j, k) => s.(tx := if Unused(s) < k then TxIdle else Restart(j))
    case Restart(j) => Go(s.(stopped := false), j)
    case Context(n) => s.(r := PutContext(s.r), tx := Mapping(s.r.use, 0, n))
    case Mapping(first, m, n) =>
      if m < n then s.(r := MapSlot(s.r, m, piece), tx := Mapping(first, m + 1, n))
      else if n == 0 then s.(tx := TxIdle)
      else s.(r := SetWatch(s.r, first, s.r.use + n - 1), tx := Queueing(first, n, 0))
    case Queueing(first, n, j) =>
      if j < n then s.(r := WriteDesc(s.r, s.r.use + j), tx := Queueing(first, n, j + 1))
      else s.(r := Publish(s.r, n), tx := Room(None, size))
  }

  /** One step of the cleaner. */
  function CleanStep(s: State): State
    requires Sized(s.r)
  {
    var i := Pos(s.r.count, s.r.clean);
    match s.cl
    case CleanIdle => s.(cl := ReadWatch(0))
    case ReadWatch(n) =>
      Split(s.r.count, s.r.clean);
      s.(cl := Test(s.r.slots[i].watch, n))
    case Test(eop, n) =>
      s.(cl := if eop < s.r.count && s.r.slots[eop].dd && n < s.r.count then Clean(eop, n) else PublishClean(n))
    case Clean(eop, n) =>
      s.(r := CleanSlot(s.r), cl := if i != eop then Clean(eop, n + 1) else Compare(n + 1))
    case Compare(n) => s.(cl := if i == Pos(s.r.count, s.r.use) then PublishClean(n) else ReadWatch(n))
    case PublishClean(n) => s.(pub := s.r.clean, cl := if n > 0 then TestRoom else CleanIdle)
    case TestRoom => s.(cl := if Unused(s) >= WAKE_THRESHOLD then TestStopped else CleanIdle)
    case TestStopped => s.(cl := if s.stopped then Wake else CleanIdle)
    case Wake => s.(stopped := false, cl := CleanIdle)
  }

  datatype Move = Transmit(job: Job, size: nat, piece: Piece) | Cleaner | Hardware(b: nat)

  /** Requests fit the ring; the hardware completes the oldest unfinished packet. */
  ghost predicate Allowed(s: State, m: Move) {
    match m
    case Transmit(job, size, _) => job.n >= 1 && Reserved(job) + 2 < s.r.count && 0 < size < s.r.count
    case Cleaner => true
    case Hardware(b) => Adjacent(s.r.cuts, s.r.done, b)
  }

  ghost function Step(s: State, m: Move): State
    requires Allowed(s, m)
  {
    if !Sized(s.r) then s else
    match m
    case Transmit(job, size, piece) => TxStep(s, job, size, piece)
    case Cleaner => CleanStep(s)
    case Hardware(b) => s.(r := Complete(s.r, b))
  }

  // ---- the invariant --------------------------------------------------------------------

  ghost predicate JobFits(s: State, job: Option<Job>, size: nat) {
    0 < size < s.r.count && (job.Some? ==> job.value.n >= 1 && size == Reserved(job.value) + 2)
  }

  /** At least three slots stay free once the job's `n` remaining descriptors are queued. */
  ghost predicate RoomFor(s: State, n: nat) { s.r.use + n + 3 <= s.pub + s.r.count - 1 }

  ghost predicate TxOk(s: State) {
    match s.tx
    case TxIdle => Building(s.r, s.r.use)
    case Room(j, k) => Building(s.r, s.r.use) && JobFits(s, j, k)
    case Stop(j, k) => Building(s.r, s.r.use) && JobFits(s, j, k)
    case Recheck(j, k) => Building(s.r, s.r.use) && JobFits(s, j, k)
    case Restart(j) => Building(s.r, s.r.use) && (j.Some? ==> j.value.n >= 1 && RoomFor(s, Used(j.value)))
    case Context(n) => Building(s.r, s.r.use) && n >= 1 && RoomFor(s, n + 1)
    case Mapping(first, m, n) => Building(s.r, first) && n >= 1 && m <= n && RoomFor(s, n)
    case Queueing(first, n, j) =>
      && Building(s.r, first) && n >= 1 && j <= n && RoomFor(s, n)
      && Sized(s.r) && At(s.r, first).watch == Pos(s.r.count, s.r.use + n - 1)
  }

  ghost predicate ClOk(s: State) {
    match s.cl
    case ReadWatch(n) => s.r.clean in s.r.cuts && n == s.r.clean - s.pub
    case Test(eop, n) => s.r.clean in s.r.cuts && n == s.r.clean - s.pub && eop < s.r.count
    case Clean(eop, n) => n == s.r.clean - s.pub && exists t :: Target(s.r, t, eop)
    case Compare(n) => s.r.clean in s.r.cuts && n == s.r.clean - s.pub
    case PublishClean(n) => s.r.clean in s.r.cuts && n == s.r.clean - s.pub
    case _ => s.r.clean in s.r.cuts && s.r.clean == s.pub
  }

  /** A stopped queue has been stopped by a path that is about to look again, or that found
      descriptors in flight; and if those are gone, a wake-up is on its way. */
  ghost predicate WakeOk(s: State) {
    && (s.stopped ==> s.tx.TxIdle? || s.tx.Recheck? || s.tx.Restart?)
    && (s.stopped && s.tx.TxIdle? ==> s.r.use > s.pub || s.cl.TestRoom? || s.cl.TestStopped? || s.cl.Wake?)
  }

  ghost predicate Inv(s: State) {
    && RingOk(s.r, M(s.tx)) && s.r.count >= 64
    && s.pub <= s.r.clean && s.r.use + M(s.tx) < s.pub + s.r.count
    && TxOk(s) && ClOk(s) && WakeOk(s)
  }

  lemma UnusedIs(s: State)
    requires Inv(s)
    ensures Unused(s) == s.r.count - 1 - (s.r.use - s.pub)
  {
    hide RingOk, TxOk, ClOk, WakeOk;
    SizedRing(s.r, M(s.tx));
    UnusedIsFree(s.r.count, s.pub, s.r.use);
  }

  lemma SizedRing(r: Ring, m: nat)
    requires RingOk(r, m)
    ensures Bounds(r, m) && WatchOk(r)
  {
  }

  /** The ring part of a transmit step. */
  lemma TxRingKeeps(s: State, job: Job, size: nat, piece: Piece)
    requires Inv(s) && Allowed(s, Transmit(job, size, piece))
    ensures var s' := TxStep(s, job, size, piece);
      RingOk(s'.r, M(s'.tx)) && s'.r.count == s.r.count && s'.r.clean == s.r.clean && s'.r.done == s.r.done
      && s.r.cuts <= s'.r.cuts
  {
    hide RingOk, WakeOk, ClOk, PutContext, MapSlot, SetWatch, WriteDesc, Unused;
    SizedRing(s.r, M(s.tx));
    match s.tx
    case Context(_) => ContextKeeps(s.r);
    case Mapping(first, m, n) => if m < n { MapKeeps(s.r, m, piece); } else { WatchKeeps(s.r, n, first); }
    case Queueing(first, n, j) => if j < n { WriteKeeps(s.r, n, s.r.use + j); } else { PublishKeeps(s.r, n, first); }
    case _ =>
  }

  ghost predicate OwnOk(s: State, s': State) {
    TxOk(s') && s'.pub == s.pub && s'.cl == s.cl && s'.r.use + M(s'.tx) < s.pub + s.r.count
  }

  /** The transmit path's own part: looking for room. */
  lemma TxRoomKeeps(s: State, job: Job, size: nat, piece: Piece)
    requires Inv(s) && Allowed(s, Transmit(job, size, piece))
    requires !s.tx.Context? && !s.tx.Mapping? && !s.tx.Queueing?
    ensures OwnOk(s, TxStep(s, job, size, piece))
  {
    hide RingOk, WakeOk, ClOk, Unused, Building;
    SizedRing(s.r, M(s.tx));
    UnusedIs(s);
  }

  /** Building a packet. */
  lemma TxContextKeeps(s: State, job: Job, size: nat, piece: Piece)
    requires Inv(s) && Allowed(s, Transmit(job, size, piece)) && s.tx.Context?
    ensures OwnOk(s, TxStep(s, job, size, piece))
  {
    hide RingOk, WakeOk, ClOk, PutContext;
    SizedRing(s.r, M(s.tx));
    ContextKeeps(s.r);
  }

  lemma TxMappingKeeps(s: State, job: Job, size: nat, piece: Piece)
    requires Inv(s) && Allowed(s, Transmit(job, size, piece)) && s.tx.Mapping?
    ensures OwnOk(s, TxStep(s, job, size, piece))
  {
    hide RingOk, WakeOk, ClOk, MapSlot, SetWatch, Pos;
    SizedRing(s.r, M(s.tx));
    var first, m, n := s.tx.first, s.tx.m, s.tx.n;
    if m < n {
      MapKeeps(s.r, m, piece);
    } else {
      WatchKeeps(s.r, n, first);
      SizedRing(SetWatch(s.r, first, s.r.use + n - 1), n);
    }
  }

  lemma TxQueueingKeeps(s: State, job: Job, size: nat, piece: Piece)
    requires Inv(s) && Allowed(s, Transmit(job, size, piece)) && s.tx.Queueing?
    ensures OwnOk(s, TxStep(s, job, size, piece))
  {
    hide RingOk, WakeOk, ClOk, WriteDesc, Pos;
    SizedRing(s.r, M(s.tx));
    var first, n, j := s.tx.first, s.tx.n, s.tx.j;
    if j < n {
      WriteKeeps(s.r, n, s.r.use + j);
      SizedRing(WriteDesc(s.r, s.r.use + j), n);
    } else {
      PublishKeeps(s.r, n, first);
    }
  }

  lemma TxWakeKeeps(s: State, job: Job, size: nat, piece: Piece)
    requires Inv(s) && Allowed(s, Transmit(job, size, piece))
    ensures WakeOk(TxStep(s, job, size, piece))
  {
    hide RingOk, ClOk, PutContext, MapSlot, SetWatch, WriteDesc, Unused;
    SizedRing(s.r, M(s.tx));
    UnusedIs(s);
  }

  /** The cleaner does not notice what the transmit path does behind it. */
  lemma ClStable(s: State, s': State)
    requires ClOk(s) && s'.cl == s.cl && s'.pub == s.pub
    requires s'.r.count == s.r.count && s'.r.clean == s.r.clean && s.r.done <= s'.r.done && s.r.cuts <= s'.r.cuts
    ensures ClOk(s')
  {
    match s.cl
    case Clean(eop, n) =>
      var t :| Target(s.r, t, eop);
      assert Target(s'.r, t, eop);
    case _ =>
  }

  lemma TxKeeps(s: State, job: Job, size: nat, piece: Piece)
    requires Inv(s) && Allowed(s, Transmit(job, size, piece))
    ensures Inv(TxStep(s, job, size, piece))
  {
    hide RingOk, TxOk, ClOk, WakeOk, TxStep;
    SizedRing(s.r, M(s.tx));
    TxRingKeeps(s, job, size, piece);
    match s.tx {
      case Context(_) => TxContextKeeps(s, job, size, piece);
      case Mapping(_, _, _) => TxMappingKeeps(s, job, size, piece);
      case Queueing(_, _, _) => TxQueueingKeeps(s, job, size, piece);
      case _ => TxRoomKeeps(s, job, size, piece);
    }
    TxWakeKeeps(s, job, size, piece);
    ClStable(s, TxStep(s, job, size, piece));
  }

  lemma HardwareKeeps(s: State, b: nat)
    requires Inv(s) && Allowed(s, Hardware(b))
    ensures Inv(s.(r := Complete(s.r, b)))
  {
    hide RingOk, ClOk, Complete, Adjacent, Pos;
    SizedRing(s.r, M(s.tx));
    BoundaryAfter(s.r.cuts, s.r.done, b);
    CompleteKeeps(s.r, M(s.tx), b);
    SizedRing(Complete(s.r, b), M(s.tx));
    ClStable(s, s.(r := Complete(s.r, b)));
  }

  lemma BoundaryAfter(cuts: set<nat>, a: nat, b: nat)
    requires Adjacent(cuts, a, b)
    ensures a < b && b in cuts
  {
  }

  lemma CleanSlotKeeps(s: State, eop: nat, n: nat)
    requires Inv(s) && s.cl == Clean(eop, n)
    ensures Sized(s.r) && WatchOk(s.r) && Inv(CleanStep(s))
  {
    hide RingOk, TxOk, CleanSlot, Pos, At, WatchOk;
    SizedRing(s.r, M(s.tx));
    var t :| Target(s.r, t, eop);
    CleanKeeps(s.r, M(s.tx));
    var r' := CleanSlot(s.r);
    SizedRing(r', M(s.tx));
    CleanerMovesOn(s, eop, n, t, r');
    BuildingOn(s, r');
    TxOkSame(s.(r := r'), CleanStep(s));
  }

  /** The cleaner goes on to the slot it aims for, or stops behind it at a packet boundary. */
  lemma CleanerMovesOn(s: State, eop: nat, n: nat, t: nat, r': Ring)
    requires Sized(s.r) && WatchOk(s.r) && Bounds(r', M(s.tx)) && s.cl == Clean(eop, n) && n == s.r.clean - s.pub
    requires Target(s.r, t, eop) && s.r.use < s.r.clean + s.r.count && s.r.done <= s.r.use
    requires r' == CleanSlot(s.r) && SameMarks(s.r.(clean := s.r.clean + 1), r')
    ensures ClOk(CleanStep(s))
  {
    hide CleanSlot, Pos, At, WatchOk;
    if Pos(s.r.count, s.r.clean) == eop {
      Apart(s.r.count, s.r.clean, t);
    } else {
      assert Target(r', t, eop);
    }
  }

  /** The packet being built lies beyond what is cleaned. */
  lemma BuildingOn(s: State, r': Ring)
    requires Inv(s) && s.r.clean < s.r.done && SameMarks(s.r.(clean := s.r.clean + 1), r')
    requires Sized(r') && forall q :: s.r.clean < q < s.r.clean + s.r.count ==> At(r', q) == At(s.r, q)
    ensures TxOk(s.(r := r'))
  {
    hide RingOk, ClOk, WakeOk;
    SizedRing(s.r, M(s.tx));
  }

  lemma TxOkSame(s: State, s': State)
    requires TxOk(s) && s'.r == s.r && s'.pub == s.pub && s'.tx == s.tx
    ensures TxOk(s')
  {
  }

  lemma CleanerKeeps(s: State)
    requires Inv(s)
    ensures Sized(s.r) && WatchOk(s.r) && Inv(CleanStep(s))
  {
    hide RingOk, TxOk, CleanSlot, Pos, Unused;
    SizedRing(s.r, M(s.tx));
    Split(s.r.count, s.r.clean);
    UnusedIs(s);
    if s.cl.Clean? {
      CleanSlotKeeps(s, s.cl.eop, s.cl.n);
    } else if s.cl.PublishClean? {
      PubMoves(s);
      TxOkSame(s.(pub := s.r.clean), CleanStep(s));
    } else {
      if s.cl.Test? && s.r.slots[s.cl.eop].dd { var t := StatusMeansPacketEnd(s.r, M(s.tx), s.cl.eop); }
      TxOkSame(s, CleanStep(s));
    }
  }

  /** Storing next_to_clean only makes more room. */
  lemma PubMoves(s: State)
    requires Inv(s)
    ensures TxOk(s.(pub := s.r.clean)) && s.r.use + M(s.tx) < s.r.clean + s.r.count
  {
    hide RingOk, ClOk, WakeOk;
    SizedRing(s.r, M(s.tx));
  }

  // ---- whole runs ---------------------------------------------------------------------

  ghost predicate Init(s: State) {
    && s.r.count >= 64 && |s.r.slots| == s.r.count
    && (forall i :: 0 <= i < s.r.count ==>
          s.r.slots[i].watch < s.r.count && s.r.slots[i].dma == None && !s.r.slots[i].dd)
    && s.r.clean == s.r.done == s.r.use == s.pub == 0 && s.r.cuts == {0} && s.r.mapped == {} == s.r.unmapped
    && !s.stopped && s.tx == TxIdle && s.cl == CleanIdle
  }

  lemma InitOk(s: State)
    requires Init(s)
    ensures Inv(s)
  {
    hide Pos;
    forall p | 0 <= p < s.r.count ensures !At(s.r, p).dd && At(s.r, p).dma == None {
      Split(s.r.count, p);
    }
  }

  ghost predicate Run(ss: seq<State>, ms: seq<Move>) {
    && |ss| == |ms| + 1 && Init(ss[0])
    && forall i :: 0 <= i < |ms| ==> Allowed(ss[i], ms[i]) && ss[i + 1] == Step(ss[i], ms[i])
  }

  lemma {:induction false} RunKeeps(ss: seq<State>, ms: seq<Move>, k: nat)
    requires Run(ss, ms) && k < |ss|
    ensures Inv(ss[k])
  {
    hide Inv, TxStep, CleanStep, Complete;
    if k == 0 {
      InitOk(ss[0]);
    } else {
      RunKeeps(ss, ms, k - 1);
      match ms[k - 1]
      case Transmit(job, size, piece) => TxKeeps(ss[k - 1], job, size, piece);
      case Cleaner => CleanerKeeps(ss[k - 1]);
      case Hardware(b) => HardwareKeeps(ss[k - 1], b);
    }
  }

  /** In every reachable state the ring is in order; free plus unpublished descriptors make
      up the ring; every mapping undone was made, and the ones not undone are exactly those
      still in their slots. */
  lemma RingInvariant(ss: seq<State>, ms: seq<Move>, k: nat)
    requires Run(ss, ms) && k < |ss|
    ensures var s := ss[k];
      && RingOk(s.r, M(s.tx)) && Unused(s) + (s.r.use - s.pub) == s.r.count - 1
      && s.r.unmapped <= s.r.mapped
      && (s.tx == TxIdle && s.r.clean == s.r.use ==> s.r.unmapped == s.r.mapped)
  {
    RunKeeps(ss, ms, k);
    UnusedIs(ss[k]);
    NoneLeft(ss[k].r);
  }

  lemma NoneLeft(r: Ring)
    ensures RingOk(r, 0) && r.clean == r.use ==> r.unmapped == r.mapped
  {
  }

  /** A mapping is undone at most once and never made again: each step undoes only mappings
      not undone before, and makes only mappings never made before. */
  lemma MappedOnceUnmappedOnce(ss: seq<State>, ms: seq<Move>, k: nat)
    requires Run(ss, ms) && k < |ms|
    ensures var r, r' := ss[k].r, ss[k + 1].r;
      && r.mapped <= r'.mapped && r.unmapped <= r'.unmapped
      && (ms[k].Cleaner? && ss[k].cl.Clean? && Sized(r) && At(r, r.clean).dma.Some? ==>
            r'.unmapped == r.unmapped + {r.clean} && r.clean in r.mapped && r.clean !in r.unmapped)
      && (ms[k].Transmit? && ss[k].tx.Mapping? && ss[k].tx.m < ss[k].tx.n ==>
            r'.mapped == r.mapped + {r.use + ss[k].tx.m} && r.use + ss[k].tx.m !in r.mapped)
  {
    RunKeeps(ss, ms, k);
    var s := ss[k];
    if s.cl.Clean? {
      var t :| Target(s.r, t, s.cl.eop);
    }
  }

  /** No lost wake-up: with both sides idle, a stopped queue has descriptors in flight, whose
      completion will run the cleaner. */
  lemma NoLostWakeup(ss: seq<State>, ms: seq<Move>, k: nat)
    requires Run(ss, ms) && k < |ss| && ss[k].stopped && ss[k].tx == TxIdle && ss[k].cl == CleanIdle
    ensures ss[k].r.use > ss[k].r.clean
  {
    RunKeeps(ss, ms, k);
  }

  /** The cleaner overlooks no completed packet: reading the watched index now and testing it
      now finds a set status bit. */
  lemma CleanerSeesCompletion(ss: seq<State>, ms: seq<Move>, k: nat)
    requires Run(ss, ms) && k < |ss| && ss[k].cl.ReadWatch? && ss[k].r.clean < ss[k].r.done
    requires ss[k].cl.n < ss[k].r.count
    ensures Sized(ss[k].r) && WatchOk(ss[k].r) && Inv(CleanStep(ss[k])) && CleanStep(CleanStep(ss[k])).cl.Clean?
  {
    hide RingOk, TxOk, WakeOk, Pos;
    RunKeeps(ss, ms, k);
    SizedRing(ss[k].r, M(ss[k].tx));
    CleanerKeeps(ss[k]);
    CompletionSeen(ss[k].r, M(ss[k].tx));
  }

  /** The room found for a packet suffices: at least three slots stay free behind it. */
  lemma RoomSuffices(ss: seq<State>, ms: seq<Move>, k: nat)
    requires Run(ss, ms) && k < |ms| && ms[k].Transmit? && ss[k].tx.Queueing? && ss[k].tx.j == ss[k].tx.n
    ensures Sized(ss[k + 1].r) && Unused(ss[k + 1]) >= 3
  {
    RunKeeps(ss, ms, k);
    RunKeeps(ss, ms, k + 1);
    UnusedIs(ss[k + 1]);
  }

  /** Descriptors in which a packet could be put, as far as the cleaner has said. */
  function Free(s: State): int { s.r.count - 1 - (s.r.use - s.pub) }

  /** The transmit path has taken up a packet and not queued it yet. */
  predicate Busy(tx: TxPc) {
    match tx
    case Room(j, _) => j.Some?
    case Stop(j, _) => j.Some?
    case Recheck(j, _) => j.Some?
    case Restart(j) => j.Some?
    case Context(_) => true
    case Mapping(_, _, _) => true
    case Queueing(_, n, j) => j < n
    case TxIdle => false
  }

  /** A packet taken up is dropped from work in one case only: at the second look too there were
      fewer descriptors free than it reserves, and two more. */
  lemma RefusedOnlyIfFull(ss: seq<State>, ms: seq<Move>, k: nat)
    requires Run(ss, ms) && k < |ms| && ms[k].Transmit? && Busy(ss[k].tx) && ss[k + 1].tx.TxIdle?
    ensures ss[k].tx.Recheck? && Free(ss[k]) < Reserved(ss[k].tx.job.value) + 2
  {
    RunKeeps(ss, ms, k);
    UnusedIs(ss[k]);
  }

  /** The queue is stopped for a packet, or after one, only if there is less room than asked for. */
  lemma StoppedOnlyIfShort(ss: seq<State>, ms: seq<Move>, k: nat)
    requires Run(ss, ms) && k < |ms| && ms[k].Transmit? && ss[k].tx.Room?
    ensures ss[k + 1].tx.Stop? <==> Free(ss[k]) < ss[k].tx.size
    ensures ss[k].tx.job.Some? ==> ss[k].tx.size == Reserved(ss[k].tx.job.value) + 2
  {
    RunKeeps(ss, ms, k);
    UnusedIs(ss[k]);
  }

  /** A cleaner that has reclaimed something leaves the queue stopped only if fewer than 32
      descriptors were free when it looked. */
  lemma LeftStoppedOnlyIfShort(ss: seq<State>, ms: seq<Move>, k: nat)
    requires Run(ss, ms) && k < |ms| && ms[k].Cleaner? && ss[k + 1].cl.CleanIdle? && ss[k + 1].stopped
    requires ss[k].cl.TestRoom? || ss[k].cl.TestStopped? || ss[k].cl.Wake?
    ensures ss[k].cl.TestRoom? && Free(ss[k]) < 32
  {
    RunKeeps(ss, ms, k);
    UnusedIs(ss[k]);
  }
}
