/** The transmit ring as a value: slots addressed by ever-growing positions taken modulo the
    ring size, the packets in flight, and the small changes that the transmit path, the
    cleaner and the hardware make to it. */
module TxRingSpec {
  import opened Options
  import opened Paging
  import opened RingIndex

  /** A piece of a packet: part 0 is the head, part f+1 is fragment f. */
  datatype Piece = Piece(part: nat, offset: nat, size: nat)

  /** A descriptor and its buffer_info. A DMA mapping is named by the position it was made at,
      so no two mappings share a name. */
  datatype Slot = Slot(watch: nat, dma: Option<nat>, dd: bool, piece: Piece)

  /** Positions `clean`..`use` are queued, `cuts` are the packet boundaries, packets below
      `done` are completed by the hardware. `mapped` and `unmapped` are the mappings made and
      undone so far. */
  datatype Ring = Ring(count: nat, slots: seq<Slot>, clean: nat, done: nat, use: nat,
                       cuts: set<nat>, mapped: set<nat>, unmapped: set<nat>)

  ghost predicate Sized(r: Ring) { r.count >= 2 && |r.slots| == r.count }

  function At(r: Ring, p: nat): Slot
    requires Sized(r)
  {
    Split(r.count, p);
    r.slots[Pos(r.count, p)]
  }

  function Put(r: Ring, p: nat, s: Slot): (r': Ring)
    requires Sized(r)
    ensures Sized(r')
  {
    Split(r.count, p);
    r.(slots := r.slots[Pos(r.count, p) := s])
  }

  /** Writing one slot of a window leaves the others alone. */
  lemma PutAt(r: Ring, p: nat, s: Slot, lo: nat)
    requires Sized(r) && lo <= p < lo + r.count
    ensures forall q :: lo <= q < lo + r.count ==> At(Put(r, p, s), q) == if q == p then s else At(r, q)
  {
    hide Pos;
    WithSlotAt(r.slots, p, s, lo);
    forall q: nat | lo <= q < lo + r.count ensures At(Put(r, p, s), q) == if q == p then s else At(r, q) {
      assert At(r, q) == SlotAt(r.slots, q) && At(Put(r, p, s), q) == SlotAt(WithSlot(r.slots, p, s), q);
    }
  }

  // ---- the invariant --------------------------------------------------------------------

  /** b is the first packet boundary after a. */
  ghost predicate Adjacent(cuts: set<nat>, a: nat, b: nat) {
    a in cuts && b in cuts && a < b && forall x :: a < x < b ==> x !in cuts
  }

  ghost predicate Bounds(r: Ring, m: nat) {
    && Sized(r) && r.clean <= r.done <= r.use && r.use + m < r.clean + r.count
    && r.done in r.cuts && forall x :: x in r.cuts ==> x <= r.use
  }

  /** In flight, a descriptor reports done exactly when it ends a completed packet; its
      mapping, if it has one, is its own. */
  ghost predicate InFlightOk(r: Ring)
    requires Sized(r)
  {
    forall p :: r.clean <= p < r.use ==>
      && (At(r, p).dd <==> p + 1 in r.cuts && p < r.done)
      && (At(r, p).dma == None || At(r, p).dma == Some(p))
  }

  /** The next m slots hold the mapped but not yet queued pieces of a packet. */
  ghost predicate MappedOk(r: Ring, m: nat)
    requires Sized(r)
  {
    forall p :: r.use <= p < r.use + m ==> !At(r, p).dd && At(r, p).dma == Some(p)
  }

  ghost predicate FreeOk(r: Ring, m: nat)
    requires Sized(r)
  {
    forall p :: r.use + m <= p < r.clean + r.count ==> !At(r, p).dd && At(r, p).dma == None
  }

  /** The first slot of each packet watches its last. */
  ghost predicate WatchOk(r: Ring)
    requires Sized(r)
  {
    && (forall i :: 0 <= i < r.count ==> r.slots[i].watch < r.count)
    && (forall a: nat, b: nat :: r.clean <= a && Adjacent(r.cuts, a, b) ==> At(r, a).watch == Pos(r.count, b - 1))
  }

  /** Every mapping made is either undone or sits in its slot, never both. */
  ghost predicate MappingsOk(r: Ring, m: nat)
    requires Sized(r)
  {
    && r.unmapped <= r.mapped
    && (forall p :: p in r.mapped && p !in r.unmapped <==> r.clean <= p < r.use + m && At(r, p).dma == Some(p))
    && (forall p :: p in r.mapped ==> p < r.use + m)
  }

  ghost predicate RingOk(r: Ring, m: nat) {
    Bounds(r, m) && InFlightOk(r) && MappedOk(r, m) && FreeOk(r, m) && WatchOk(r) && MappingsOk(r, m)
  }

  // ---- the changes ----------------------------------------------------------------------

  /** e1000_tso and e1000_tx_csum: a context descriptor takes one slot at once. */
  function PutContext(r: Ring): Ring
    requires Sized(r)
  {
    Split(r.count, r.use);
    Put(r, r.use, At(r, r.use).(watch := Pos(r.count, r.use))).(use := r.use + 1)
  }

  /** One round of the mapping loop. */
  function MapSlot(r: Ring, m: nat, piece: Piece): Ring
    requires Sized(r)
  {
    var p := r.use + m;
    Split(r.count, p);
    Put(r, p, Slot(Pos(r.count, p), Some(p), At(r, p).dd, piece)).(mapped := r.mapped + {p})
  }

  function SetWatch(r: Ring, first: nat, last: nat): Ring
    requires Sized(r)
  {
    Split(r.count, last);
    Put(r, first, At(r, first).(watch := Pos(r.count, last)))
  }

  /** One round of the queueing loop: the descriptor is written, its status cleared. */
  function WriteDesc(r: Ring, p: nat): Ring
    requires Sized(r)
  {
    Put(r, p, At(r, p).(dd := false))
  }

  /** The tail moves behind the m mapped slots. */
  function Publish(r: Ring, m: nat): Ring {
    r.(use := r.use + m, cuts := r.cuts + {r.use + m})
  }

  /** The hardware completes the packet that ends at b. */
  function Complete(r: Ring, b: nat): Ring
    requires Sized(r) && b > 0
  {
    Put(r, b - 1, At(r, b - 1).(dd := true)).(done := b)
  }

  /** e1000_put_txbuf and the clearing of the descriptor, for the oldest slot. */
  function CleanSlot(r: Ring): Ring
    requires Sized(r)
  {
    var s := At(r, r.clean);
    Put(r, r.clean, s.(dma := None, dd := false)).
      (clean := r.clean + 1, unmapped := r.unmapped + if s.dma.Some? then {s.dma.value} else {})
  }

  /** Two rings that differ in their slots and mappings only. */
  ghost predicate SameMarks(r: Ring, r': Ring) {
    r'.count == r.count && r'.clean == r.clean && r'.done == r.done && r'.use == r.use && r'.cuts == r.cuts
  }

  // ---- each change keeps the invariant ----------------------------------------------------

  /** A packet is being built from `first` on: no boundary after it yet. */
  ghost predicate Building(r: Ring, first: nat) {
    first in r.cuts && r.clean <= first <= r.use && forall x :: x in r.cuts ==> x <= first
  }

  lemma ContextKeeps(r: Ring)
    requires RingOk(r, 0) && r.use + 1 < r.clean + r.count && Building(r, r.use)
    ensures RingOk(PutContext(r), 0) && Building(PutContext(r), r.use)
    ensures SameMarks(r.(use := r.use + 1), PutContext(r))
  {
    hide Pos, Base;
    var r' := PutContext(r);
    Split(r.count, r.use);
    PutAt(r, r.use, At(r, r.use).(watch := Pos(r.count, r.use)), r.clean);
    AtSame(Put(r, r.use, At(r, r.use).(watch := Pos(r.count, r.use))), r', r.clean);
  }

  /** Only the slots matter to At. */
  lemma AtSame(r: Ring, r': Ring, lo: nat)
    requires Sized(r) && Sized(r') && r.slots == r'.slots
    ensures forall p :: At(r, p) == At(r', p)
  {
  }

  lemma MapKeeps(r: Ring, m: nat, piece: Piece)
    requires RingOk(r, m) && r.use + m + 1 < r.clean + r.count
    ensures RingOk(MapSlot(r, m, piece), m + 1) && SameMarks(r, MapSlot(r, m, piece))
  {
    hide Pos, Base;
    var p, r' := r.use + m, MapSlot(r, m, piece);
    Split(r.count, p);
    var s := Slot(Pos(r.count, p), Some(p), At(r, p).dd, piece);
    PutAt(r, p, s, r.clean);
    AtSame(Put(r, p, s), r', r.clean);
  }

  lemma WatchKeeps(r: Ring, m: nat, first: nat)
    requires RingOk(r, m) && Building(r, first) && m > 0
    ensures var r' := SetWatch(r, first, r.use + m - 1); RingOk(r', m) && SameMarks(r, r')
    ensures At(SetWatch(r, first, r.use + m - 1), first).watch == Pos(r.count, r.use + m - 1)
  {
    hide Pos, Base;
    var last := r.use + m - 1;
    var r' := SetWatch(r, first, last);
    Split(r.count, last);
    PutAt(r, first, At(r, first).(watch := Pos(r.count, last)), r.clean);
    AtSame(Put(r, first, At(r, first).(watch := Pos(r.count, last))), r', r.clean);
  }

  lemma WriteKeeps(r: Ring, m: nat, p: nat)
    requires RingOk(r, m) && r.use <= p < r.use + m
    ensures RingOk(WriteDesc(r, p), m) && SameMarks(r, WriteDesc(r, p))
    ensures forall q :: r.clean <= q < r.clean + r.count ==> At(WriteDesc(r, p), q) == At(r, q)
  {
    hide Pos, Base;
    PutAt(r, p, At(r, p).(dd := false), r.clean);
  }

  lemma PublishKeeps(r: Ring, m: nat, first: nat)
    requires RingOk(r, m) && Building(r, first) && m > 0
    requires At(r, first).watch == Pos(r.count, r.use + m - 1)
    ensures RingOk(Publish(r, m), 0) && Building(Publish(r, m), r.use + m)
    ensures Adjacent(Publish(r, m).cuts, first, r.use + m)
  {
    hide Pos, Base;
    var r' := Publish(r, m);
    AtSame(r, r', r.clean);
    forall a: nat, b: nat | r'.clean <= a && Adjacent(r'.cuts, a, b) ensures At(r', a).watch == Pos(r.count, b - 1) {
      if b == r'.use {
        assert a == first;
      } else {
        assert Adjacent(r.cuts, a, b);
      }
    }
  }

  /** Hardware completes packets in order: the next boundary after `done`. */
  lemma CompleteKeeps(r: Ring, m: nat, b: nat)
    requires RingOk(r, m) && Adjacent(r.cuts, r.done, b)
    ensures RingOk(Complete(r, b), m)
    ensures SameMarks(r.(done := b), Complete(r, b))
    ensures forall q :: r.clean <= q < r.clean + r.count ==> At(Complete(r, b), q).watch == At(r, q).watch
  {
    hide Pos, Base;
    var r' := Complete(r, b);
    PutAt(r, b - 1, At(r, b - 1).(dd := true), r.clean);
    AtSame(Put(r, b - 1, At(r, b - 1).(dd := true)), r', r.clean);
  }

  lemma CleanKeeps(r: Ring, m: nat)
    requires RingOk(r, m) && r.clean < r.done
    ensures RingOk(CleanSlot(r), m) && SameMarks(r.(clean := r.clean + 1), CleanSlot(r))
    ensures forall q :: r.clean < q < r.clean + r.count ==> At(CleanSlot(r), q) == At(r, q)
  {
    hide Pos, Base;
    var r' := CleanSlot(r);
    var s := At(r, r.clean);
    PutAt(r, r.clean, s.(dma := None, dd := false), r.clean);
    AtSame(Put(r, r.clean, s.(dma := None, dd := false)), r', r.clean);
    WrapAround(r.count, r.clean);
    assert At(r', r.clean + r.count) == At(r', r.clean);
  }

  lemma WrapAround(count: nat, p: nat)
    requires count > 0
    ensures Pos(count, p + count) == Pos(count, p)
  {
    SamePos(count, p, p + count, 1);
  }

  // ---- what a status bit says ---------------------------------------------------------------

  /** Position t is the last of a completed packet at or after `clean`, and has index eop. */
  ghost predicate Target(r: Ring, t: nat, eop: nat) {
    r.clean <= t < r.done && r.count > 0 && Pos(r.count, t) == eop && t + 1 in r.cuts
  }

  /** A set status bit is always the end of a completed packet: whatever index the cleaner
      read, stale or not, cleaning up to it takes whole completed packets. */
  lemma StatusMeansPacketEnd(r: Ring, m: nat, eop: nat) returns (t: nat)
    requires RingOk(r, m) && eop < r.count && r.slots[eop].dd
    ensures Target(r, t, eop)
  {
    hide Pos, Base;
    t := Reaching(r.count, r.clean, eop);
    assert At(r, t).dd;
  }

  /** Every index is met within one round. */
  lemma Reaching(count: nat, lo: nat, i: nat) returns (t: nat)
    requires count > 0 && i < count
    ensures lo <= t < lo + count && Pos(count, t) == i
  {
    Split(count, lo);
    var q := lo / count;
    t := if i >= Pos(count, lo) then lo + (i - Pos(count, lo)) else lo + count - Pos(count, lo) + i;
    if i >= Pos(count, lo) {
      Move(count, lo, i - Pos(count, lo));
    } else {
      Move(count, lo, count - Pos(count, lo));
      Move(count, lo + (count - Pos(count, lo)), i);
    }
  }

  /** A completed oldest packet is never overlooked: its first slot watches a set status bit. */
  lemma CompletionSeen(r: Ring, m: nat)
    requires RingOk(r, m) && r.clean in r.cuts && r.clean < r.done
    ensures At(r, r.clean).watch < r.count && r.slots[At(r, r.clean).watch].dd
  {
    hide Pos, Base;
    var b := NextCut(r.cuts, r.clean, r.done);
    Split(r.count, b - 1);
    Split(r.count, r.clean);
    assert At(r, b - 1).dd;
  }

  lemma {:induction false} NextCut(cuts: set<nat>, a: nat, d: nat) returns (b: nat)
    requires a in cuts && d in cuts && a < d
    ensures Adjacent(cuts, a, b) && b <= d
    decreases d
  {
    if x: nat :| a < x < d && x in cuts {
      b := NextCut(cuts, a, x);
    } else {
      b := d;
    }
  }
}
