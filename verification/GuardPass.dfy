/** The CARAT guard pass: which accesses it guards, the transformation it performs, and the
    imperative pass itself. */
module GuardPass {
  import opened Options
  import opened GuardIr

  const GUARD_LOAD: int := 1
  const GUARD_STORE: int := 2

  /** Every instruction is recorded under its own number, numbers are used once in a function
      and grow along GEP/bitcast chains, and the pass has not run yet. */
  ghost predicate WellFormed(f: Func) { Numbered(f) && ChainsEnd(f) }

  ghost predicate Numbered(f: Func) {
    && (forall l, k :: l in f.blocks && 0 <= k < |f.blocks[l]| ==>
          f.blocks[l][k].Orig? && f.blocks[l][k].id in f.defs && f.defs[f.blocks[l][k].id] == f.blocks[l][k].op)
    && (forall l, k, l', k' ::
          (l in f.blocks && l' in f.blocks && 0 <= k < |f.blocks[l]| && 0 <= k' < |f.blocks[l']| &&
           f.blocks[l][k].id == f.blocks[l'][k'].id) ==> l == l' && k == k')
  }

  ghost predicate ChainsEnd(f: Func) {
    forall id :: id in f.defs && InternalPointer(f, Local(id)).Some? && InternalPointer(f, Local(id)).value.Local? ==>
      InternalPointer(f, Local(id)).value.id < id
  }

  /** The pointer a GEP or a pointer bitcast is computed from. */
  function InternalPointer(f: Func, ptr: Operand): Option<Operand> {
    if !ptr.Local? || ptr.id !in f.defs then None
    else match f.defs[ptr.id]
      case Gep(base, _) => Some(base)
      case BitCast(src, fromPointer) => if fromPointer then Some(src) else None
      case _ => None
  }

  /** The end of the GEP/bitcast chain. */
  function Root(f: Func, ptr: Operand): Operand
    requires ChainsEnd(f)
    decreases if ptr.Local? then ptr.id + 1 else 0
  {
    var i := InternalPointer(f, ptr);
    if i.None? then ptr
    else
      assert ptr.id in f.defs && InternalPointer(f, Local(ptr.id)) == i;
      Root(f, i.value)
  }

  predicate IsAlloca(f: Func, o: Operand) { o.Local? && o.id in f.defs && f.defs[o.id].Alloca? }

  predicate IsAllocatorCall(f: Func, o: Operand) {
    o.Local? && o.id in f.defs && f.defs[o.id].Call? &&
    (f.defs[o.id].callee == Some("malloc") || f.defs[o.id].callee == Some("calloc"))
  }

  predicate IsAccess(op: Op) { op.Load? || op.Store? }

  function PointerOf(op: Op): Operand
    requires IsAccess(op)
  {
    op.ptr
  }

  function FlagsOf(op: Op): int { if op.Load? then GUARD_LOAD else GUARD_STORE }

  /** The accesses the pass must guard. */
  predicate MustGuard(f: Func, op: Op)
    requires ChainsEnd(f)
  {
    IsAccess(op) && !IsAlloca(f, Root(f, PointerOf(op))) && !IsAllocatorCall(f, PointerOf(op))
  }

  // ---- which accesses are exempt, said of the definitions alone ---------------------------

  /** `p` is computed from `q` by a GEP or by a bitcast of a pointer. */
  ghost predicate Link(f: Func, p: Operand, q: Operand) {
    p.Local? && p.id in f.defs &&
    ((f.defs[p.id].Gep? && f.defs[p.id].base == q) || f.defs[p.id] == BitCast(q, true))
  }

  ghost predicate Chain(f: Func, ps: seq<Operand>) {
    ps != [] && forall k :: 0 <= k < |ps| - 1 ==> Link(f, ps[k], ps[k + 1])
  }

  /** The chain leads from `p` to an alloca. */
  ghost predicate ToAlloca(f: Func, p: Operand, ps: seq<Operand>) {
    Chain(f, ps) && ps[0] == p && var last := ps[|ps| - 1];
      last.Local? && last.id in f.defs && f.defs[last.id] == Alloca
  }

  /** Some chain of GEPs and bitcasts leads from `p` to an alloca. */
  ghost predicate OnStack(f: Func, p: Operand) { exists ps :: ToAlloca(f, p, ps) }

  /** `p` itself is the result of malloc or calloc, called by name. */
  ghost predicate Allocated(f: Func, p: Operand) {
    p.Local? && p.id in f.defs && exists args ::
      f.defs[p.id] == Call(Some("malloc"), args) || f.defs[p.id] == Call(Some("calloc"), args)
  }

  lemma LinkIs(f: Func, p: Operand, q: Operand)
    ensures Link(f, p, q) <==> InternalPointer(f, p) == Some(q)
  {
  }

  /** The root is where every chain to an alloca ends, and some chain ends there. */
  lemma {:induction false} RootIff(f: Func, p: Operand)
    requires ChainsEnd(f)
    ensures IsAlloca(f, Root(f, p)) <==> OnStack(f, p)
    decreases if p.Local? then p.id + 1 else 0
  {
    var i := InternalPointer(f, p);
    if i.None? {
      StopsHere(f, p);
    } else {
      assert InternalPointer(f, Local(p.id)) == i;
      RootIff(f, i.value);
      LinkIs(f, p, i.value);
      OneLinkOn(f, p, i.value);
    }
  }

  lemma StopsHere(f: Func, p: Operand)
    requires InternalPointer(f, p).None?
    ensures IsAlloca(f, p) <==> OnStack(f, p)
  {
    if IsAlloca(f, p) { assert ToAlloca(f, p, [p]); }
    if ps :| ToAlloca(f, p, ps) {
      if |ps| > 1 { LinkIs(f, ps[0], ps[1]); }
    }
  }

  lemma OneLinkOn(f: Func, p: Operand, q: Operand)
    requires Link(f, p, q)
    ensures OnStack(f, p) <==> OnStack(f, q)
  {
    if ps :| ToAlloca(f, q, ps) { assert ToAlloca(f, p, [p] + ps); }
    if ps :| ToAlloca(f, p, ps) {
      LinkIs(f, p, q);
      if |ps| > 1 {
        LinkIs(f, p, ps[1]);
        assert ToAlloca(f, q, ps[1..]);
      }
    }
  }

  /** A load or store is guarded unless its pointer leads to an alloca or is itself what an
      allocator returned: a GEP of an allocator's result is guarded. */
  lemma MustGuardIff(f: Func, op: Op)
    requires ChainsEnd(f)
    ensures MustGuard(f, op) <==> (op.Load? || op.Store?) && !OnStack(f, op.ptr) && !Allocated(f, op.ptr)
  {
    if op.Load? || op.Store? {
      RootIff(f, op.ptr);
      var p := op.ptr;
      if IsAllocatorCall(f, p) {
        assert f.defs[p.id] == Call(f.defs[p.id].callee, f.defs[p.id].args);
      }
    }
  }

  /** What goes in front of an access: a cast unless the pointer is an i8* already, and the
      guard call. */
  function GuardCode(f: Func, id: Id, ptr: Operand, flags: int): seq<Instr> {
    if ptr in f.bytePtrs then [Guard(id, false, ptr, flags)] else [Cast(id, ptr), Guard(id, true, ptr, flags)]
  }

  function GuardsFor(f: Func, i: Instr): seq<Instr>
    requires ChainsEnd(f)
  {
    if i.Orig? && MustGuard(f, i.op) then GuardCode(f, i.id, PointerOf(i.op), FlagsOf(i.op)) else []
  }

  function Instrument(f: Func, s: seq<Instr>): seq<Instr>
    requires ChainsEnd(f)
  {
    if s == [] then [] else GuardsFor(f, s[0]) + [s[0]] + Instrument(f, s[1..])
  }

  function InstrumentFunc(f: Func): Func
    requires ChainsEnd(f)
  {
    f.(blocks := map l | l in f.blocks :: Instrument(f, f.blocks[l]))
  }

  ghost predicate WellFormedModule(m: Module) { forall n :: n in m ==> WellFormed(m[n]) }

  function InstrumentModule(m: Module): (r: Module)
    requires forall n :: n in m ==> ChainsEnd(m[n])
  {
    map n | n in m :: InstrumentFunc(m[n])
  }

  // ---- the pass as it runs --------------------------------------------------------------

  datatype GuardRec = GuardRec(pointer: Operand, flags: int)
  type Ref = (string, Id)

  /** The loop that follows the chain of internal pointers. */
  method BasePointer(f: Func, pointer: Operand) returns (baseptr: Operand)
    requires ChainsEnd(f)
    ensures baseptr == Root(f, pointer)
  {
    baseptr := pointer;
    var internal := InternalPointer(f, baseptr);
    while internal.Some?
      invariant internal == InternalPointer(f, baseptr) && Root(f, baseptr) == Root(f, pointer)
      decreases if baseptr.Local? then baseptr.id + 1 else 0
    {
      assert InternalPointer(f, Local(baseptr.id)) == internal;
      baseptr := internal.value;
      internal := InternalPointer(f, baseptr);
    }
  }

  /** Whether an access gets a guard, and which. */
  method ChooseGuard(f: Func, op: Op) returns (r: Option<GuardRec>)
    requires ChainsEnd(f) && IsAccess(op)
    ensures r == if MustGuard(f, op) then Some(GuardRec(PointerOf(op), FlagsOf(op))) else None
  {
    var pointer := op.ptr;
    var baseptr := BasePointer(f, pointer);
    if IsAlloca(f, baseptr) { return None; }
    if IsAllocatorCall(f, pointer) { return None; }
    return Some(GuardRec(pointer, if op.Store? then GUARD_STORE else GUARD_LOAD));
  }

  /** Instruction `id` stands in one of the given blocks. */
  ghost predicate Occurs(f: Func, ls: set<Label>, id: Id) {
    exists l, k :: l in ls && l in f.blocks && 0 <= k < |f.blocks[l]| && f.blocks[l][k].Orig? && f.blocks[l][k].id == id
  }

  ghost predicate OccursBefore(f: Func, l: Label, n: nat, id: Id)
    requires l in f.blocks && n <= |f.blocks[l]|
  {
    exists k :: 0 <= k < n && f.blocks[l][k].Orig? && f.blocks[l][k].id == id
  }

  /** `gs` holds the guards of the accesses among the instructions marked by `here`. */
  ghost predicate Holds(f: Func, here: iset<Id>, gs: map<Id, GuardRec>)
    requires ChainsEnd(f)
  {
    forall id :: (id in gs <==> id in here && id in f.defs && MustGuard(f, f.defs[id]))
              && (id in gs ==> gs[id] == GuardRec(PointerOf(f.defs[id]), FlagsOf(f.defs[id])))
  }

  /** The values met after the blocks `done` and the first n instructions of block l. */
  ghost function Met(f: Func, done: set<Label>, l: Label, n: nat): iset<Id>
    requires l in f.blocks && n <= |f.blocks[l]|
  {
    iset id | Occurs(f, done, id) || OccursBefore(f, l, n, id)
  }

  ghost function MetIn(f: Func, ls: set<Label>): iset<Id> { iset id | Occurs(f, ls, id) }

  lemma MetMore(f: Func, done: set<Label>, l: Label)
    requires l in f.blocks
    ensures Met(f, done, l, 0) == MetIn(f, done)
    ensures Met(f, done, l, |f.blocks[l]|) == MetIn(f, done + {l})
    ensures forall k :: 0 <= k < |f.blocks[l]| && f.blocks[l][k].Orig? ==>
      Met(f, done, l, k + 1) == Met(f, done, l, k) + iset{f.blocks[l][k].id}
  {
  }

  /** One more instruction met, and its guard taken down if it needs one. */
  lemma HoldsMore(f: Func, here: iset<Id>, gs: map<Id, GuardRec>, id: Id)
    requires ChainsEnd(f) && Holds(f, here, gs) && id in f.defs
    ensures var op := f.defs[id];
      Holds(f, here + iset{id}, if MustGuard(f, op) then gs[id := GuardRec(PointerOf(op), FlagsOf(op))] else gs)
  {
    hide ChainsEnd, Root;
  }

  /** The guards of one block, added to those of the blocks `done`. */
  method CollectBlock(f: Func, l: Label, ghost done: set<Label>, gs: map<Id, GuardRec>)
    returns (toGuard: map<Id, GuardRec>)
    requires WellFormed(f) && l in f.blocks && Holds(f, MetIn(f, done), gs)
    ensures Holds(f, MetIn(f, done + {l}), toGuard)
  {
    hide Numbered, ChainsEnd, Holds, Met, MetIn, Root;
    BlockFacts(f, l);
    MetMore(f, done, l);
    toGuard := gs;
    var s := f.blocks[l];
    var k := 0;
    while k < |s|
      invariant k <= |s| && Holds(f, Met(f, done, l, k), toGuard)
    {
      HoldsMore(f, Met(f, done, l, k), toGuard, s[k].id);
      if IsAccess(s[k].op) {
        var g := ChooseGuard(f, s[k].op);
        if g.Some? { toGuard := toGuard[s[k].id := g.value]; }
      }
      k := k + 1;
    }
  }

  /** The guards of one function. */
  method CollectFunc(f: Func) returns (toGuard: map<Id, GuardRec>)
    requires WellFormed(f)
    ensures Holds(f, MetIn(f, f.blocks.Keys), toGuard)
  {
    hide Numbered, ChainsEnd, MustGuard;
    toGuard := map[];
    var todo := f.blocks.Keys;
    ghost var done: set<Label> := {};
    while todo != {}
      invariant todo + done == f.blocks.Keys && todo !! done
      invariant Holds(f, MetIn(f, done), toGuard)
      decreases todo
    {
      var l :| l in todo;
      toGuard := CollectBlock(f, l, done, toGuard);
      todo, done := todo - {l}, done + {l};
    }
    assert done == f.blocks.Keys;
  }

  /** Puts `code` in front of instruction `id`. */
  function InsertBefore(s: seq<Instr>, id: Id, code: seq<Instr>): seq<Instr> {
    if s == [] then []
    else if s[0].Orig? && s[0].id == id then code + s
    else [s[0]] + InsertBefore(s[1..], id, code)
  }

  /** A block with the guards of the references in `done` inserted. */
  function Partly(n: string, f: Func, s: seq<Instr>, done: set<Ref>): seq<Instr>
    requires ChainsEnd(f)
  {
    if s == [] then [] else Mark(n, f, s[0], done) + [s[0]] + Partly(n, f, s[1..], done)
  }

  function Mark(n: string, f: Func, i: Instr, done: set<Ref>): seq<Instr>
    requires ChainsEnd(f)
  {
    if i.Orig? && (n, i.id) in done then GuardsFor(f, i) else []
  }

  ghost predicate OnceEach(s: seq<Instr>) {
    && (forall k :: 0 <= k < |s| ==> s[k].Orig?)
    && (forall k, j :: 0 <= k < |s| && 0 <= j < |s| && s[k].id == s[j].id ==> k == j)
  }

  lemma {:induction false} InsertMissing(n: string, f: Func, s: seq<Instr>, done: set<Ref>, id: Id, code: seq<Instr>)
    requires ChainsEnd(f) && OnceEach(s) && forall k :: 0 <= k < |s| ==> s[k].id != id
    ensures InsertBefore(Partly(n, f, s, done), id, code) == Partly(n, f, s, done)
    ensures Partly(n, f, s, done + {(n, id)}) == Partly(n, f, s, done)
  {
    if s != [] {
      InsertMissing(n, f, s[1..], done, id, code);
      SkipInserted(Mark(n, f, s[0], done) + [s[0]], Partly(n, f, s[1..], done), id, code);
    }
  }

  /** Inserted instructions and other instructions are passed over. */
  lemma {:induction false} SkipInserted(a: seq<Instr>, b: seq<Instr>, id: Id, code: seq<Instr>)
    requires forall k :: 0 <= k < |a| ==> !(a[k].Orig? && a[k].id == id)
    ensures InsertBefore(a + b, id, code) == a + InsertBefore(b, id, code)
  {
    if a == [] {
      assert a + b == b;
    } else {
      assert (a + b)[1..] == a[1..] + b;
      SkipInserted(a[1..], b, id, code);
    }
  }

  /** Inserting one more guard, wherever it stands, is one more reference done. */
  lemma {:induction false} InsertOne(n: string, f: Func, s: seq<Instr>, done: set<Ref>, k: nat)
    requires ChainsEnd(f) && OnceEach(s) && k < |s| && (n, s[k].id) !in done
    ensures InsertBefore(Partly(n, f, s, done), s[k].id, GuardsFor(f, s[k])) == Partly(n, f, s, done + {(n, s[k].id)})
    decreases |s|
  {
    hide GuardsFor, ChainsEnd, Mark, InsertBefore;
    var id, code, done' := s[k].id, GuardsFor(f, s[k]), done + {(n, s[k].id)};
    var g, rest := Mark(n, f, s[0], done), Partly(n, f, s[1..], done);
    Marks(n, f, s[0], done, id);
    SkipInserted(g, [s[0]] + rest, id, code);
    assert g + [s[0]] + rest == g + ([s[0]] + rest);
    if k == 0 {
      InsertMissing(n, f, s[1..], done, id, code);
      InsertHere(s[0], rest, id, code);
    } else {
      InsertOne(n, f, s[1..], done, k - 1);
      SkipInserted([s[0]], rest, id, code);
      assert g + ([s[0]] + InsertBefore(rest, id, code)) == g + [s[0]] + InsertBefore(rest, id, code);
    }
  }

  lemma InsertHere(i: Instr, rest: seq<Instr>, id: Id, code: seq<Instr>)
    requires i.Orig? && i.id == id
    ensures InsertBefore([i] + rest, id, code) == code + [i] + rest
  {
    assert code + ([i] + rest) == code + [i] + rest;
  }

  lemma Marks(n: string, f: Func, i: Instr, done: set<Ref>, id: Id)
    requires ChainsEnd(f) && i.Orig?
    ensures forall k :: 0 <= k < |Mark(n, f, i, done)| ==> !Mark(n, f, i, done)[k].Orig?
    ensures i.id == id && (n, id) !in done ==>
      Mark(n, f, i, done) == [] && Mark(n, f, i, done + {(n, id)}) == GuardsFor(f, i)
    ensures i.id != id ==> Mark(n, f, i, done + {(n, id)}) == Mark(n, f, i, done)
  {
    hide ChainsEnd;
  }

  /** Instruction `id` of the function is an access to be guarded. */
  ghost predicate Wanted(f: Func, id: Id)
    requires ChainsEnd(f)
  {
    Occurs(f, f.blocks.Keys, id) && id in f.defs && MustGuard(f, f.defs[id])
  }

  ghost function RecOf(f: Func, id: Id): GuardRec
    requires ChainsEnd(f) && Wanted(f, id)
  {
    GuardRec(PointerOf(f.defs[id]), FlagsOf(f.defs[id]))
  }

  ghost predicate AllGuards(m: Module, names: set<string>, gs: map<Ref, GuardRec>)
    requires WellFormedModule(m)
  {
    forall n, id: Id ::
      && ((n, id) in gs <==> n in names && n in m && Wanted(m[n], id))
      && ((n, id) in gs ==> gs[(n, id)] == RecOf(m[n], id))
  }

  function PartlyFunc(n: string, f: Func, done: set<Ref>): Func
    requires ChainsEnd(f)
  {
    f.(blocks := map l | l in f.blocks :: Partly(n, f, f.blocks[l], done))
  }

  function PartlyModule(m: Module, done: set<Ref>): Module
    requires forall n :: n in m ==> ChainsEnd(m[n])
  {
    map n | n in m :: PartlyFunc(n, m[n], done)
  }

  function InsertInFunc(f: Func, id: Id, code: seq<Instr>): Func {
    f.(blocks := map l | l in f.blocks :: InsertBefore(f.blocks[l], id, code))
  }

  lemma InsertInModule(m: Module, done: set<Ref>, n: string, id: Id)
    requires WellFormedModule(m) && n in m && (n, id) !in done
    requires Wanted(m[n], id)
    ensures var f := m[n]; var rec := RecOf(f, id); var p := PartlyModule(m, done);
      p[n := InsertInFunc(p[n], id, GuardCode(f, id, rec.pointer, rec.flags))] == PartlyModule(m, done + {(n, id)})
  {
    hide Wanted, RecOf, Numbered, ChainsEnd, PartlyFunc, InsertInFunc;
    var done' := done + {(n, id)};
    InsertInOneFunc(n, m[n], done, id);
    forall n' | n' in m && n' != n ensures PartlyFunc(n', m[n'], done) == PartlyFunc(n', m[n'], done') {
      OtherFunc(n', m[n'], done, n, id);
    }
  }

  lemma InsertInOneFunc(n: string, f: Func, done: set<Ref>, id: Id)
    requires WellFormed(f) && (n, id) !in done && Wanted(f, id)
    ensures var rec := RecOf(f, id);
      InsertInFunc(PartlyFunc(n, f, done), id, GuardCode(f, id, rec.pointer, rec.flags))
        == PartlyFunc(n, f, done + {(n, id)})
  {
    hide Partly, InsertBefore, GuardCode, MustGuard, Occurs, Numbered, ChainsEnd;
    var rec := RecOf(f, id);
    var code := GuardCode(f, id, rec.pointer, rec.flags);
    var done' := done + {(n, id)};
    forall l | l in f.blocks
      ensures InsertBefore(Partly(n, f, f.blocks[l], done), id, code) == Partly(n, f, f.blocks[l], done')
    {
      InsertInBlock(n, f, l, done, id);
    }
    assert InsertInFunc(PartlyFunc(n, f, done), id, code).blocks == PartlyFunc(n, f, done').blocks;
  }

  lemma BlockFacts(f: Func, l: Label)
    requires WellFormed(f) && l in f.blocks
    ensures OnceEach(f.blocks[l])
    ensures forall k :: 0 <= k < |f.blocks[l]| ==>
      f.blocks[l][k].id in f.defs && f.defs[f.blocks[l][k].id] == f.blocks[l][k].op
  {
  }

  lemma InsertInBlock(n: string, f: Func, l: Label, done: set<Ref>, id: Id)
    requires WellFormed(f) && l in f.blocks && (n, id) !in done && Wanted(f, id)
    ensures var rec := RecOf(f, id);
      InsertBefore(Partly(n, f, f.blocks[l], done), id, GuardCode(f, id, rec.pointer, rec.flags))
        == Partly(n, f, f.blocks[l], done + {(n, id)})
  {
    hide Partly, InsertBefore, Occurs, Numbered, ChainsEnd, GuardCode, Root;
    BlockFacts(f, l);
    var s, rec := f.blocks[l], RecOf(f, id);
    if k :| 0 <= k < |s| && s[k].id == id {
      InsertOne(n, f, s, done, k);
    } else {
      InsertMissing(n, f, s, done, id, GuardCode(f, id, rec.pointer, rec.flags));
    }
  }

  lemma OtherFunc(n: string, f: Func, done: set<Ref>, n': string, id: Id)
    requires ChainsEnd(f) && n' != n
    ensures PartlyFunc(n, f, done) == PartlyFunc(n, f, done + {(n', id)})
  {
    forall l | l in f.blocks ensures Partly(n, f, f.blocks[l], done) == Partly(n, f, f.blocks[l], done + {(n', id)}) {
      OtherBlock(n, f, f.blocks[l], done, n', id);
    }
  }

  lemma {:induction false} OtherBlock(n: string, f: Func, s: seq<Instr>, done: set<Ref>, n': string, id: Id)
    requires ChainsEnd(f) && n' != n
    ensures Partly(n, f, s, done) == Partly(n, f, s, done + {(n', id)})
  {
    if s != [] { OtherBlock(n, f, s[1..], done, n', id); }
  }

  lemma {:induction false} NothingDone(n: string, f: Func, s: seq<Instr>)
    requires ChainsEnd(f)
    ensures Partly(n, f, s, {}) == s
  {
    if s != [] { NothingDone(n, f, s[1..]); }
  }

  lemma {:induction false} AllDone(n: string, f: Func, s: seq<Instr>, done: set<Ref>)
    requires ChainsEnd(f)
    requires forall k :: 0 <= k < |s| ==> s[k].Orig? && (MustGuard(f, s[k].op) ==> (n, s[k].id) in done)
    ensures Partly(n, f, s, done) == Instrument(f, s)
  {
    if s != [] { AllDone(n, f, s[1..], done); }
  }

  lemma StartModule(m: Module)
    requires WellFormedModule(m)
    ensures PartlyModule(m, {}) == m
  {
    forall n | n in m ensures PartlyFunc(n, m[n], {}) == m[n] {
      forall l | l in m[n].blocks ensures Partly(n, m[n], m[n].blocks[l], {}) == m[n].blocks[l] {
        NothingDone(n, m[n], m[n].blocks[l]);
      }
      assert PartlyFunc(n, m[n], {}).blocks == m[n].blocks;
    }
  }

  lemma FinishModule(m: Module, gs: map<Ref, GuardRec>)
    requires WellFormedModule(m) && AllGuards(m, m.Keys, gs)
    ensures PartlyModule(m, gs.Keys) == InstrumentModule(m)
  {
    hide AllGuards, Numbered, ChainsEnd, PartlyFunc, InstrumentFunc;
    forall n | n in m ensures PartlyFunc(n, m[n], gs.Keys) == InstrumentFunc(m[n]) {
      FinishFunc(m, gs, n);
    }
  }

  lemma FinishFunc(m: Module, gs: map<Ref, GuardRec>, n: string)
    requires WellFormedModule(m) && AllGuards(m, m.Keys, gs) && n in m
    ensures PartlyFunc(n, m[n], gs.Keys) == InstrumentFunc(m[n])
  {
    hide Partly, Instrument, Numbered, ChainsEnd, MustGuard;
    var f := m[n];
    forall l | l in f.blocks ensures Partly(n, f, f.blocks[l], gs.Keys) == Instrument(f, f.blocks[l]) {
      BlockFacts(f, l);
      forall k | 0 <= k < |f.blocks[l]| && MustGuard(f, f.blocks[l][k].op) ensures (n, f.blocks[l][k].id) in gs.Keys {
        assert Occurs(f, f.blocks.Keys, f.blocks[l][k].id);
      }
      AllDone(n, f, f.blocks[l], gs.Keys);
    }
    assert PartlyFunc(n, f, gs.Keys).blocks == InstrumentFunc(f).blocks;
  }

  lemma KeepsFunc(m: Module, done: set<Ref>)
    requires WellFormedModule(m)
    ensures PartlyModule(m, done).Keys == m.Keys
  {
  }

  lemma HoldsWanted(f: Func, gs: map<Id, GuardRec>)
    requires WellFormed(f) && Holds(f, MetIn(f, f.blocks.Keys), gs)
    ensures forall id: Id :: (id in gs <==> Wanted(f, id)) && (id in gs ==> gs[id] == RecOf(f, id))
  {
    hide Numbered, ChainsEnd, MustGuard, Occurs;
  }

  // ---- the module returned, said of its instructions alone --------------------------------

  /** Instruction j of the source program in the block `r` returned has a guard in front, with its
      own pointer and flag, exactly if it is an access that is not exempt; otherwise nothing is
      inserted in front of it. */
  ghost predicate Fronted(f: Func, r: seq<Instr>, j: nat)
    requires j < |r| && r[j].Orig?
  {
    var op := r[j].op;
    if (op.Load? || op.Store?) && !OnStack(f, op.ptr) && !Allocated(f, op.ptr) then
      j > 0 && r[j - 1].Guard? && r[j - 1].at == r[j].id && r[j - 1].ptr == op.ptr &&
      r[j - 1].flags == (if op.Load? then 1 else 2) &&
      if r[j - 1].cast then j > 1 && r[j - 2] == Cast(r[j].id, op.ptr) && Plain(r, j - 2)
      else op.ptr in f.bytePtrs && Plain(r, j - 1)
    else Plain(r, j)
  }

  /** Nothing inserted stands in front of position j. */
  ghost predicate Plain(r: seq<Instr>, j: nat)
    requires j <= |r|
  {
    j == 0 || r[j - 1].Orig?
  }

  function Originals(r: seq<Instr>): seq<Instr> {
    if r == [] then [] else (if r[0].Orig? then [r[0]] else []) + Originals(r[1..])
  }

  /** `r` is the block `s` with exactly the guards that belong there. */
  ghost predicate GuardedBlock(f: Func, s: seq<Instr>, r: seq<Instr>) {
    Originals(r) == s && Plain(r, |r|) && forall j :: 0 <= j < |r| && r[j].Orig? ==> Fronted(f, r, j)
  }

  ghost predicate GuardedModule(m: Module, r: Module) {
    r.Keys == m.Keys && forall n :: n in m ==>
      && r[n].entry == m[n].entry && r[n].defs == m[n].defs && r[n].bytePtrs == m[n].bytePtrs
      && r[n].blocks.Keys == m[n].blocks.Keys
      && forall l :: l in m[n].blocks ==> GuardedBlock(m[n], m[n].blocks[l], r[n].blocks[l])
  }

  lemma {:induction false} InstrumentGuards(f: Func, s: seq<Instr>)
    requires ChainsEnd(f) && forall k :: 0 <= k < |s| ==> s[k].Orig?
    ensures GuardedBlock(f, s, Instrument(f, s))
  {
    hide ChainsEnd, GuardsFor, Fronted;
    if s != [] {
      hide GuardedBlock;
      InstrumentGuards(f, s[1..]);
      GuardedMore(f, s[0], s[1..], Instrument(f, s[1..]));
      assert s == [s[0]] + s[1..];
    }
  }

  /** One more instruction with its guard at the front of a block. */
  lemma GuardedMore(f: Func, i: Instr, s: seq<Instr>, rest: seq<Instr>)
    requires ChainsEnd(f) && i.Orig? && GuardedBlock(f, s, rest)
    ensures GuardedBlock(f, [i] + s, GuardsFor(f, i) + [i] + rest)
  {
    hide ChainsEnd, GuardsFor, Fronted, Originals;
    var a := GuardsFor(f, i) + [i];
    OnlyInserted(f, i);
    OriginalsSkip(GuardsFor(f, i), i, rest);
    FrontedHere(f, i, rest);
    forall j | 0 <= j < |a + rest| && (a + rest)[j].Orig? ensures Fronted(f, a + rest, j) {
      if j >= |a| { FrontedBehind(f, a, rest, j - |a|); }
    }
  }

  lemma OnlyInserted(f: Func, i: Instr)
    requires ChainsEnd(f)
    ensures forall k :: 0 <= k < |GuardsFor(f, i)| ==> !GuardsFor(f, i)[k].Orig?
  {
    hide ChainsEnd, MustGuard;
  }

  lemma FrontedHere(f: Func, i: Instr, rest: seq<Instr>)
    requires ChainsEnd(f) && i.Orig?
    ensures Fronted(f, GuardsFor(f, i) + [i] + rest, |GuardsFor(f, i)|)
  {
    hide MustGuard, OnStack, Allocated, ChainsEnd;
    MustGuardIff(f, i.op);
  }

  lemma FrontedBehind(f: Func, a: seq<Instr>, rest: seq<Instr>, j: nat)
    requires a != [] && a[|a| - 1].Orig? && j < |rest| && rest[j].Orig? && Fronted(f, rest, j)
    ensures Fronted(f, a + rest, |a| + j)
  {
    hide OnStack, Allocated;
    var r := a + rest;
    assert r[|a| + j] == rest[j];
    assert j > 0 ==> r[|a| + j - 1] == rest[j - 1];
    assert j > 1 ==> r[|a| + j - 2] == rest[j - 2];
  }

  lemma {:induction false} OriginalsSkip(code: seq<Instr>, i: Instr, rest: seq<Instr>)
    requires i.Orig? && forall k :: 0 <= k < |code| ==> !code[k].Orig?
    ensures Originals(code + [i] + rest) == [i] + Originals(rest)
  {
    if code == [] {
      assert code + [i] + rest == [i] + rest && ([i] + rest)[1..] == rest;
    } else {
      assert (code + [i] + rest)[1..] == code[1..] + [i] + rest;
      OriginalsSkip(code[1..], i, rest);
    }
  }

  lemma InstrumentedIsGuarded(m: Module)
    requires WellFormedModule(m)
    ensures GuardedModule(m, InstrumentModule(m))
  {
    hide Numbered, ChainsEnd, GuardedBlock, Instrument;
    forall n, l | n in m && l in m[n].blocks
      ensures GuardedBlock(m[n], m[n].blocks[l], Instrument(m[n], m[n].blocks[l]))
    {
      BlockFacts(m[n], l);
      InstrumentGuards(m[n], m[n].blocks[l]);
    }
  }

  /** The pass over a module. The functions, the blocks and the collected guards are all taken
      in an arbitrary order, and the result is the same whatever the order. */
  method RunOnModule(m: Module) returns (r: Module)
    requires WellFormedModule(m)
    ensures r == InstrumentModule(m) && GuardedModule(m, r)
  {
    hide Wanted, RecOf, Numbered, ChainsEnd, Holds, PartlyModule, InsertInFunc, GuardCode, GuardedModule;
    var allGuards: map<Ref, GuardRec> := map[];
    var todo, seen := m.Keys, {};
    while todo != {}
      invariant todo + seen == m.Keys && todo !! seen
      invariant AllGuards(m, seen, allGuards)
      decreases todo
    {
      var n :| n in todo;
      var toGuard := CollectFunc(m[n]);
      HoldsWanted(m[n], toGuard);
      allGuards := RecordAll(n, toGuard, allGuards);
      todo, seen := todo - {n}, seen + {n};
    }
    r := m;
    StartModule(m);
    var pending := allGuards.Keys;
    ghost var done: set<Ref> := {};
    while pending != {}
      invariant pending + done == allGuards.Keys && pending !! done
      invariant r == PartlyModule(m, done)
      decreases pending
    {
      var ref :| ref in pending;
      var guard := allGuards[ref];
      var (n, id) := ref;
      InsertInModule(m, done, n, id);
      KeepsFunc(m, done);
      r := r[n := InsertInFunc(r[n], id, GuardCode(m[n], id, guard.pointer, guard.flags))];
      pending, done := pending - {ref}, done + {ref};
    }
    FinishModule(m, allGuards);
    InstrumentedIsGuarded(m);
  }

  /** Adds the guards of one function to those of the module. */
  function RecordAll(n: string, toGuard: map<Id, GuardRec>, allGuards: map<Ref, GuardRec>): (r: map<Ref, GuardRec>)
    ensures forall k, id :: (k, id) in r <==> (k, id) in allGuards || (k == n && id in toGuard)
    ensures forall k, id :: (k, id) in r ==>
      r[(k, id)] == if k == n && id in toGuard then toGuard[id] else allGuards[(k, id)]
  {
    allGuards + map ref | ref in (set id | id in toGuard :: (n, id)) :: toGuard[ref.1]
  }
}
