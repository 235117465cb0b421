/** The pass keeps the meaning of a program and guards what it must. */
module GuardTheorems {
  import opened Options
  import opened GuardIr
  import opened GuardPass

  ghost predicate AllOrig(s: seq<Instr>) { forall i :: 0 <= i < |s| ==> s[i].Orig? }

  ghost predicate ChainsEndAll(m: Module) { forall n :: n in m ==> ChainsEnd(m[n]) }

  /** A program the pass has not touched, whose GEP/bitcast chains end. */
  ghost predicate Source(m: Module) {
    ChainsEndAll(m) && forall n, l :: n in m && l in m[n].blocks ==> AllOrig(m[n].blocks[l])
  }

  /** What the pass accepts is such a program. */
  lemma PassInput(m: Module)
    requires WellFormedModule(m)
    ensures Source(m)
  {
    hide ChainsEnd;
    assert forall n :: n in m ==> WellFormed(m[n]);
  }

  // ---- relating a run of the instrumented program to one of the original ---------------

  /** The log without the guard calls. */
  function Erase(log: seq<Event>): seq<Event> {
    if log == [] then [] else
      Erase(log[..|log| - 1]) + if log[|log| - 1].Guarded? then [] else [log[|log| - 1]]
  }

  /** The program's own values agree; values of inserted casts are extra. */
  ghost predicate SameRegs(r: map<Reg, int>, r': map<Reg, int>) {
    forall id :: (R(id) in r <==> R(id) in r') && (R(id) in r ==> r[R(id)] == r'[R(id)])
  }

  ghost predicate SameFrame(f: Frame, f': Frame) {
    f.fn == f'.fn && f.here == f'.here && f.prev == f'.prev && f.args == f'.args && SameRegs(f.regs, f'.regs)
  }

  ghost predicate SameStack(m: Module, s: Stack, s': Stack)
    requires Source(m)
  {
    match (s, s')
    case (Bottom, Bottom) => true
    case (Waiting(call, f, below), Waiting(call', f', below')) =>
      && call == call' && SameFrame(f, f') && f.fn in m && AllOrig(f.rest)
      && f'.rest == Instrument(m[f.fn], f.rest)
      && SameStack(m, below, below')
    case _ => false
  }

  /** The instrumented program has run the first k of the inserted instructions in front of
      the instruction where the original stands. */
  ghost predicate At(m: Module, g: Layout, c: Config, c': Config, k: nat)
    requires Source(m)
  {
    && c.top.fn in m && AllOrig(c.top.rest) && SameFrame(c.top, c'.top) && SameStack(m, c.stack, c'.stack)
    && c.mem == c'.mem && Erase(c'.log) == c.log
    && (k == 0 ==> c'.top.rest == Instrument(m[c.top.fn], c.top.rest))
    && (k > 0 ==> c.top.rest != [] && Midway(m[c.top.fn], g, c, c', k))
  }

  ghost predicate Midway(f: Func, g: Layout, c: Config, c': Config, k: nat)
    requires ChainsEnd(f) && c.top.rest != []
  {
    var i := c.top.rest[0];
    var code := GuardsFor(f, i);
    && i.Orig? && MustGuard(f, i.op) && k <= |code|
    && c'.top.rest == code[k..] + [i] + Instrument(f, c.top.rest[1..])
    && (k < |code| ==> Lookup(c'.top.regs, C(i.id)) == Eval(g, c.top, PointerOf(i.op)))
    && (k == |code| ==>
          c'.log != [] && c'.log[|c'.log| - 1] == Guarded(Eval(g, c.top, PointerOf(i.op)), FlagsOf(i.op)))
  }

  lemma SameEval(g: Layout, f: Frame, f': Frame, o: Operand)
    requires SameFrame(f, f')
    ensures Eval(g, f, o) == Eval(g, f', o)
  {
  }

  /** The inserted instructions still to run in front of the current instruction. */
  function Pending(m: Module, c: Config): (code: seq<Instr>)
    requires Source(m)
    ensures |code| <= 2
  {
    if c.top.fn !in m || c.top.rest == [] then [] else GuardsFor(m[c.top.fn], c.top.rest[0])
  }

  /** Whatever phase: the next instruction of the instrumented program is the next inserted
      one, or the original's own. */
  lemma NextInstr(m: Module, g: Layout, c: Config, c': Config, k: nat)
    requires Source(m) && At(m, g, c, c', k) && c.top.rest != []
    ensures k <= |Pending(m, c)|
    ensures c'.top.rest == Pending(m, c)[k..] + [c.top.rest[0]] + Instrument(m[c.top.fn], c.top.rest[1..])
  {
  }

  lemma PendingIs(m: Module, c: Config)
    requires Source(m) && Pending(m, c) != []
    ensures c.top.fn in m && c.top.rest != [] && c.top.rest[0].Orig? && IsAccess(c.top.rest[0].op)
    ensures var i := c.top.rest[0]; MustGuard(m[c.top.fn], i.op) && Pending(m, c) == GuardsFor(m[c.top.fn], i)
  {
  }

  /** A guard step is a stutter: the original stays where it is. */
  lemma GuardStep(m: Module, g: Layout, c: Config, c': Config, k: nat, ch: Choice)
    requires Source(m) && At(m, g, c, c', k) && k < |Pending(m, c)|
    ensures var r := Step(InstrumentModule(m), g, c', ch); r.Some? && At(m, g, c, r.value, k + 1)
  {
    hide At, Step, MustGuard, InstrumentModule;
    PendingIs(m, c);
    NextInstr(m, g, c, c', k);
    var i, code := c.top.rest[0], Pending(m, c);
    assert c'.top.rest == [code[k]] + (code[k + 1..] + [i] + Instrument(m[c.top.fn], c.top.rest[1..]));
    if code[k].Cast? { CastStep(m, g, c, c', ch); } else { ReportStep(m, g, c, c', k, ch); }
  }

  lemma CastStep(m: Module, g: Layout, c: Config, c': Config, ch: Choice)
    requires Source(m) && At(m, g, c, c', 0) && |Pending(m, c)| == 2
    requires c.top.rest != []
    requires c'.top.rest == Pending(m, c) + [c.top.rest[0]] + Instrument(m[c.top.fn], c.top.rest[1..])
    ensures var r := Step(InstrumentModule(m), g, c', ch); r.Some? && At(m, g, c, r.value, 1)
  {
    PendingIs(m, c);
    hide MustGuard, SameStack, Instrument, OpStep;
    var f, i := m[c.top.fn], c.top.rest[0];
    SameEval(g, c.top, c'.top, PointerOf(i.op));
    assert c'.top.rest[0] == Cast(i.id, PointerOf(i.op));
    assert c'.top.rest[1..] == GuardsFor(f, i)[1..] + [i] + Instrument(f, c.top.rest[1..]);
  }

  lemma ReportStep(m: Module, g: Layout, c: Config, c': Config, k: nat, ch: Choice)
    requires Source(m) && At(m, g, c, c', k) && k + 1 == |Pending(m, c)|
    requires c.top.rest != []
    requires c'.top.rest == [Pending(m, c)[k]] + [c.top.rest[0]] + Instrument(m[c.top.fn], c.top.rest[1..])
    ensures var r := Step(InstrumentModule(m), g, c', ch); r.Some? && At(m, g, c, r.value, k + 1)
  {
    PendingIs(m, c);
    hide MustGuard, SameStack, Instrument, OpStep, Erase;
    var f, i := m[c.top.fn], c.top.rest[0];
    SameEval(g, c.top, c'.top, PointerOf(i.op));
    var addr := Eval(g, c.top, PointerOf(i.op));
    assert c'.top.rest[0] == Guard(i.id, k == 1, PointerOf(i.op), FlagsOf(i.op));
    assert c'.top.rest[1..] == [i] + Instrument(f, c.top.rest[1..]);
    hide Pending, GuardsFor, At;
    var d' := c'.(top := c'.top.(rest := c'.top.rest[1..]), log := c'.log + [Guarded(addr, FlagsOf(i.op))]);
    assert Step(InstrumentModule(m), g, c', ch) == Some(d');
    Reported(m, g, c, c', d', k);
  }

  lemma Reported(m: Module, g: Layout, c: Config, c': Config, d': Config, k: nat)
    requires Source(m) && At(m, g, c, c', k) && k + 1 == |Pending(m, c)| && c.top.rest != []
    requires IsAccess(c.top.rest[0].op)
    requires var i := c.top.rest[0];
      d' == c'.(top := c'.top.(rest := [i] + Instrument(m[c.top.fn], c.top.rest[1..])),
                log := c'.log + [Guarded(Eval(g, c.top, PointerOf(i.op)), FlagsOf(i.op))])
    ensures At(m, g, c, d', k + 1)
  {
    PendingIs(m, c);
    hide MustGuard, SameStack, Instrument, Erase, Eval, ChainsEnd;
    var i := c.top.rest[0];
    EraseGuarded(c'.log, Guarded(Eval(g, c.top, PointerOf(i.op)), FlagsOf(i.op)));
    assert Pending(m, c)[k + 1..] + [i] == [i];
  }

  lemma EraseGuarded(log: seq<Event>, e: Event)
    requires e.Guarded?
    ensures Erase(log + [e]) == Erase(log)
  {
    assert (log + [e])[..|log|] == log;
  }

  lemma JumpBoth(m: Module, f: Frame, f': Frame, l: Label)
    requires Source(m) && f.fn in m && SameFrame(f, f')
    ensures var j, j' := Jump(m, f, l), Jump(InstrumentModule(m), f', l);
      SameFrame(j, j') && j.fn == f.fn && AllOrig(j.rest) && j'.rest == Instrument(m[f.fn], j.rest)
  {
  }

  lemma EraseAccess(log: seq<Event>, e: Event)
    requires e.Access?
    ensures Erase(log + [e]) == Erase(log) + [e]
  {
    assert (log + [e])[..|log|] == log;
  }

  /** The instrumented program stands at the same source instruction as the original. */
  ghost predicate Ready(m: Module, g: Layout, c: Config, c': Config)
    requires Source(m)
  {
    && c.top.fn in m && AllOrig(c.top.rest) && SameFrame(c.top, c'.top) && SameStack(m, c.stack, c'.stack)
    && c.mem == c'.mem && Erase(c'.log) == c.log && c.top.rest != []
    && c'.top.rest == [c.top.rest[0]] + Instrument(m[c.top.fn], c.top.rest[1..])
  }

  /** Both steps happen, or neither, and the results correspond. */
  ghost predicate Together(m: Module, g: Layout, r: Option<Config>, r': Option<Config>)
    requires Source(m)
  {
    match (r, r')
    case (None, None) => true
    case (Some(d), Some(d')) => At(m, g, d, d', 0)
    case _ => false
  }

  lemma LocalStep(m: Module, g: Layout, c: Config, c': Config, id: Id, op: Op, ch: Choice)
    requires Source(m) && Ready(m, g, c, c')
    requires op.Alloca? || op.Gep? || op.BitCast? || op.Add? || op.Phi?
    ensures Together(m, g, OpStep(m, g, c, id, op, ch), OpStep(InstrumentModule(m), g, c', id, op, ch))
  {
    hide Instrument, SameStack, Erase, Eval, Source;
    match op
    case Gep(base, off) => SameEval(g, c.top, c'.top, base); SameEval(g, c.top, c'.top, off);
    case BitCast(src, _) => SameEval(g, c.top, c'.top, src);
    case Add(a, b) => SameEval(g, c.top, c'.top, a); SameEval(g, c.top, c'.top, b);
    case Phi(incoming) => if c.top.prev in incoming { SameEval(g, c.top, c'.top, incoming[c.top.prev]); }
    case Alloca =>
  }

  lemma AccessStep(m: Module, g: Layout, c: Config, c': Config, id: Id, op: Op, ch: Choice)
    requires Source(m) && Ready(m, g, c, c') && IsAccess(op)
    ensures Together(m, g, OpStep(m, g, c, id, op, ch), OpStep(InstrumentModule(m), g, c', id, op, ch))
  {
    hide Instrument, SameStack, Erase, Eval, Source;
    SameEval(g, c.top, c'.top, op.ptr);
    EraseAccess(c'.log, Access(c.top.fn, id, op, Eval(g, c.top, op.ptr)));
    if op.Store? { SameEval(g, c.top, c'.top, op.val); }
  }

  lemma BranchStep(m: Module, g: Layout, c: Config, c': Config, id: Id, op: Op, ch: Choice)
    requires Source(m) && Ready(m, g, c, c') && (op.Br? || op.CondBr?)
    ensures Together(m, g, OpStep(m, g, c, id, op, ch), OpStep(InstrumentModule(m), g, c', id, op, ch))
  {
    hide Instrument, SameStack, Erase, Eval, Jump;
    match op
    case Br(l) => JumpBoth(m, c.top, c'.top, l);
    case CondBr(cond, l, l') =>
      SameEval(g, c.top, c'.top, cond);
      JumpBoth(m, c.top, c'.top, l);
      JumpBoth(m, c.top, c'.top, l');
  }

  lemma CallStep(m: Module, g: Layout, c: Config, c': Config, id: Id, op: Op, ch: Choice)
    requires Source(m) && Ready(m, g, c, c') && op.Call?
    ensures Together(m, g, OpStep(m, g, c, id, op, ch), OpStep(InstrumentModule(m), g, c', id, op, ch))
  {
    hide Instrument, Erase, Eval;
    var m' := InstrumentModule(m);
    var t := Target(m, op, ch);
    if t.Some? {
      EntryBoth(m, t.value);
      var args := op.args;
      forall k | 0 <= k < |args| ensures Eval(g, c.top, args[k]) == Eval(g, c'.top, args[k]) {
        SameEval(g, c.top, c'.top, args[k]);
      }
      assert seq(|args|, k requires 0 <= k < |args| => Eval(g, c.top, args[k]))
          == seq(|args|, k requires 0 <= k < |args| => Eval(g, c'.top, args[k]));
    }
  }

  lemma EntryBoth(m: Module, n: string)
    requires Source(m) && n in m
    ensures var f, f' := m[n], InstrumentModule(m)[n];
      f'.entry == f.entry && Block(f', f.entry) == Instrument(f, Block(f, f.entry)) && AllOrig(Block(f, f.entry))
  {
  }

  lemma RetStep(m: Module, g: Layout, c: Config, c': Config, id: Id, op: Op, ch: Choice)
    requires Source(m) && Ready(m, g, c, c') && op.Ret?
    ensures Together(m, g, OpStep(m, g, c, id, op, ch), OpStep(InstrumentModule(m), g, c', id, op, ch))
  {
    hide Instrument, Erase, Eval, Source;
    SameEval(g, c.top, c'.top, op.result);
  }

  lemma SameOpStep(m: Module, g: Layout, c: Config, c': Config, id: Id, op: Op, ch: Choice)
    requires Source(m) && Ready(m, g, c, c')
    ensures Together(m, g, OpStep(m, g, c, id, op, ch), OpStep(InstrumentModule(m), g, c', id, op, ch))
  {
    hide Source, Ready, Together, OpStep;
    match op
    case Load(_) => AccessStep(m, g, c, c', id, op, ch);
    case Store(_, _) => AccessStep(m, g, c, c', id, op, ch);
    case Br(_) => BranchStep(m, g, c, c', id, op, ch);
    case CondBr(_, _, _) => BranchStep(m, g, c, c', id, op, ch);
    case Call(_, _) => CallStep(m, g, c, c', id, op, ch);
    case Ret(_) => RetStep(m, g, c, c', id, op, ch);
    case _ => LocalStep(m, g, c, c', id, op, ch);
  }

  /** Once the inserted code has run, the two programs take the same step. */
  lemma OwnStep(m: Module, g: Layout, c: Config, c': Config, ch: Choice)
    requires Source(m) && At(m, g, c, c', |Pending(m, c)|)
    ensures Together(m, g, Step(m, g, c, ch), Step(InstrumentModule(m), g, c', ch))
  {
    hide SameStack, Erase, Eval, OpStep, MustGuard, At;
    if c.top.rest != [] {
      NextInstr(m, g, c, c', |Pending(m, c)|);
      AtReady(m, g, c, c');
      SameOpStep(m, g, c, c', c.top.rest[0].id, c.top.rest[0].op, ch);
    } else {
      AtEnd(m, g, c, c');
    }
  }

  lemma AtReady(m: Module, g: Layout, c: Config, c': Config)
    requires Source(m) && At(m, g, c, c', |Pending(m, c)|) && c.top.rest != []
    ensures Ready(m, g, c, c') && c'.top.rest[0] == c.top.rest[0] && c.top.rest[0].Orig?
  {
    NextInstr(m, g, c, c', |Pending(m, c)|);
  }

  lemma AtEnd(m: Module, g: Layout, c: Config, c': Config)
    requires Source(m) && At(m, g, c, c', 0) && c.top.rest == []
    ensures c'.top.rest == []
  {
  }

  // ---- whole runs ---------------------------------------------------------------------

  /** `a` is `b` with some entries left out. */
  ghost predicate Subsequence(a: seq<Choice>, b: seq<Choice>)
    decreases |b|
  {
    if b == [] then a == [] else
      || Subsequence(a, b[..|b| - 1])
      || (a != [] && a[|a| - 1] == b[|b| - 1] && Subsequence(a[..|a| - 1], b[..|b| - 1]))
  }

  lemma StartTogether(m: Module, g: Layout, fn: string, args: seq<int>, mem: map<int, int>)
    requires Source(m) && fn in m
    ensures At(m, g, Start(m, fn, args, mem), Start(InstrumentModule(m), fn, args, mem), 0)
  {
    EntryBoth(m, fn);
  }

  /** Every run of the instrumented program is a run of the original one, with the inserted
      instructions as stutters: same memory, same values, same accesses in the log. */
  lemma {:induction false} InstrumentedRunIsOriginal(
    m: Module, g: Layout, fn: string, args: seq<int>, mem: map<int, int>, chs': seq<Choice>)
    returns (chs: seq<Choice>, k: nat)
    requires Source(m) && fn in m
    requires RunFrom(InstrumentModule(m), g, Start(InstrumentModule(m), fn, args, mem), chs').Some?
    ensures Subsequence(chs, chs')
    ensures RunFrom(m, g, Start(m, fn, args, mem), chs).Some?
    ensures At(m, g, RunFrom(m, g, Start(m, fn, args, mem), chs).value,
               RunFrom(InstrumentModule(m), g, Start(InstrumentModule(m), fn, args, mem), chs').value, k)
    decreases |chs'|
  {
    hide At, Step, Pending;
    if chs' == [] {
      StartTogether(m, g, fn, args, mem);
      return [], 0;
    }
    var n := |chs'| - 1;
    var before, j := InstrumentedRunIsOriginal(m, g, fn, args, mem, chs'[..n]);
    var c := RunFrom(m, g, Start(m, fn, args, mem), before).value;
    var c' := RunFrom(InstrumentModule(m), g, Start(InstrumentModule(m), fn, args, mem), chs'[..n]).value;
    PhaseBound(m, g, c, c', j);
    if j < |Pending(m, c)| {
      GuardStep(m, g, c, c', j, chs'[n]);
      return before, j + 1;
    }
    OwnStep(m, g, c, c', chs'[n]);
    chs, k := before + [chs'[n]], 0;
    assert chs[..|chs| - 1] == before;
  }

  lemma PhaseBound(m: Module, g: Layout, c: Config, c': Config, k: nat)
    requires Source(m) && At(m, g, c, c', k)
    ensures k <= |Pending(m, c)|
  {
  }

  /** Every run of the original program is matched by a run of the instrumented one. */
  lemma {:induction false} OriginalRunIsInstrumented(
    m: Module, g: Layout, fn: string, args: seq<int>, mem: map<int, int>, chs: seq<Choice>)
    returns (chs': seq<Choice>)
    requires Source(m) && fn in m
    requires RunFrom(m, g, Start(m, fn, args, mem), chs).Some?
    ensures RunFrom(InstrumentModule(m), g, Start(InstrumentModule(m), fn, args, mem), chs').Some?
    ensures At(m, g, RunFrom(m, g, Start(m, fn, args, mem), chs).value,
               RunFrom(InstrumentModule(m), g, Start(InstrumentModule(m), fn, args, mem), chs').value, 0)
    decreases |chs|
  {
    hide At, Step, Pending;
    var m', s' := InstrumentModule(m), Start(InstrumentModule(m), fn, args, mem);
    if chs == [] {
      StartTogether(m, g, fn, args, mem);
      return [];
    }
    var n := |chs| - 1;
    chs' := OriginalRunIsInstrumented(m, g, fn, args, mem, chs[..n]);
    var c := RunFrom(m, g, Start(m, fn, args, mem), chs[..n]).value;
    var k := 0;
    while k < |Pending(m, c)|
      invariant k <= |Pending(m, c)|
      invariant RunFrom(m', g, s', chs').Some? && At(m, g, c, RunFrom(m', g, s', chs').value, k)
    {
      GuardStep(m, g, c, RunFrom(m', g, s', chs').value, k, chs[n]);
      assert (chs' + [chs[n]])[..|chs'|] == chs';
      chs', k := chs' + [chs[n]], k + 1;
    }
    OwnStep(m, g, c, RunFrom(m', g, s', chs').value, chs[n]);
    assert (chs' + [chs[n]])[..|chs'|] == chs';
    chs' := chs' + [chs[n]];
  }

  // ---- every access that needs a guard has one -----------------------------------------

  ghost predicate NeedsGuard(m: Module, e: Event)
    requires ChainsEndAll(m)
  {
    e.Access? && e.fn in m && (e.op.Load? || e.op.Store?) &&
    !OnStack(m[e.fn], e.op.ptr) && !Allocated(m[e.fn], e.op.ptr)
  }

  /** The guard call that belongs in front of an access. */
  function GuardOf(e: Event): Event
    requires e.Access?
  {
    Guarded(e.addr, if e.op.Load? then 1 else 2)
  }

  /** An access that needs a guard comes at once after its guard; a guard is followed at once
      by an access that needed it, or ends the log. */
  ghost predicate WellGuarded(m: Module, log: seq<Event>)
    requires ChainsEndAll(m)
  {
    && (forall j :: 0 <= j < |log| && NeedsGuard(m, log[j]) ==> j > 0 && log[j - 1] == GuardOf(log[j]))
    && (forall j :: 0 <= j < |log| - 1 && log[j].Guarded? ==>
          NeedsGuard(m, log[j + 1]) && log[j] == GuardOf(log[j + 1]))
  }

  /** A guard ends the log only while its access is about to run. */
  ghost predicate GuardPending(m: Module, c: Config, log: seq<Event>, k: nat)
    requires Source(m)
  {
    log != [] && log[|log| - 1].Guarded? ==> 0 < k == |Pending(m, c)|
  }

  lemma GuardStepLogs(m: Module, g: Layout, c: Config, c': Config, k: nat, ch: Choice)
    requires Source(m) && At(m, g, c, c', k) && k < |Pending(m, c)|
    requires WellGuarded(m, c'.log) && GuardPending(m, c, c'.log, k)
    ensures var r := Step(InstrumentModule(m), g, c', ch);
      r.Some? && WellGuarded(m, r.value.log) && GuardPending(m, c, r.value.log, k + 1)
  {
    hide Instrument, SameStack, Erase, Eval, MustGuard;
    NextInstr(m, g, c, c', k);
    assert c'.top.rest[0] == Pending(m, c)[k];
  }

  lemma OwnStepLogs(m: Module, g: Layout, c: Config, c': Config, ch: Choice)
    requires Source(m) && At(m, g, c, c', |Pending(m, c)|)
    requires WellGuarded(m, c'.log) && GuardPending(m, c, c'.log, |Pending(m, c)|)
    requires Step(m, g, c, ch).Some?
    ensures var r := Step(InstrumentModule(m), g, c', ch);
      r.Some? && WellGuarded(m, r.value.log) && GuardPending(m, Step(m, g, c, ch).value, r.value.log, 0)
  {
    hide At, WellGuarded, Together, Eval, GuardsFor, Pending, OnStack, Allocated, MustGuard;
    OwnStep(m, g, c, c', ch);
    OwnStepSome(m, g, Step(m, g, c, ch), Step(InstrumentModule(m), g, c', ch));
    OneLogEntry(m, g, c, c', ch);
    var op := c.top.rest[0].op;
    if IsAccess(op) {
      LastGuard(m, g, c, c');
      MustGuardIff(m[c.top.fn], op);
      AppendAccess(m, c'.log, Access(c.top.fn, c.top.rest[0].id, op, Eval(g, c.top, op.ptr)));
    } else {
      NothingPending(m, c);
    }
    StillPending(m, Step(m, g, c, ch).value, Step(InstrumentModule(m), g, c', ch).value.log, c, c'.log);
  }

  lemma OwnStepSome(m: Module, g: Layout, r: Option<Config>, r': Option<Config>)
    requires Source(m) && Together(m, g, r, r') && r.Some?
    ensures r'.Some?
  {
  }

  lemma NothingPending(m: Module, c: Config)
    requires Source(m) && c.top.fn in m && c.top.rest != [] && c.top.rest[0].Orig? && !IsAccess(c.top.rest[0].op)
    ensures Pending(m, c) == []
  {
  }

  /** The log after the step: one access more, or nothing. */
  lemma OneLogEntry(m: Module, g: Layout, c: Config, c': Config, ch: Choice)
    requires Source(m) && At(m, g, c, c', |Pending(m, c)|) && Step(InstrumentModule(m), g, c', ch).Some?
    requires Step(m, g, c, ch).Some?
    ensures c.top.fn in m && c.top.rest != [] && c.top.rest[0].Orig?
    ensures var i := c.top.rest[0];
      Step(InstrumentModule(m), g, c', ch).value.log ==
        c'.log + if IsAccess(i.op) then [Access(c.top.fn, i.id, i.op, Eval(g, c.top, i.op.ptr))] else []
  {
    hide SameStack, Erase, Instrument, Eval, GuardsFor;
    assert c.top.fn in m && c.top.rest != [];
    AtReady(m, g, c, c');
    var op := c.top.rest[0].op;
    if IsAccess(op) { SameEval(g, c.top, c'.top, op.ptr); }
  }

  lemma StillPending(m: Module, d: Config, log': seq<Event>, c: Config, log: seq<Event>)
    requires Source(m) && GuardPending(m, c, log, |Pending(m, c)|)
    requires (log' == log && Pending(m, c) == []) || (log' != [] && log'[|log'| - 1].Access?)
    ensures GuardPending(m, d, log', 0)
  {
  }

  lemma LastGuard(m: Module, g: Layout, c: Config, c': Config)
    requires Source(m) && At(m, g, c, c', |Pending(m, c)|) && c.top.rest != [] && IsAccess(c.top.rest[0].op)
    ensures MustGuard(m[c.top.fn], c.top.rest[0].op) ==>
      c'.log != [] && c'.log[|c'.log| - 1] == Guarded(Eval(g, c.top, c.top.rest[0].op.ptr), FlagsOf(c.top.rest[0].op))
    ensures !MustGuard(m[c.top.fn], c.top.rest[0].op) ==> |Pending(m, c)| == 0
  {
  }

  lemma AppendAccess(m: Module, log: seq<Event>, e: Event)
    requires ChainsEndAll(m) && WellGuarded(m, log) && e.Access?
    requires NeedsGuard(m, e) ==> log != [] && log[|log| - 1] == GuardOf(e)
    requires !NeedsGuard(m, e) ==> log == [] || !log[|log| - 1].Guarded?
    ensures WellGuarded(m, log + [e])
  {
    hide OnStack, Allocated;
  }

  /** Guard coverage: in every run of the instrumented program, every load or store whose
      pointer no chain of GEPs and bitcasts leads to an alloca and whose pointer is not itself an allocator's result
      comes at once after a guard call with its address and its flag, and no guard call
      stands anywhere else. */
  lemma {:induction false} EveryAccessGuarded(
    m: Module, g: Layout, fn: string, args: seq<int>, mem: map<int, int>, chs': seq<Choice>)
    requires Source(m) && fn in m
    requires RunFrom(InstrumentModule(m), g, Start(InstrumentModule(m), fn, args, mem), chs').Some?
    ensures WellGuarded(m, RunFrom(InstrumentModule(m), g, Start(InstrumentModule(m), fn, args, mem), chs').value.log)
  {
    var _, _ := RunWithLog(m, g, fn, args, mem, chs');
  }

  lemma {:induction false} RunWithLog(
    m: Module, g: Layout, fn: string, args: seq<int>, mem: map<int, int>, chs': seq<Choice>)
    returns (c: Config, k: nat)
    requires Source(m) && fn in m
    requires RunFrom(InstrumentModule(m), g, Start(InstrumentModule(m), fn, args, mem), chs').Some?
    ensures var c' := RunFrom(InstrumentModule(m), g, Start(InstrumentModule(m), fn, args, mem), chs').value;
      At(m, g, c, c', k) && WellGuarded(m, c'.log) && GuardPending(m, c, c'.log, k)
    decreases |chs'|
  {
    hide At, Step, Pending, NeedsGuard;
    if chs' == [] {
      StartTogether(m, g, fn, args, mem);
      return Start(m, fn, args, mem), 0;
    }
    var n := |chs'| - 1;
    var b, j := RunWithLog(m, g, fn, args, mem, chs'[..n]);
    var c' := RunFrom(InstrumentModule(m), g, Start(InstrumentModule(m), fn, args, mem), chs'[..n]).value;
    PhaseBound(m, g, b, c', j);
    if j < |Pending(m, b)| {
      GuardStep(m, g, b, c', j, chs'[n]);
      GuardStepLogs(m, g, b, c', j, chs'[n]);
      return b, j + 1;
    }
    OwnStep(m, g, b, c', chs'[n]);
    OwnStepLogs(m, g, b, c', chs'[n]);
    c, k := Step(m, g, b, chs'[n]).value, 0;
  }
}
