/** A small SSA intermediate representation with the instructions the guard pass looks at,
    and its step semantics. */
module GuardIr {
  import opened Options

  type Id = nat
  type Label = nat

  datatype Operand = Local(id: Id) | Arg(n: nat) | Global(name: string) | Const(v: int)

  /** An instruction of the source program. A call with no callee is an indirect one. */
  datatype Op =
    | Alloca
    | Gep(base: Operand, offset: Operand)
    | BitCast(src: Operand, fromPointer: bool)
    | Load(ptr: Operand)
    | Store(val: Operand, ptr: Operand)
    | Add(a: Operand, b: Operand)
    | Call(callee: Option<string>, args: seq<Operand>)
    | Phi(incoming: map<Label, Operand>)
    | Br(target: Label)
    | CondBr(cond: Operand, ifTrue: Label, ifFalse: Label)
    | Ret(result: Operand)

  /** The pass inserts pointer casts and guard calls in front of instruction `at`. The cast
      defines a value of its own; a guard takes either that value or the pointer itself. */
  datatype Instr =
    | Orig(id: Id, op: Op)
    | Cast(at: Id, src: Operand)
    | Guard(at: Id, cast: bool, ptr: Operand, flags: int)

  /** `defs` gives the defining instruction of a value; `bytePtrs` are the operands already
      of type i8*. */
  datatype Func = Func(entry: Label, blocks: map<Label, seq<Instr>>, defs: map<Id, Op>, bytePtrs: set<Operand>)

  type Module = map<string, Func>

  // ---- semantics ----------------------------------------------------------------------

  datatype Reg = R(id: Id) | C(id: Id)

  datatype Event = Access(fn: string, id: Id, op: Op, addr: int) | Guarded(addr: int, flags: int)

  datatype Frame = Frame(fn: string, here: Label, prev: Label, rest: seq<Instr>, regs: map<Reg, int>, args: seq<int>)

  /** The caller's frames wait for the value of the named call. */
  datatype Stack = Bottom | Waiting(call: Id, frame: Frame, below: Stack)

  datatype Config = Config(top: Frame, stack: Stack, mem: map<int, int>, log: seq<Event>)

  /** What the program does not determine: addresses of allocas, results and memory effects
      of external calls, targets of indirect calls, addresses of globals. */
  datatype Choice = Choice(value: int, mem: map<int, int>, target: Option<string>)
  type Layout = map<string, int>

  function Lookup<K>(m: map<K, int>, k: K): int { if k in m then m[k] else 0 }

  function Eval(g: Layout, f: Frame, o: Operand): int {
    match o
    case Local(id) => Lookup(f.regs, R(id))
    case Arg(n) => if n < |f.args| then f.args[n] else 0
    case Global(name) => Lookup(g, name)
    case Const(v) => v
  }

  function Block(f: Func, l: Label): seq<Instr> { if l in f.blocks then f.blocks[l] else [] }

  /** Past the current instruction, with `v` as its value. */
  function Advance(f: Frame, r: Reg, v: int): Frame
    requires f.rest != []
  {
    f.(rest := f.rest[1..], regs := f.regs[r := v])
  }

  function Jump(m: Module, f: Frame, l: Label): Frame
    requires f.fn in m
  {
    f.(here := l, prev := f.here, rest := Block(m[f.fn], l))
  }

  function Target(m: Module, op: Op, ch: Choice): Option<string>
    requires op.Call?
  {
    var t := if op.callee.Some? then op.callee else ch.target;
    if t.Some? && t.value in m then t else None
  }

  function OpStep(m: Module, g: Layout, c: Config, id: Id, op: Op, ch: Choice): Option<Config>
    requires c.top.fn in m && c.top.rest != []
  {
    var f := c.top;
    match op
    case Alloca => Some(c.(top := Advance(f, R(id), ch.value)))
    case Gep(base, off) => Some(c.(top := Advance(f, R(id), Eval(g, f, base) + Eval(g, f, off))))
    case BitCast(src, _) => Some(c.(top := Advance(f, R(id), Eval(g, f, src))))
    case Add(a, b) => Some(c.(top := Advance(f, R(id), Eval(g, f, a) + Eval(g, f, b))))
    case Load(ptr) =>
      var addr := Eval(g, f, ptr);
      Some(c.(top := Advance(f, R(id), Lookup(c.mem, addr)), log := c.log + [Access(f.fn, id, op, addr)]))
    case Store(val, ptr) =>
      var addr := Eval(g, f, ptr);
      Some(c.(top := f.(rest := f.rest[1..]), mem := c.mem[addr := Eval(g, f, val)],
              log := c.log + [Access(f.fn, id, op, addr)]))
    case Call(_, args) =>
      var t := Target(m, op, ch);
      if t.None? then Some(c.(top := Advance(f, R(id), ch.value), mem := ch.mem))
      else
        var callee := m[t.value];
        var actuals := seq(|args|, k requires 0 <= k < |args| => Eval(g, f, args[k]));
        Some(c.(top := Frame(t.value, callee.entry, callee.entry, Block(callee, callee.entry), map[], actuals),
                stack := Waiting(id, f.(rest := f.rest[1..]), c.stack)))
    case Phi(incoming) =>
      if f.prev in incoming then Some(c.(top := Advance(f, R(id), Eval(g, f, incoming[f.prev])))) else None
    case Br(l) => Some(c.(top := Jump(m, f, l)))
    case CondBr(cond, l, l') => Some(c.(top := Jump(m, f, if Eval(g, f, cond) != 0 then l else l')))
    case Ret(v) =>
      if c.stack.Bottom? then None
      else
        var caller := c.stack.frame;
        Some(c.(top := caller.(regs := caller.regs[R(c.stack.call) := Eval(g, f, v)]), stack := c.stack.below))
  }

  /** One step; None when the program has returned from its first function or is stuck.
      texas_guard only reports, so a guard call leaves nothing but its entry in the log. */
  function Step(m: Module, g: Layout, c: Config, ch: Choice): Option<Config> {
    if c.top.fn !in m || c.top.rest == [] then None else
      match c.top.rest[0]
      case Orig(id, op) => OpStep(m, g, c, id, op, ch)
      case Cast(at, src) => Some(c.(top := Advance(c.top, C(at), Eval(g, c.top, src))))
      case Guard(at, cast, ptr, flags) =>
        var addr := if cast then Lookup(c.top.regs, C(at)) else Eval(g, c.top, ptr);
        Some(c.(top := c.top.(rest := c.top.rest[1..]), log := c.log + [Guarded(addr, flags)]))
  }

  function Start(m: Module, fn: string, args: seq<int>, mem: map<int, int>): Config
    requires fn in m
  {
    Config(Frame(fn, m[fn].entry, m[fn].entry, Block(m[fn], m[fn].entry), map[], args), Bottom, mem, [])
  }

  /** The configuration after the given choices, if the run gets that far. */
  function RunFrom(m: Module, g: Layout, c: Config, chs: seq<Choice>): Option<Config>
    decreases |chs|
  {
    if chs == [] then Some(c) else
      var r := RunFrom(m, g, c, chs[..|chs| - 1]);
      if r.None? then None else Step(m, g, r.value, chs[|chs| - 1])
  }
}
