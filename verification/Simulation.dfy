/** The compiler preserves meaning: running the indexed operations in the machine follows, line by
    line, what the source says about names. */
module Simulation {
  import opened Wrappers
  import opened Field
  import opened Assembly
  import opened Compiler
  import Vm

  /* ----- from compiled tables to the machine's instructions ----- */

  /** A constant has no encoding as a variable reference. */
  function LowerRef(r: Ref): Option<Vm.VariableRef> {
    match r
    case AuxRef(i) => Some(Vm.Aux(i))
    case LocalRef(i) => Some(Vm.Local(i))
    case ConstRef(_) => None
  }

  function LowerOp<S>(o: Operation<S>): Option<Vm.CryptoOperation> {
    var n := if o.command == Load then 1 else |o.args|;
    if n > |o.args| || n > 3 || exists i :: 0 <= i < n && LowerRef(o.args[i]).None? then None
    else
      var a := if n > 0 then LowerRef(o.args[0]).value else Vm.Aux(0);
      var b := if n > 1 then LowerRef(o.args[1]).value else Vm.Aux(0);
      var c := if n > 2 then LowerRef(o.args[2]).value else Vm.Aux(0);
      if |o.args| != (if o.command == Local then 0 else Arity(Op(o.command))) then None
      else Some(match o.command
        case Set => Vm.Set(a, b)
        case Mul => Vm.Mul(a, b)
        case Add => Vm.Add(a, b)
        case Sub => Vm.Sub(a, b)
        case Divide => Vm.Divide(a, b)
        case Double => Vm.Double(a)
        case Square => Vm.Square(a)
        case Invert => Vm.Invert(a)
        case UnpackBits => Vm.UnpackBits(a, b, c)
        case Load => Vm.Load(a, o.args[1].index)
        case Local => Vm.LocalDecl
        case Debug => Vm.Debug(o.line.text, a)
        case DumpAlloc => Vm.DumpAlloc
        case DumpLocal => Vm.DumpLocal)
  }

  function LowerOps<S>(ops: seq<Operation<S>>): (r: Option<seq<Vm.CryptoOperation>>)
    ensures r.Some? <==> forall i :: 0 <= i < |ops| ==> LowerOp(ops[i]).Some?
    ensures r.Some? ==> |r.value| == |ops| && forall i :: 0 <= i < |ops| ==> r.value[i] == LowerOp(ops[i]).value
    decreases |ops|
  {
    if ops == [] then Some([])
    else
      var init, last := LowerOps(ops[..|ops| - 1]), LowerOp(ops[|ops| - 1]);
      if init.None? || last.None? then None else Some(init.value + [last.value])
  }

  /* ----- the meaning of the source ----- */

  /** Values by name. `slots` numbers the locals in the order in which the machine stacks them, and
      `pushed` counts the `local` lines so far. */
  datatype Env<S> = Env(vars: map<S, Fp>, locals: map<S, Fp>, slots: map<S, nat>, pushed: nat)

  /** A run ends normally or with one of the machine's errors; it is stuck at a line without meaning. */
  datatype SrcOutcome<S> = SrcDone(env: Env<S>) | SrcFailed(e: Vm.VmError, env: Env<S>) | SrcStuck

  /** Variables hide locals, and both hide constants. */
  predicate Known<S>(env: Env<S>, s: S) { s in env.vars || s in env.locals }

  function Value<S>(env: Env<S>, s: S): Fp
    requires Known(env, s)
  {
    if s in env.vars then env.vars[s] else env.locals[s]
  }

  function Assign<S>(env: Env<S>, s: S, v: Fp): Env<S>
    requires Known(env, s)
  {
    if s in env.vars then env.(vars := env.vars[s := v]) else env.(locals := env.locals[s := v])
  }

  /** A first declaration makes a new local with value zero, and so does declaring a name once more,
      the first time a program does so; declaring it again and again leaves it as it is. */
  function DeclareLocal<S>(env: Env<S>, s: S): Env<S>
    requires MayDeclare(env.slots, env.pushed, s) && env.locals.Keys == env.slots.Keys
  {
    var v := if |env.slots| == env.pushed then ZERO else env.locals[s];
    Env(env.vars, env.locals[s := v], Declare(env.slots, s), env.pushed + 1)
  }

  /** The slot that the compiler gives the name is not in use by another one: either all names so far
      are distinct, or this name already has that slot. */
  predicate MayDeclare<S>(slots: map<S, nat>, pushed: nat, s: S) {
    |slots| == pushed || (s in slots && slots[s] == |slots|)
  }

  function SlotOf<S(==)>(alloc: seq<Variable<S>>, s: S): nat {
    if FindVariable(alloc, s).Some? then FindVariable(alloc, s).value.index else 0
  }

  /** The names from start to end, in order of declaration, take the bits of the value. */
  function UnpackVars<S(==)>(alloc: seq<Variable<S>>, env: Env<S>, start: nat, v: Fp): Env<S> {
    env.(vars := map s | s in env.vars ::
      if start <= SlotOf(alloc, s) < start + Vm.BITS then Vm.BitOf(v, SlotOf(alloc, s) - start) else env.vars[s])
  }

  function UnpackLocals<S>(env: Env<S>, start: nat, v: Fp): Env<S>
    requires env.locals.Keys == env.slots.Keys
  {
    env.(locals := map s | s in env.locals ::
      if start <= env.slots[s] < start + Vm.BITS then Vm.BitOf(v, env.slots[s] - start) else env.locals[s])
  }

  /** What a line needs to have a meaning: known names where values are read or written, a constant
      where one is loaded, and a usable slot for a local. */
  predicate Meaningful<S(==)>(constants: seq<S>, values: seq<Fp>, env: Env<S>, line: Line<S>) {
    line.command.Op? ==>
      && |line.args| == Arity(line.command)
      && (match line.command.op
          case Local => MayDeclare(env.slots, env.pushed, line.args[0])
          case Load =>
            && Known(env, line.args[0]) && !Known(env, line.args[1])
            && FindConstant(constants, line.args[1]).Some? && FindConstant(constants, line.args[1]).value < |values|
          case _ => forall i :: 0 <= i < |line.args| ==> Known(env, line.args[i]))
  }

  ghost function SrcUnpack<S>(alloc: seq<Variable<S>>, env: Env<S>, value: S, start: S, end: S): SrcOutcome<S>
    requires Known(env, value) && Known(env, start) && Known(env, end) && env.locals.Keys == env.slots.Keys
  {
    var v := Value(env, value);
    if start in env.vars && end in env.vars then
      var (i, j) := (SlotOf(alloc, start), SlotOf(alloc, end));
      if Vm.GoodRange(i, j, |alloc|) then SrcDone(UnpackVars(alloc, env, i, v)) else SrcFailed(Vm.MalformedRange, env)
    else if start !in env.vars && end !in env.vars then
      var (i, j) := (env.slots[start], env.slots[end]);
      if Vm.GoodRange(i, j, env.pushed) then SrcDone(UnpackLocals(env, i, v)) else SrcFailed(Vm.MalformedRange, env)
    else SrcFailed(Vm.MalformedRange, env)
  }

  ghost function SrcStep<S>(alloc: seq<Variable<S>>, constants: seq<S>, values: seq<Fp>, env: Env<S>,
                            line: Line<S>): SrcOutcome<S>
    requires Meaningful(constants, values, env, line) && env.locals.Keys == env.slots.Keys
  {
    if !line.command.Op? then SrcDone(env)
    else
      var args := line.args;
      match line.command.op
      case Set => SrcDone(Assign(env, args[0], Value(env, args[1])))
      case Mul => SrcDone(Assign(env, args[0], Field.Mul(Value(env, args[0]), Value(env, args[1]))))
      case Add => SrcDone(Assign(env, args[0], Field.Add(Value(env, args[0]), Value(env, args[1]))))
      case Sub => SrcDone(Assign(env, args[0], Field.Sub(Value(env, args[0]), Value(env, args[1]))))
      case Divide =>
        if Value(env, args[1]) == ZERO then SrcFailed(Vm.DivisionByZero, env)
        else SrcDone(Assign(env, args[0], Div(Value(env, args[0]), Value(env, args[1]))))
      case Double => SrcDone(Assign(env, args[0], Field.Add(Value(env, args[0]), Value(env, args[0]))))
      case Square => SrcDone(Assign(env, args[0], Field.Mul(Value(env, args[0]), Value(env, args[0]))))
      case Invert =>
        if Value(env, args[0]) == ZERO then SrcFailed(Vm.DivisionByZero, env)
        else SrcDone(Assign(env, args[0], Inv(Value(env, args[0]))))
      case UnpackBits => SrcUnpack(alloc, env, args[0], args[1], args[2])
      case Load => SrcDone(Assign(env, args[0], values[FindConstant(constants, args[1]).value]))
      case Local => SrcDone(DeclareLocal(env, args[0]))
      case Debug => SrcDone(env)
      case DumpAlloc => SrcDone(env)
      case DumpLocal => SrcDone(env)
  }

  /* ----- the relation between names and indices ----- */

  /** The part of the relation that is about the stack of locals. */
  ghost predicate StackRelated<S(!new)>(locals: map<S, Fp>, slots: map<S, nat>, pushed: nat, stack: seq<Fp>) {
    && locals.Keys == slots.Keys
    && (forall s :: s in slots ==> slots[s] < |stack| && locals[s] == stack[slots[s]])
    && (forall s, t :: s in slots && t in slots && slots[s] == slots[t] ==> s == t)
    && |stack| == pushed && |slots| <= pushed
  }

  ghost predicate Related<S(!new)>(alloc: seq<Variable<S>>, env: Env<S>, st: Vm.State) {
    && |st.aux| == |alloc|
    && (forall s :: s in env.vars <==> FindVariable(alloc, s).Some?)
    && (forall s :: s in env.vars ==> SlotOf(alloc, s) < |st.aux| && env.vars[s] == st.aux[SlotOf(alloc, s)])
    && StackRelated(env.locals, env.slots, env.pushed, st.locals)
  }

  ghost predicate RelatedOutcome<S(!new)>(alloc: seq<Variable<S>>, src: SrcOutcome<S>, o: Vm.Outcome) {
    match src
    case SrcDone(env) => o.Done? && Related(alloc, env, o.s)
    case SrcFailed(e, env) => o.Failed? && o.e == e && Related(alloc, env, o.s)
    case SrcStuck => false
  }

  /** Distinct symbols have distinct indices. */
  lemma {:induction false} SlotsDistinct<S(!new)>(alloc: seq<Variable<S>>, s: S, t: S)
    requires WellFormedTable(alloc) && FindVariable(alloc, s).Some? && FindVariable(alloc, t).Some?
    ensures SlotOf(alloc, s) < |alloc| && alloc[SlotOf(alloc, s)].symbol == s
    ensures SlotOf(alloc, s) == SlotOf(alloc, t) ==> s == t
  {
    FindIsPosition(alloc, s);
    FindIsPosition(alloc, t);
  }

  function RefOf<S(==)>(alloc: seq<Variable<S>>, env: Env<S>, s: S): Vm.VariableRef
    requires Known(env, s) && env.locals.Keys == env.slots.Keys
  {
    if s in env.vars then Vm.Aux(SlotOf(alloc, s)) else Vm.Local(env.slots[s])
  }

  /** Reading and writing agree. */
  lemma {:induction false} ReadAgrees<S(!new)>(alloc: seq<Variable<S>>, env: Env<S>, st: Vm.State, s: S)
    requires Related(alloc, env, st) && Known(env, s)
    ensures var r := RefOf(alloc, env, s); Vm.InRange(r, st) && Vm.Read(r, st) == Value(env, s)
  {}

  lemma {:induction false} WriteAgrees<S(!new)>(alloc: seq<Variable<S>>, env: Env<S>, st: Vm.State, s: S, v: Fp)
    requires WellFormedTable(alloc) && Related(alloc, env, st) && Known(env, s)
    ensures var r := RefOf(alloc, env, s); Vm.InRange(r, st) && Related(alloc, Assign(env, s, v), Vm.Write(r, st, v))
  {
    forall t | t in env.vars && s in env.vars && SlotOf(alloc, t) == SlotOf(alloc, s) ensures t == s {
      SlotsDistinct(alloc, s, t);
    }
  }

  /* ----- one line ----- */

  /** The scope the compiler has reached matches the environment of the run. */
  ghost predicate SameScope<S(!new)>(scope: Scope<S>, env: Env<S>) {
    && scope.locals == env.slots && env.locals.Keys == env.slots.Keys
    && (forall s :: s in env.vars <==> FindVariable(scope.alloc, s).Some?)
  }

  /** A line that compiles to an encodable operation has a meaning. */
  lemma {:induction false} CompiledIsMeaningful<S(!new)>(scope: Scope<S>, env: Env<S>, values: seq<Fp>, line: Line<S>)
    requires SameScope(scope, env) && |values| == |scope.constants|
    requires line.command.Op? && CompileOp(scope, line).Some? && LowerOp(CompileOp(scope, line).value.1[0]).Some?
    requires line.command.op == Local ==> MayDeclare(env.slots, env.pushed, line.args[0])
    ensures Meaningful(scope.constants, values, env, line)
    ensures forall i :: 0 <= i < |line.args| && line.command.op != Local && !(line.command.op == Load && i == 1) ==>
      Known(env, line.args[i])
      && LowerRef(Resolve(scope, line.args[i]).value) == Some(RefOf(scope.alloc, env, line.args[i]))
  {
    if line.command.op != Local {
      var o := CompileOp(scope, line).value.1[0];
      if line.command.op == Load { FindConstantInRange(scope.constants, line.args[1]); }
      forall i | 0 <= i < |line.args| && !(line.command.op == Load && i == 1)
        ensures Known(env, line.args[i])
        ensures LowerRef(Resolve(scope, line.args[i]).value) == Some(RefOf(scope.alloc, env, line.args[i]))
      {
        assert LowerRef(o.args[i]).Some?;
      }
    }
  }

  lemma {:induction false} FindConstantInRange<S>(constants: seq<S>, s: S)
    ensures FindConstant(constants, s).Some? ==> FindConstant(constants, s).value < |constants|
    decreases |constants|
  {
    if constants != [] { FindConstantInRange(constants[..|constants| - 1], s); }
  }

  /** The instruction of a line, in terms of the references of its names. */
  function Instruction<S(==)>(alloc: seq<Variable<S>>, constants: seq<S>, env: Env<S>,
                              line: Line<S>): Vm.CryptoOperation
    requires line.command.Op? && |line.args| == Arity(line.command) && env.locals.Keys == env.slots.Keys
    requires line.command.op != Local ==>
      forall i :: 0 <= i < |line.args| && !(line.command.op == Load && i == 1) ==> Known(env, line.args[i])
    requires line.command.op == Load ==> FindConstant(constants, line.args[1]).Some?
  {
    var ref := i requires 0 <= i < |line.args| && Known(env, line.args[i]) => RefOf(alloc, env, line.args[i]);
    match line.command.op
    case Set => Vm.Set(ref(0), ref(1))
    case Mul => Vm.Mul(ref(0), ref(1))
    case Add => Vm.Add(ref(0), ref(1))
    case Sub => Vm.Sub(ref(0), ref(1))
    case Divide => Vm.Divide(ref(0), ref(1))
    case Double => Vm.Double(ref(0))
    case Square => Vm.Square(ref(0))
    case Invert => Vm.Invert(ref(0))
    case UnpackBits => Vm.UnpackBits(ref(0), ref(1), ref(2))
    case Load => Vm.Load(ref(0), FindConstant(constants, line.args[1]).value)
    case Local => Vm.LocalDecl
    case Debug => Vm.Debug(line.text, ref(0))
    case DumpAlloc => Vm.DumpAlloc
    case DumpLocal => Vm.DumpLocal
  }

  lemma {:induction false} LoweredInstruction<S(!new)>(scope: Scope<S>, env: Env<S>, values: seq<Fp>, line: Line<S>)
    requires SameScope(scope, env) && |values| == |scope.constants|
    requires line.command.Op? && CompileOp(scope, line).Some? && LowerOp(CompileOp(scope, line).value.1[0]).Some?
    requires line.command.op == Local ==> MayDeclare(env.slots, env.pushed, line.args[0])
    ensures Meaningful(scope.constants, values, env, line)
    ensures LowerOp(CompileOp(scope, line).value.1[0]).value == Instruction(scope.alloc, scope.constants, env, line)
  {
    hide Resolve, FindVariable, FindConstant, RefOf;
    CompiledIsMeaningful(scope, env, values, line);
    var o := CompileOp(scope, line).value.1[0];
    if line.command.op == Load { ConstantRef(scope, line.args[1]); }
  }

  lemma ConstantRef<S>(scope: Scope<S>, s: S)
    requires Resolve(scope, s).Some? && Resolve(scope, s).value.ConstRef?
    ensures FindConstant(scope.constants, s) == Some(Resolve(scope, s).value.index)
  {}

  lemma {:induction false} Apply2Simulates<S(!new)>(alloc: seq<Variable<S>>, env: Env<S>, st: Vm.State, a: S, b: S,
                                                    f: (Fp, Fp) -> Fp)
    requires WellFormedTable(alloc) && Related(alloc, env, st) && Known(env, a) && Known(env, b)
    ensures RelatedOutcome(alloc, SrcDone(Assign(env, a, f(Value(env, a), Value(env, b)))),
                           Vm.Apply2(RefOf(alloc, env, a), RefOf(alloc, env, b), st, f))
  {
    hide Related;
    ReadAgrees(alloc, env, st, a);
    ReadAgrees(alloc, env, st, b);
    WriteAgrees(alloc, env, st, a, f(Value(env, a), Value(env, b)));
  }

  lemma {:induction false} UnpackVarsSimulates<S(!new)>(alloc: seq<Variable<S>>, env: Env<S>, st: Vm.State, start: nat,
                                                        v: Fp)
    requires WellFormedTable(alloc) && Related(alloc, env, st) && start + Vm.BITS <= |alloc|
    ensures Related(alloc, UnpackVars(alloc, env, start, v), st.(aux := Vm.WithBits(st.aux, start, v)))
  {}

  lemma {:induction false} UnpackLocalsSimulates<S(!new)>(alloc: seq<Variable<S>>, env: Env<S>, st: Vm.State,
                                                          start: nat, v: Fp)
    requires WellFormedTable(alloc) && Related(alloc, env, st) && start + Vm.BITS <= |st.locals|
    ensures Related(alloc, UnpackLocals(env, start, v), st.(locals := Vm.WithBits(st.locals, start, v)))
  {}

  /** A new slot on top of the stack is no other name's. */
  lemma {:induction false} FreshSlot<S(!new)>(locals: map<S, Fp>, slots: map<S, nat>, pushed: nat, stack: seq<Fp>, s: S)
    requires StackRelated(locals, slots, pushed, stack) && |slots| == pushed
    ensures StackRelated(locals[s := ZERO], Declare(slots, s), pushed + 1, stack + [ZERO])
  {
    DeclareSize(slots, s);
  }

  lemma DeclareSize<S>(slots: map<S, nat>, s: S)
    ensures |Declare(slots, s)| <= |slots| + 1
  {
    assert Declare(slots, s).Keys == slots.Keys + {s};
  }

  lemma {:induction false} DeclareFresh<S(!new)>(alloc: seq<Variable<S>>, env: Env<S>, st: Vm.State, s: S)
    requires Related(alloc, env, st) && |env.slots| == env.pushed
    ensures Related(alloc, DeclareLocal(env, s), st.(locals := st.locals + [ZERO]))
  {
    hide StackRelated, Declare, FindVariable, SlotOf;
    FreshSlot(env.locals, env.slots, env.pushed, st.locals, s);
  }

  lemma {:induction false} DeclareAgain<S(!new)>(alloc: seq<Variable<S>>, env: Env<S>, st: Vm.State, s: S)
    requires Related(alloc, env, st) && |env.slots| < env.pushed && s in env.slots && env.slots[s] == |env.slots|
    ensures Related(alloc, DeclareLocal(env, s), st.(locals := st.locals + [ZERO]))
  {
    assert Declare(env.slots, s) == env.slots;
    assert DeclareLocal(env, s).locals == env.locals;
  }

  /** The operations that combine two values. */
  predicate Combines(c: OpCommand) {
    c.Set? || c.Mul? || c.Add? || c.Sub? || c.Double? || c.Square?
  }

  function Combination(c: OpCommand): (Fp, Fp) -> Fp
    requires Combines(c)
  {
    match c
    case Set => (_: Fp, b: Fp) => b
    case Mul => (a: Fp, b: Fp) => Field.Mul(a, b)
    case Add => (a: Fp, b: Fp) => Field.Add(a, b)
    case Sub => (a: Fp, b: Fp) => Field.Sub(a, b)
    case Double => (a: Fp, b: Fp) => Field.Add(a, b)
    case Square => (a: Fp, b: Fp) => Field.Mul(a, b)
  }

  lemma {:induction false} RelatedKeys<S(!new)>(alloc: seq<Variable<S>>, env: Env<S>, st: Vm.State)
    requires Related(alloc, env, st)
    ensures env.locals.Keys == env.slots.Keys
  {}

  /** What is proved of a line: its meaning on names and its instruction on indices stay related. */
  ghost predicate LineSimulates<S(!new)>(alloc: seq<Variable<S>>, constants: seq<S>, values: seq<Fp>, env: Env<S>,
                                         line: Line<S>, st: Vm.State)
    requires line.command.Op? && Meaningful(constants, values, env, line) && env.locals.Keys == env.slots.Keys
  {
    RelatedOutcome(alloc, SrcStep(alloc, constants, values, env, line),
                   Vm.Step(Instruction(alloc, constants, env, line), values, st))
  }

  lemma {:induction false} CombinationSimulates<S(!new)>(alloc: seq<Variable<S>>, constants: seq<S>, values: seq<Fp>,
                                                         env: Env<S>, line: Line<S>, st: Vm.State)
    requires WellFormedTable(alloc) && Related(alloc, env, st)
    requires line.command.Op? && Combines(line.command.op) && Meaningful(constants, values, env, line)
    ensures LineSimulates(alloc, constants, values, env, line, st)
  {
    hide Related, WellFormedTable, Residue, Field.Add, Field.Mul, Field.Sub, RefOf, Known, Value, Assign, FindConstant,
         FindVariable, Vm.Apply2;
    var a, b := line.args[0], line.args[|line.args| - 1];
    Apply2Simulates(alloc, env, st, a, b, Combination(line.command.op));
  }

  /** How a division unfolds on both sides; `ok` tells whether it succeeds. The two lemmas after it
      do the same for the other operations that may fail or that load. */
  lemma {:induction false} DivideShape<S(!new)>(alloc: seq<Variable<S>>, constants: seq<S>, values: seq<Fp>,
                                                env: Env<S>, line: Line<S>, st: Vm.State)
    requires line.command == Op(Divide) && env.locals.Keys == env.slots.Keys && Meaningful(constants, values, env, line)
    requires Vm.InRange(RefOf(alloc, env, line.args[0]), st) && Vm.InRange(RefOf(alloc, env, line.args[1]), st)
    ensures var a, b := line.args[0], line.args[1];
            var ra, rb := RefOf(alloc, env, a), RefOf(alloc, env, b);
            && SrcStep(alloc, constants, values, env, line)
               == (if Value(env, b) == ZERO then SrcFailed(Vm.DivisionByZero, env)
                   else SrcDone(Assign(env, a, Div(Value(env, a), Value(env, b)))))
            && Vm.Step(Instruction(alloc, constants, env, line), values, st)
               == (if Vm.Read(rb, st) == ZERO then Vm.Failed(Vm.DivisionByZero, st)
                   else Vm.Done(Vm.Write(ra, st, Div(Vm.Read(ra, st), Vm.Read(rb, st)))))
  {
    hide Residue, Div, Value, Assign, RefOf, Vm.InRange, Vm.Read, Vm.Write;
  }

  lemma {:induction false} InvertShape<S(!new)>(alloc: seq<Variable<S>>, constants: seq<S>, values: seq<Fp>,
                                                env: Env<S>, line: Line<S>, st: Vm.State)
    requires line.command == Op(Invert) && env.locals.Keys == env.slots.Keys && Meaningful(constants, values, env, line)
    requires Vm.InRange(RefOf(alloc, env, line.args[0]), st)
    ensures var a, ra := line.args[0], RefOf(alloc, env, line.args[0]);
            && SrcStep(alloc, constants, values, env, line)
               == (if Value(env, a) == ZERO then SrcFailed(Vm.DivisionByZero, env)
                   else SrcDone(Assign(env, a, Inv(Value(env, a)))))
            && Vm.Step(Instruction(alloc, constants, env, line), values, st)
               == (if Vm.Read(ra, st) == ZERO then Vm.Failed(Vm.DivisionByZero, st)
                   else Vm.Done(Vm.Write(ra, st, Inv(Vm.Read(ra, st)))))
  {
    hide Residue, Inv, Value, Assign, RefOf, Vm.InRange, Vm.Read, Vm.Write;
  }

  lemma {:induction false} LoadShape<S(!new)>(alloc: seq<Variable<S>>, constants: seq<S>, values: seq<Fp>, env: Env<S>,
                                              line: Line<S>, st: Vm.State)
    requires line.command == Op(Load) && env.locals.Keys == env.slots.Keys && Meaningful(constants, values, env, line)
    requires Vm.InRange(RefOf(alloc, env, line.args[0]), st)
    ensures var a, k := line.args[0], FindConstant(constants, line.args[1]).value;
            && SrcStep(alloc, constants, values, env, line) == SrcDone(Assign(env, a, values[k]))
            && Vm.Step(Instruction(alloc, constants, env, line), values, st)
               == Vm.Done(Vm.Write(RefOf(alloc, env, a), st, values[k]))
  {
    hide Residue, Value, Assign, RefOf, FindConstant, Vm.InRange, Vm.Write;
  }

  lemma {:induction false} OtherShape<S(!new)>(alloc: seq<Variable<S>>, constants: seq<S>, values: seq<Fp>, env: Env<S>,
                                               line: Line<S>, st: Vm.State)
    requires line.command.Op? && env.locals.Keys == env.slots.Keys && Meaningful(constants, values, env, line)
    requires var c := line.command.op; c.UnpackBits? || c.Debug? || c.DumpAlloc? || c.DumpLocal?
    requires line.command.op.Debug? ==> Vm.InRange(RefOf(alloc, env, line.args[0]), st)
    ensures var src, o := SrcStep(alloc, constants, values, env, line),
      Vm.Step(Instruction(alloc, constants, env, line), values, st);
            if line.command.op.UnpackBits? then
              var (a, b, c) := (line.args[0], line.args[1], line.args[2]);
              && src == SrcUnpack(alloc, env, a, b, c)
              && o == Vm.Unpacked(RefOf(alloc, env, a), RefOf(alloc, env, b), RefOf(alloc, env, c), st)
            else src == SrcDone(env) && o == Vm.Done(st)
  {
    hide Residue, RefOf, Value, Vm.Unpacked, SrcUnpack, Vm.InRange;
  }

  /** The operations that replace one value by another, or fail for lack of an inverse. */
  lemma {:induction false} ReplacementSimulates<S(!new)>(alloc: seq<Variable<S>>, constants: seq<S>, values: seq<Fp>,
                                                         env: Env<S>, line: Line<S>, st: Vm.State)
    requires WellFormedTable(alloc) && Related(alloc, env, st)
    requires line.command.Op? && Meaningful(constants, values, env, line)
    requires var c := line.command.op; c.Divide? || c.Invert? || c.Load?
    ensures LineSimulates(alloc, constants, values, env, line, st)
  {
    hide Related, WellFormedTable, Residue, RefOf, Value, Assign, FindConstant, FindVariable, SlotOf, Div, Inv,
         SrcStep, Instruction, Vm.Step, Vm.InRange, Vm.Read, Vm.Write;
    RelatedKeys(alloc, env, st);
    var a := line.args[0];
    ReadAgrees(alloc, env, st, a);
    if line.command.op.Divide? {
      ReadAgrees(alloc, env, st, line.args[1]);
      DivideShape(alloc, constants, values, env, line, st);
      WriteAgrees(alloc, env, st, a, Div(Value(env, a), Value(env, line.args[1])));
    } else if line.command.op.Invert? {
      InvertShape(alloc, constants, values, env, line, st);
      WriteAgrees(alloc, env, st, a, Inv(Value(env, a)));
    } else {
      LoadShape(alloc, constants, values, env, line, st);
      WriteAgrees(alloc, env, st, a, values[FindConstant(constants, line.args[1]).value]);
    }
  }

  lemma {:induction false} LocalSimulates<S(!new)>(alloc: seq<Variable<S>>, constants: seq<S>, values: seq<Fp>,
                                                   env: Env<S>, line: Line<S>, st: Vm.State)
    requires WellFormedTable(alloc) && Related(alloc, env, st)
    requires line.command == Op(Local) && Meaningful(constants, values, env, line)
    ensures LineSimulates(alloc, constants, values, env, line, st)
  {
    hide WellFormedTable, Residue, RefOf, Known, Value, Assign, FindConstant, FindVariable, SlotOf, DeclareLocal,
         Declare;
    RelatedKeys(alloc, env, st);
    var name := line.args[0];
    if |env.slots| == env.pushed { DeclareFresh(alloc, env, st, name); } else { DeclareAgain(alloc, env, st, name); }
  }

  lemma {:induction false} UnpackSimulates<S(!new)>(alloc: seq<Variable<S>>, env: Env<S>, st: Vm.State, value: S,
                                                    start: S, end: S)
    requires WellFormedTable(alloc) && Related(alloc, env, st) && Known(env, value) && Known(env, start)
    requires Known(env, end)
    ensures RelatedOutcome(alloc, SrcUnpack(alloc, env, value, start, end),
                           Vm.Unpacked(RefOf(alloc, env, value), RefOf(alloc, env, start), RefOf(alloc, env, end), st))
  {
    var v := Value(env, value);
    ReadAgrees(alloc, env, st, value);
    assert |st.aux| == |alloc| && |st.locals| == env.pushed;
    var i, j := RefOf(alloc, env, start).index, RefOf(alloc, env, end).index;
    if start in env.vars && end in env.vars && Vm.GoodRange(i, j, |alloc|) {
      UnpackVarsSimulates(alloc, env, st, i, v);
    }
    if start !in env.vars && end !in env.vars && Vm.GoodRange(i, j, env.pushed) {
      UnpackLocalsSimulates(alloc, env, st, i, v);
    }
  }

  lemma {:induction false} OthersSimulate<S(!new)>(alloc: seq<Variable<S>>, constants: seq<S>, values: seq<Fp>,
                                                   env: Env<S>, line: Line<S>, st: Vm.State)
    requires WellFormedTable(alloc) && Related(alloc, env, st)
    requires line.command.Op? && Meaningful(constants, values, env, line)
    requires var c := line.command.op; c.UnpackBits? || c.Debug? || c.DumpAlloc? || c.DumpLocal?
    ensures LineSimulates(alloc, constants, values, env, line, st)
  {
    hide Related, WellFormedTable, RefOf, Vm.Unpacked, SrcUnpack, Vm.InRange, SrcStep, Instruction, Vm.Step;
    RelatedKeys(alloc, env, st);
    var c := line.command.op;
    if c.Debug? { ReadAgrees(alloc, env, st, line.args[0]); }
    OtherShape(alloc, constants, values, env, line, st);
    if c.UnpackBits? { UnpackSimulates(alloc, env, st, line.args[0], line.args[1], line.args[2]); }
  }

  /** One operation line does to names what its instruction does to indices. */
  lemma {:induction false} StepSimulates<S(!new)>(alloc: seq<Variable<S>>, constants: seq<S>, values: seq<Fp>,
                                                  env: Env<S>, line: Line<S>, st: Vm.State)
    requires WellFormedTable(alloc) && Related(alloc, env, st)
    requires line.command.Op? && Meaningful(constants, values, env, line)
    ensures LineSimulates(alloc, constants, values, env, line, st)
  {
    hide Related, WellFormedTable, LineSimulates, Meaningful;
    RelatedKeys(alloc, env, st);
    var c := line.command.op;
    if Combines(c) {
      CombinationSimulates(alloc, constants, values, env, line, st);
    } else if c.Divide? || c.Invert? || c.Load? {
      ReplacementSimulates(alloc, constants, values, env, line, st);
    } else if c.Local? {
      LocalSimulates(alloc, constants, values, env, line, st);
    } else {
      OthersSimulate(alloc, constants, values, env, line, st);
    }
  }
}
