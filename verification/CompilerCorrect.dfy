/** Whole contracts: what compiles runs as its source says, never outside its tables, and constrains
    what its source says. */
module CompilerCorrect {
  import opened Wrappers
  import opened Field
  import opened Assembly
  import opened Compiler
  import opened Simulation
  import opened LocalSlots
  import C = Circuit
  import Vm

  /* ----- operations ----- */

  /** The first n lines, run on names. */
  ghost function SrcRun<S>(alloc: seq<Variable<S>>, constants: seq<S>, values: seq<Fp>, env: Env<S>,
                           lines: seq<Line<S>>, n: nat): SrcOutcome<S>
    requires n <= |lines|
  {
    if n == 0 then SrcDone(env)
    else
      var before := SrcRun(alloc, constants, values, env, lines, n - 1);
      if !before.SrcDone? then before
      else if before.env.locals.Keys == before.env.slots.Keys && Meaningful(constants, values, before.env, lines[n - 1])
      then SrcStep(alloc, constants, values, before.env, lines[n - 1])
      else SrcStuck
  }

  lemma {:induction false} RunAppend(a: seq<Vm.CryptoOperation>, b: seq<Vm.CryptoOperation>, constants: seq<Fp>,
                                     s: Vm.State)
    ensures Vm.Run(a + b, constants, s)
         == var r := Vm.Run(a, constants, s); if r.Done? then Vm.Run(b, constants, r.s) else r
    decreases |a|
  {
    if a == [] {
      assert a + b == b;
    } else {
      assert (a + b)[0] == a[0] && (a + b)[1..] == a[1..] + b;
      hide Vm.Step;
      var o := Vm.Step(a[0], constants, s);
      if o.Done? { RunAppend(a[1..], b, constants, o.s); }
    }
  }

  lemma {:induction false} RunOne(op: Vm.CryptoOperation, constants: seq<Fp>, s: Vm.State)
    ensures Vm.Run([op], constants, s) == Vm.Step(op, constants, s)
  {
    hide Vm.Step;
    var o := Vm.Step(op, constants, s);
    assert [op][1..] == [];
    if o.Done? { assert Vm.Run([], constants, o.s) == o; }
  }

  lemma {:induction false} LowerAppend<S>(a: seq<Operation<S>>, b: seq<Operation<S>>)
    requires LowerOps(a + b).Some?
    ensures LowerOps(a).Some? && LowerOps(b).Some? && LowerOps(a + b).value == LowerOps(a).value + LowerOps(b).value
  {
    hide LowerOp;
    assert forall i :: 0 <= i < |a| ==> (a + b)[i] == a[i];
    assert forall i :: 0 <= i < |b| ==> (a + b)[|a| + i] == b[i];
  }

  /** Only `local` lines change slots, on both sides in the same way. */
  lemma {:induction false} SlotsStep<S(!new)>(scope: Scope<S>, line: Line<S>, values: seq<Fp>, env: Env<S>)
    requires scope.locals == env.slots && env.locals.Keys == env.slots.Keys && CompileOp(scope, line).Some?
    requires Meaningful(scope.constants, values, env, line)
    requires SrcStep(scope.alloc, scope.constants, values, env, line).SrcDone?
    ensures var next := SrcStep(scope.alloc, scope.constants, values, env, line).env;
            && CompileOp(scope, line).value.0 == scope.(locals := next.slots)
            && next.slots == (if line.command == Op(Local) then Declare(env.slots, line.args[0]) else env.slots)
            && next.pushed == env.pushed + (if line.command == Op(Local) then 1 else 0)
  {
    hide FindVariable, FindConstant, Residue, Div, Inv, SlotOf, Vm.BitOf, Declare, MayDeclare;
  }

  /** What the induction over the lines keeps. */
  ghost predicate InStep<S(!new)>(alloc: seq<Variable<S>>, constants: seq<S>, lines: seq<Line<S>>, n: nat,
                                  src: SrcOutcome<S>)
    requires n <= |lines|
  {
    var t := OpsTable(Scope(alloc, map[], constants), lines, n);
    t.Some? && (src.SrcDone? ==>
      && t.value.0 == Scope(alloc, src.env.slots, constants)
      && src.env.slots == SlotsAfter(LocalNames(lines, n))
      && src.env.pushed == |LocalNames(lines, n)|)
  }

  lemma {:induction false} RelatedScope<S(!new)>(alloc: seq<Variable<S>>, constants: seq<S>, env: Env<S>, st: Vm.State)
    requires Related(alloc, env, st)
    ensures SameScope(Scope(alloc, env.slots, constants), env)
  {}

  /** One line: what it compiles to, run in the machine, is what it means. */
  lemma {:induction false} LineCorrect<S(!new)>(alloc: seq<Variable<S>>, constants: seq<S>, values: seq<Fp>,
                                                env: Env<S>, line: Line<S>, st: Vm.State)
    requires WellFormedTable(alloc) && Related(alloc, env, st) && |values| == |constants|
    requires var c := CompileOp(Scope(alloc, env.slots, constants), line); c.Some? && LowerOps(c.value.1).Some?
    requires line.command == Op(Local) ==> MayDeclare(env.slots, env.pushed, line.args[0])
    ensures env.locals.Keys == env.slots.Keys && Meaningful(constants, values, env, line)
    ensures var c := CompileOp(Scope(alloc, env.slots, constants), line);
            RelatedOutcome(alloc, SrcStep(alloc, constants, values, env, line),
                           Vm.Run(LowerOps(c.value.1).value, values, st))
  {
    RelatedScope(alloc, constants, env, st);
    var scope := Scope(alloc, env.slots, constants);
    var ops := CompileOp(scope, line).value.1;
    if line.command.Op? {
      assert ops == [ops[0]];
      hide Related, WellFormedTable, Resolve, Instruction, LowerOp, Vm.Step, SrcStep;
      LoweredInstruction(scope, env, values, line);
      StepSimulates(alloc, constants, values, env, line, st);
      RunOne(LowerOp(ops[0]).value, values, st);
      assert LowerOps(ops).value == [LowerOp(ops[0]).value];
    }
  }

  /** The relation that the induction over the lines keeps: between the run of the first n lines and
      the run of what they compile to. */
  ghost predicate Together<S(!new)>(alloc: seq<Variable<S>>, constants: seq<S>, values: seq<Fp>, lines: seq<Line<S>>,
                                    n: nat, src: SrcOutcome<S>, st: Vm.State)
    requires n <= |lines|
  {
    && InStep(alloc, constants, lines, n, src)
    && var ops := LowerOps(OpsTable(Scope(alloc, map[], constants), lines, n).value.1);
       ops.Some? && RelatedOutcome(alloc, src, Vm.Run(ops.value, values, st))
  }

  /** The names declared by one more line. */
  lemma {:induction false} NamesStep<S(!new)>(lines: seq<Line<S>>, n: nat, slots: map<S, nat>)
    requires 0 < n <= |lines| && NoClash(LocalNames(lines, n))
    requires lines[n - 1].command == Op(Local) ==> |lines[n - 1].args| == 1
    ensures NoClash(LocalNames(lines, n - 1))
    ensures var names, before, line := LocalNames(lines, n), LocalNames(lines, n - 1), lines[n - 1];
            if line.command == Op(Local)
            then |names| == |before| + 1 && SlotsAfter(names) == Declare(SlotsAfter(before), line.args[0])
              && MayDeclare(SlotsAfter(before), |before|, line.args[0])
            else names == before
  {
    var names, before, line := LocalNames(lines, n), LocalNames(lines, n - 1), lines[n - 1];
    assert before == names[..|before|];
    NoClashPrefix(names, |before|);
    if line.command == Op(Local) {
      assert names == before + [line.args[0]];
      assert MayDeclare(SlotsAfter(names[..|before|]), |before|, names[|before|]);
    } else {
      assert names == before;
    }
  }

  lemma {:induction false} TogetherStep<S(!new)>(alloc: seq<Variable<S>>, constants: seq<S>, values: seq<Fp>,
                                                 env: Env<S>, lines: seq<Line<S>>, n: nat, st: Vm.State)
    requires WellFormedTable(alloc) && |values| == |constants| && 0 < n <= |lines| && NoClash(LocalNames(lines, n))
    requires var t := OpsTable(Scope(alloc, map[], constants), lines, n); t.Some? && LowerOps(t.value.1).Some?
    requires Together(alloc, constants, values, lines, n - 1, SrcRun(alloc, constants, values, env, lines, n - 1), st)
    ensures Together(alloc, constants, values, lines, n, SrcRun(alloc, constants, values, env, lines, n), st)
  {
    hide Related, WellFormedTable, CompileOp, LowerOp, Vm.Run, Vm.Step, SrcStep, Meaningful, MayDeclare, Declare,
         NoClash, LocalNames, SlotsAfter;
    var line := lines[n - 1];
    var (scope, ops) := OpsTable(Scope(alloc, map[], constants), lines, n - 1).value;
    if line.command == Op(Local) { LocalArity(scope, line); }
    NamesStep(lines, n, scope.locals);
    var next := CompileOp(scope, line).value.1;
    LowerAppend(ops, next);
    var src := SrcRun(alloc, constants, values, env, lines, n - 1);
    var o := Vm.Run(LowerOps(ops).value, values, st);
    RunAppend(LowerOps(ops).value, LowerOps(next).value, values, st);
    if src.SrcDone? {
      LineCorrect(alloc, constants, values, src.env, line, o.s);
      if SrcStep(alloc, constants, values, src.env, line).SrcDone? {
        SlotsStep(scope, line, values, src.env);
      }
    }
  }

  lemma {:induction false} RunsTogether<S(!new)>(alloc: seq<Variable<S>>, constants: seq<S>, values: seq<Fp>,
                                                 env: Env<S>, lines: seq<Line<S>>, n: nat, st: Vm.State)
    requires WellFormedTable(alloc) && Related(alloc, env, st) && |values| == |constants|
    requires env.slots == map[] && env.pushed == 0 && n <= |lines| && NoClash(LocalNames(lines, n))
    requires var t := OpsTable(Scope(alloc, map[], constants), lines, n); t.Some? && LowerOps(t.value.1).Some?
    ensures Together(alloc, constants, values, lines, n, SrcRun(alloc, constants, values, env, lines, n), st)
    decreases n
  {
    hide Related, WellFormedTable, CompileOp, LowerOp, Vm.Step, NoClash;
    if n > 0 {
      var (scope, ops) := OpsTable(Scope(alloc, map[], constants), lines, n - 1).value;
      LowerAppend(ops, CompileOp(scope, lines[n - 1]).value.1);
      if lines[n - 1].command == Op(Local) { LocalArity(scope, lines[n - 1]); }
      NamesStep(lines, n, map[]);
      hide SrcRun, InStep, LocalNames, OpsTable, LowerOps, Together;
      RunsTogether(alloc, constants, values, env, lines, n - 1, st);
      TogetherStep(alloc, constants, values, env, lines, n, st);
    }
  }

  lemma LocalArity<S>(scope: Scope<S>, line: Line<S>)
    requires CompileOp(scope, line).Some? && line.command == Op(Local)
    ensures |line.args| == 1
  {}

  /** The values before the first line: every variable by its name, and no locals. */
  function InitialEnv<S(==)>(alloc: seq<Variable<S>>, aux: seq<Fp>): Env<S> {
    Env(VarsOf(alloc, aux), map[], map[], 0)
  }

  function VarsOf<S(==)>(alloc: seq<Variable<S>>, aux: seq<Fp>): map<S, Fp> {
    var symbols := set v | v in alloc :: v.symbol;
    map s | s in symbols :: if SlotOf(alloc, s) < |aux| then aux[SlotOf(alloc, s)] else ZERO
  }

  lemma {:induction false} VarsOfAt<S(!new)>(alloc: seq<Variable<S>>, aux: seq<Fp>, s: S)
    requires WellFormedTable(alloc) && |aux| == |alloc|
    ensures s in VarsOf(alloc, aux) <==> FindVariable(alloc, s).Some?
    ensures s in VarsOf(alloc, aux) ==> SlotOf(alloc, s) < |alloc| && VarsOf(alloc, aux)[s] == aux[SlotOf(alloc, s)]
  {
    hide FindVariable;
    FindIsPosition(alloc, s);
    if i :| 0 <= i < |alloc| && alloc[i].symbol == s { assert alloc[i] in alloc; }
  }

  lemma {:induction false} InitialRelated<S(!new)>(alloc: seq<Variable<S>>, aux: seq<Fp>)
    requires WellFormedTable(alloc) && |aux| == |alloc|
    ensures Related(alloc, InitialEnv(alloc, aux), Vm.State(aux, []))
  {
    hide VarsOf, FindVariable, SlotOf;
    forall s
      ensures s in VarsOf(alloc, aux) <==> FindVariable(alloc, s).Some?
      ensures s in VarsOf(alloc, aux) ==> SlotOf(alloc, s) < |alloc| && VarsOf(alloc, aux)[s] == aux[SlotOf(alloc, s)]
    {
      VarsOfAt(alloc, aux, s);
    }
  }

  /** The contract compiles, its operations can be encoded, and its locals do not share slots. */
  ghost predicate Runnable<S(!new)>(lines: seq<Line<S>>, constants: seq<S>, c: Contract<S>) {
    Compiled(lines, constants) == Some(c) && LowerOps(c.ops).Some? && NoClash(LocalNames(lines, |lines|))
  }

  /** Running the compiled operations is running the source: the same values under every name, the
      same error at the same point, and never an index outside the tables. */
  lemma {:induction false} CompiledRunsAsSource<S(!new)>(lines: seq<Line<S>>, constants: seq<S>, c: Contract<S>,
                                                         values: seq<Fp>, aux: seq<Fp>)
    requires Runnable(lines, constants, c) && |values| == |constants| && |aux| == |c.alloc|
    ensures WellFormedTable(c.alloc)
    ensures RelatedOutcome(c.alloc, SrcRun(c.alloc, constants, values, InitialEnv(c.alloc, aux), lines, |lines|),
                           Vm.Run(LowerOps(c.ops).value, values, Vm.State(aux, [])))
  {
    TableIsWellFormed(lines, |lines|);
    InitialRelated(c.alloc, aux);
    RunsTogether(c.alloc, constants, values, InitialEnv(c.alloc, aux), lines, |lines|, Vm.State(aux, []));
  }

  /** An operation can be encoded exactly when it is not a load into a constant: the compiler checks
      the second argument of a load but not its first. */
  lemma EncodableIffTargetNotConstant<S>(scope: Scope<S>, line: Line<S>)
    requires line.command.Op? && CompileOp(scope, line).Some?
    ensures LowerOp(CompileOp(scope, line).value.1[0]).None?
       <==> line.command.op == Load && Resolve(scope, line.args[0]).value.ConstRef?
  {
    hide Resolve;
  }

  /** Such a load does compile. */
  lemma {:induction false} LoadIntoConstantCompiles<S(!new)>(k: S, text: seq<Bytes.byte>)
    ensures var lines := [Line(Op(Load), [k, k], text)];
            Compiled(lines, [k]).Some? && LowerOps(Compiled(lines, [k]).value.ops).None?
  {
    var line := Line(Op(Load), [k, k], text);
    var lines, scope: Scope<S> := [line], Scope([], map[], [k]);
    assert Resolve(scope, k) == Some(ConstRef(0));
    var refs := ResolveAll(scope, [k, k]);
    assert refs.Some?;
    assert CompileOp(scope, line) == Some((scope, [Operation(Load, refs.value, line)]));
    assert OpsTable(scope, lines, 0) == Some((scope, [])) && lines[0] == line;
    assert OpsTable(scope, lines, 1) == Some((scope, [] + [Operation(Load, refs.value, line)]));
    assert AllocTable(lines, 0) == Some([]) == AllocTable(lines, 1);
    assert ConstraintsTable([], [k], lines, 0) == Some([]);
    assert ConstraintsTable([], [k], lines, 1) == Some([] + []);
    assert LowerOp(Operation(Load, refs.value, line)).None?;
    assert Compiled(lines, [k]).value.ops[0] == Operation(Load, refs.value, line);
  }

  /* ----- constraints ----- */

  function LowerConstraint<S>(k: ConstraintLine<S>): Option<C.ConstraintInstruction> {
    var a := k.args;
    match k.command
    case Add(side) => if |a| == 1 && a[0].Index? then Some(C.LcAdd(side, a[0].index)) else None
    case Sub(side) => if |a| == 1 && a[0].Index? then Some(C.LcSub(side, a[0].index)) else None
    case AddOne(side) => if |a| == 0 then Some(C.LcAddOne(side)) else None
    case SubOne(side) => if |a| == 0 then Some(C.LcSubOne(side)) else None
    case AddCoeff(side) =>
      if |a| == 2 && a[0].ConstantEntry? && a[1].Index? then Some(C.LcAddCoeff(side, a[0].const_, a[1].index)) else None
    case AddConstant(side) => if |a| == 1 && a[0].ConstantEntry? then Some(C.LcAddConstant(side, a[0].const_)) else None
    case Enforce => if |a| == 0 then Some(C.Enforce) else None
    case CoeffReset => if |a| == 0 then Some(C.LcCoeffReset) else None
    case CoeffDouble => if |a| == 0 then Some(C.LcCoeffDouble) else None
  }

  function LowerConstraints<S>(ks: seq<ConstraintLine<S>>): (r: Option<seq<C.ConstraintInstruction>>)
    ensures r.Some? <==> forall i :: 0 <= i < |ks| ==> LowerConstraint(ks[i]).Some?
    ensures r.Some? ==> |r.value| == |ks| && forall i :: 0 <= i < |ks| ==> r.value[i] == LowerConstraint(ks[i]).value
    decreases |ks|
  {
    if ks == [] then Some([])
    else
      var init, last := LowerConstraints(ks[..|ks| - 1]), LowerConstraint(ks[|ks| - 1]);
      if init.None? || last.None? then None else Some(init.value + [last.value])
  }

  predicate TakesConstant(k: ConstraintCommand) { k.AddCoeff? || k.AddConstant? }

  /** A constraint line can be encoded exactly when its constants stand where constants belong: alone
      or first in the constant forms, and nowhere else. */
  lemma {:induction false} EncodableIffConstantsInPlace<S>(alloc: seq<Variable<S>>, constants: seq<S>, line: Line<S>)
    requires line.command.Constrain? && CompileConstraint(alloc, constants, line).Some?
    ensures LowerConstraint(CompileConstraint(alloc, constants, line).value[0]).Some?
       <==> forall i :: 0 <= i < |line.args| ==>
              (FindVariable(alloc, line.args[i]).None? <==> TakesConstant(line.command.constraint) && i == 0)
  {
    hide FindVariable, FindConstant;
    var args := CompileConstraint(alloc, constants, line).value[0].args;
    assert forall i :: 0 <= i < |line.args| ==> (args[i].Index? <==> FindVariable(alloc, line.args[i]).Some?);
  }

  /** What a constraint line adds to its side, by name. */
  function SrcContribution<S(==)>(line: Line<S>, coeff: Fp, constants: seq<S>, values: seq<Fp>, vars: map<S, Fp>): Fp
    requires line.command.Constrain? && SrcNamed(line, constants, values, vars)
    requires var k := line.command.constraint; !(k.Enforce? || k.CoeffReset? || k.CoeffDouble?)
  {
    var a := line.args;
    match line.command.constraint
    case Add(_) => Field.Mul(coeff, vars[a[0]])
    case Sub(_) => Field.Mul(Neg(coeff), vars[a[0]])
    case AddOne(_) => Field.Mul(ONE, ONE)
    case SubOne(_) => Field.Mul(Neg(ONE), ONE)
    case AddCoeff(_) => Field.Mul(values[FindConstant(constants, a[0]).value], vars[a[1]])
    case AddConstant(_) => Field.Mul(values[FindConstant(constants, a[0]).value], ONE)
  }

  predicate IsConstant<S(==)>(constants: seq<S>, values: seq<Fp>, s: S) {
    FindConstant(constants, s).Some? && FindConstant(constants, s).value < |values|
  }

  predicate SrcNamed<S(==)>(line: Line<S>, constants: seq<S>, values: seq<Fp>, vars: map<S, Fp>)
    requires line.command.Constrain?
  {
    && |line.args| == Arity(line.command)
    && match line.command.constraint
       case Add(_) => line.args[0] in vars
       case Sub(_) => line.args[0] in vars
       case AddCoeff(_) => IsConstant(constants, values, line.args[0]) && line.args[1] in vars
       case AddConstant(_) => IsConstant(constants, values, line.args[0])
       case _ => true
  }

  /** Executes the constraint lines from i on, on the values of the names; false also when a name has
      no value. */
  predicate SrcChecks<S(==)>(lines: seq<Line<S>>, i: nat, constants: seq<S>, values: seq<Fp>, vars: map<S, Fp>,
                             s: C.Sides)
    requires i <= |lines|
    decreases |lines| - i
  {
    if i == |lines| then true
    else
      var line := lines[i];
      if !line.command.Constrain? then SrcChecks(lines, i + 1, constants, values, vars, s)
      else if !SrcNamed(line, constants, values, vars) then false
      else
        match line.command.constraint
        case Enforce => Field.Mul(s.a, s.b) == s.c && SrcChecks(lines, i + 1, constants, values, vars, C.FRESH_SIDES)
        case CoeffReset => SrcChecks(lines, i + 1, constants, values, vars, s.(coeff := ONE))
        case CoeffDouble => SrcChecks(lines, i + 1, constants, values, vars, s.(coeff := Field.Add(s.coeff, s.coeff)))
        case k =>
          SrcChecks(lines, i + 1, constants, values, vars,
                    C.AddTo(s, k.side, SrcContribution(line, s.coeff, constants, values, vars)))
  }

  /** The instruction of a line names what the line names, and adds what the line adds. */
  lemma {:induction false} ConstraintLineCorrect<S(!new)>(alloc: seq<Variable<S>>, constants: seq<S>, values: seq<Fp>,
                                                          w: seq<Fp>, line: Line<S>)
    requires WellFormedTable(alloc) && |w| == |alloc| && |values| == |constants| && line.command.Constrain?
    requires var t := CompileConstraint(alloc, constants, line); t.Some? && LowerConstraint(t.value[0]).Some?
    ensures SrcNamed(line, constants, values, VarsOf(alloc, w))
    ensures var c := LowerConstraint(CompileConstraint(alloc, constants, line).value[0]).value;
            && C.VariableExists(c, |alloc|) && C.ConstantExists(c, values)
            && C.SideOf(c).None? == UnlessTerm(line.command.constraint)
            && (C.SideOf(c).None? ==>
                 c == match line.command.constraint
                      case Enforce => C.Enforce
                      case CoeffReset => C.LcCoeffReset
                      case _ => C.LcCoeffDouble)
            && (C.SideOf(c).Some? ==> c.side == line.command.constraint.side && forall coeff ::
                 C.Contribution(c, coeff, values, w)
                   == SrcContribution(line, coeff, constants, values, VarsOf(alloc, w)))
  {
    hide FindVariable, FindConstant, VarsOf, Residue, Field.Mul, Neg, WellFormedTable;
    forall i | 0 <= i < |line.args|
      ensures FindConstant(constants, line.args[i]).Some? ==> FindConstant(constants, line.args[i]).value < |values|
      ensures line.args[i] in VarsOf(alloc, w) <==> FindVariable(alloc, line.args[i]).Some?
      ensures line.args[i] in VarsOf(alloc, w) ==>
        SlotOf(alloc, line.args[i]) < |w| && VarsOf(alloc, w)[line.args[i]] == w[SlotOf(alloc, line.args[i])]
    {
      FindConstantInRange(constants, line.args[i]);
      VarsOfAt(alloc, w, line.args[i]);
    }
  }

  predicate UnlessTerm(k: ConstraintCommand) { k.Enforce? || k.CoeffReset? || k.CoeffDouble? }

  lemma {:induction false} ConstraintsPrefix<S(!new)>(alloc: seq<Variable<S>>, constants: seq<S>, lines: seq<Line<S>>,
                                                      m: nat, n: nat)
    requires m <= n <= |lines| && ConstraintsTable(alloc, constants, lines, n).Some?
    ensures ConstraintsTable(alloc, constants, lines, m).Some?
    ensures ConstraintsTable(alloc, constants, lines, m).value <= ConstraintsTable(alloc, constants, lines, n).value
    decreases n
  {
    if m < n { ConstraintsPrefix(alloc, constants, lines, m, n - 1); }
  }

  /** From line i on, the instructions check what the lines check. */
  lemma {:induction false} ChecksFromLine<S(!new)>(alloc: seq<Variable<S>>, constants: seq<S>, values: seq<Fp>,
                                                   w: seq<Fp>, lines: seq<Line<S>>,
                                                   code: seq<C.ConstraintInstruction>, i: nat, s: C.Sides)
    requires WellFormedTable(alloc) && |w| == |alloc| && |values| == |constants| && i <= |lines|
    requires var t := ConstraintsTable(alloc, constants, lines, |lines|);
      t.Some? && LowerConstraints(t.value) == Some(code)
    requires C.AllConstantsExist(code, values)
    ensures ConstraintsTable(alloc, constants, lines, i).Some?
    ensures var k := |ConstraintsTable(alloc, constants, lines, i).value|;
            && k <= |code|
            && (C.Checks(code[k..], values, w, s) <==> SrcChecks(lines, i, constants, values, VarsOf(alloc, w), s))
    decreases |lines| - i
  {
    hide WellFormedTable, CompileConstraint, LowerConstraint, VarsOf, C.After, C.Demand, C.Checks;
    ConstraintsPrefix(alloc, constants, lines, i, |lines|);
    var all := ConstraintsTable(alloc, constants, lines, |lines|).value;
    var here := ConstraintsTable(alloc, constants, lines, i).value;
    if i == |lines| {
      NoChecksLeft(code, values, w, s);
    } else {
      ConstraintsPrefix(alloc, constants, lines, i + 1, |lines|);
      var line, t := lines[i], CompileConstraint(alloc, constants, lines[i]);
      ConstraintShape(alloc, constants, line);
      if line.command.Constrain? {
        var c := code[|here|];
        assert all[|here|] == t.value[0] && c == LowerConstraint(t.value[0]).value;
        C.ChecksStep(code, values, w, |here|, s);
        SrcChecksStep(alloc, constants, values, w, lines, i, s);
        hide SrcChecks;
        ChecksFromLine(alloc, constants, values, w, lines, code, i + 1, C.After(c, s, values, w));
      } else {
        ChecksFromLine(alloc, constants, values, w, lines, code, i + 1, s);
      }
    }
  }

  lemma {:induction false} NoChecksLeft(code: seq<C.ConstraintInstruction>, values: seq<Fp>, w: seq<Fp>, s: C.Sides)
    requires C.AllConstantsExist(code, values)
    ensures C.Checks(code[|code|..], values, w, s)
  {}

  lemma {:induction false} SrcChecksStep<S(!new)>(alloc: seq<Variable<S>>, constants: seq<S>, values: seq<Fp>,
                                                  w: seq<Fp>, lines: seq<Line<S>>, i: nat, s: C.Sides)
    requires WellFormedTable(alloc) && |w| == |alloc| && |values| == |constants| && i < |lines|
    requires lines[i].command.Constrain?
    requires var t := CompileConstraint(alloc, constants, lines[i]); t.Some? && LowerConstraint(t.value[0]).Some?
    ensures var c := LowerConstraint(CompileConstraint(alloc, constants, lines[i]).value[0]).value;
            && C.ConstantExists(c, values)
            && (SrcChecks(lines, i, constants, values, VarsOf(alloc, w), s)
               <==> C.Demand(c, s)
                    && SrcChecks(lines, i + 1, constants, values, VarsOf(alloc, w), C.After(c, s, values, w)))
  {
    hide WellFormedTable, CompileConstraint, LowerConstraint, VarsOf, Residue, Field.Mul, Field.Add, Neg,
         C.Contribution, SrcContribution, SrcNamed, C.ConstantExists, C.AddTo;
    ConstraintLineCorrect(alloc, constants, values, w, lines[i]);
  }

  lemma {:induction false} ConstraintShape<S>(alloc: seq<Variable<S>>, constants: seq<S>, line: Line<S>)
    requires CompileConstraint(alloc, constants, line).Some?
    ensures |CompileConstraint(alloc, constants, line).value| == if line.command.Constrain? then 1 else 0
  {}

  lemma {:induction false} InstructionsExist<S(!new)>(alloc: seq<Variable<S>>, constants: seq<S>, values: seq<Fp>,
                                                      lines: seq<Line<S>>, n: nat)
    requires WellFormedTable(alloc) && |values| == |constants| && n <= |lines|
    requires var t := ConstraintsTable(alloc, constants, lines, n); t.Some? && LowerConstraints(t.value).Some?
    ensures C.AllExist(LowerConstraints(ConstraintsTable(alloc, constants, lines, n).value).value, |alloc|, values)
  {
    hide WellFormedTable, CompileConstraint, LowerConstraint, VarsOf, SrcNamed, SrcContribution, C.Contribution,
         Residue, Field.Mul, Field.Add, Neg;
    if n > 0 {
      var line, all := lines[n - 1], ConstraintsTable(alloc, constants, lines, n).value;
      var init := ConstraintsTable(alloc, constants, lines, n - 1).value;
      ConstraintShape(alloc, constants, line);
      assert forall i :: 0 <= i < |init| ==> init[i] == all[i];
      InstructionsExist(alloc, constants, values, lines, n - 1);
      if line.command.Constrain? {
        var w := seq(|alloc|, _ => ZERO);
        assert all[|init|] == CompileConstraint(alloc, constants, line).value[0];
        ConstraintLineCorrect(alloc, constants, values, w, line);
      }
    }
  }

  /** The constraints generated from the compiled instructions hold of an assignment to the indices
      exactly when the source's constraints hold of the same assignment to the names. */
  lemma {:induction false} CompiledConstrainsAsSource<S(!new)>(lines: seq<Line<S>>, constants: seq<S>, c: Contract<S>,
                                                               values: seq<Fp>, w: seq<Fp>)
    requires Compiled(lines, constants) == Some(c) && LowerConstraints(c.constraints).Some?
    requires |values| == |constants| && |w| == |c.alloc|
    ensures C.AllExist(LowerConstraints(c.constraints).value, |c.alloc|, values)
    ensures C.Satisfied(C.Denotation(LowerConstraints(c.constraints).value, values), w)
       <==> SrcChecks(lines, 0, constants, values, VarsOf(c.alloc, w), C.FRESH_SIDES)
  {
    var code := LowerConstraints(c.constraints).value;
    TableIsWellFormed(lines, |lines|);
    InstructionsExist(c.alloc, constants, values, lines, |lines|);
    C.SatisfiedIffChecks(code, values, w);
    ChecksFromLine(c.alloc, constants, values, w, lines, code, 0, C.FRESH_SIDES);
    assert code[0..] == code;
  }
}
