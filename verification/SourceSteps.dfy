/** Tools for following a contract through its source: when it compiles, and single steps of its run
    and of its constraints. */
module SourceSteps {
  import opened Wrappers
  import opened Field
  import opened Assembly
  import opened Compiler
  import opened Simulation
  import opened LocalSlots
  import opened CompilerCorrect
  import C = Circuit
  import Vm

  /* ----- building the allocation table ----- */

  /** Lines that allocate nothing leave the table as it is. */
  lemma {:induction false} NoAllocation<S>(lines: seq<Line<S>>, m: nat, n: nat)
    requires m <= n <= |lines| && forall k :: m <= k < n ==> !lines[k].command.Alloc?
    ensures AllocTable(lines, n) == AllocTable(lines, m)
    decreases n
  {
    if m < n { NoAllocation(lines, m, n - 1); }
  }

  lemma {:induction false} Allocation<S>(lines: seq<Line<S>>, n: nat, t: seq<Variable<S>>, a: AllocCommand, s: S)
    requires n < |lines| && lines[n].command == Alloc(a) && lines[n].args == [s]
    requires AllocTable(lines, n) == Some(t) && FindVariable(t, s).None?
    ensures AllocTable(lines, n + 1) == Some(t + [NewVariable(a, s, |t|)])
  {}

  lemma {:induction false} NoneAllocated<S>(lines: seq<Line<S>>, s: S)
    ensures AllocTable(lines, 0) == Some([]) && FindVariable([], s) == None
  {}

  lemma {:induction false} FindBefore<S>(t: seq<Variable<S>>, v: Variable<S>, s: S)
    ensures FindVariable(t + [v], s) == if v.symbol == s then Some(v) else FindVariable(t, s)
  {
    assert (t + [v])[..|t|] == t;
  }

  lemma {:induction false} FindConstantBefore<S>(t: seq<S>, c: S, s: S)
    ensures FindConstant(t + [c], s) == if c == s then Some(|t|) else FindConstant(t, s)
  {
    assert (t + [c])[..|t|] == t;
  }

  /* ----- when a contract compiles ----- */

  /** A name that a line can read or write: a variable, or a local declared before. */
  predicate Writable<S(==)>(alloc: seq<Variable<S>>, names: seq<S>, s: S) {
    FindVariable(alloc, s).Some? || s in names
  }

  /** Every symbol of the line is what its place needs. */
  predicate WellPlaced<S(==)>(alloc: seq<Variable<S>>, constants: seq<S>, names: seq<S>, line: Line<S>) {
    match line.command
    case Op(Local) => |line.args| == 1
    case Op(Load) =>
      && |line.args| == 2 && Writable(alloc, names, line.args[0])
      && !Writable(alloc, names, line.args[1]) && FindConstant(constants, line.args[1]).Some?
    case Op(_) => |line.args| == Arity(line.command) && forall i :: 0 <= i < |line.args| ==>
      Writable(alloc, names, line.args[i])
    case Constrain(k) =>
      && |line.args| == Arity(line.command)
      && forall i :: 0 <= i < |line.args| ==>
           if TakesConstant(k) && i == 0
           then FindVariable(alloc, line.args[i]).None? && FindConstant(constants, line.args[i]).Some?
           else FindVariable(alloc, line.args[i]).Some?
    case _ => true
  }

  predicate AllWellPlaced<S(==)>(alloc: seq<Variable<S>>, constants: seq<S>, lines: seq<Line<S>>) {
    forall k :: 0 <= k < |lines| ==> WellPlaced(alloc, constants, LocalNames(lines, k), lines[k])
  }

  lemma {:induction false} OpCompiles<S(!new)>(scope: Scope<S>, names: seq<S>, line: Line<S>)
    requires WellPlaced(scope.alloc, scope.constants, names, line) && forall s :: s in scope.locals <==> s in names
    ensures CompileOp(scope, line).Some? && LowerOps(CompileOp(scope, line).value.1).Some?
  {
    hide FindVariable, FindConstant;
    if line.command.Op? && line.command.op != Local {
      assert forall i :: 0 <= i < |line.args| ==> Resolve(scope, line.args[i]).Some?;
      assert CompileOp(scope, line).Some?;
    }
  }

  lemma {:induction false} LowerJoins<S>(a: seq<Operation<S>>, b: seq<Operation<S>>)
    requires LowerOps(a).Some? && LowerOps(b).Some?
    ensures LowerOps(a + b).Some?
  {
    hide LowerOp;
  }

  /** With every symbol in place, the operations compile and can be encoded. */
  lemma {:induction false} OpsCompile<S(!new)>(alloc: seq<Variable<S>>, constants: seq<S>, lines: seq<Line<S>>, n: nat)
    requires n <= |lines| && AllWellPlaced(alloc, constants, lines)
    ensures var t := OpsTable(Scope(alloc, map[], constants), lines, n);
            && t.Some? && LowerOps(t.value.1).Some?
            && t.value.0 == Scope(alloc, SlotsAfter(LocalNames(lines, n)), constants)
  {
    hide CompileOp, LowerOps, LowerOp, SlotsAfter, WellPlaced;
    if n == 0 {
      NothingCompiled(alloc, constants, lines);
    } else {
      OpsCompile(alloc, constants, lines, n - 1);
      var names, line := LocalNames(lines, n - 1), lines[n - 1];
      var (scope, ops) := OpsTable(Scope(alloc, map[], constants), lines, n - 1).value;
      SlotsCount(names);
      OpCompiles(scope, names, line);
      LowerJoins(ops, CompileOp(scope, line).value.1);
      ScopeAfter(scope, names, line);
    }
  }

  lemma {:induction false} NothingCompiled<S>(alloc: seq<Variable<S>>, constants: seq<S>, lines: seq<Line<S>>)
    ensures LowerOps<S>([]).Some? && SlotsAfter(LocalNames(lines, 0)) == map[]
  {}

  lemma {:induction false} ScopeAfter<S>(scope: Scope<S>, names: seq<S>, line: Line<S>)
    requires CompileOp(scope, line).Some? && scope.locals == SlotsAfter(names)
    ensures var more := if line.command == Op(Local) && |line.args| == 1 then line.args else [];
            CompileOp(scope, line).value.0 == scope.(locals := SlotsAfter(names + more))
  {
    if line.command == Op(Local) {
      assert (names + line.args)[..|names|] == names;
    } else {
      assert names + [] == names;
    }
  }

  lemma {:induction false} ConstraintCompiles<S>(alloc: seq<Variable<S>>, constants: seq<S>, names: seq<S>,
                                                 line: Line<S>)
    requires WellPlaced(alloc, constants, names, line)
    ensures CompileConstraint(alloc, constants, line).Some?
    ensures LowerConstraints(CompileConstraint(alloc, constants, line).value).Some?
  {
    hide FindVariable, FindConstant;
    if line.command.Constrain? {
      assert forall i :: 0 <= i < |line.args| ==> ResolveLcArg(alloc, constants, line.args[i]).Some?;
    }
  }

  lemma {:induction false} LowerConstraintsJoin<S>(a: seq<ConstraintLine<S>>, b: seq<ConstraintLine<S>>)
    requires LowerConstraints(a).Some? && LowerConstraints(b).Some?
    ensures LowerConstraints(a + b).Some?
  {
    hide LowerConstraint;
  }

  lemma {:induction false} ConstraintsCompile<S(!new)>(alloc: seq<Variable<S>>, constants: seq<S>, lines: seq<Line<S>>,
                                                       n: nat)
    requires n <= |lines| && AllWellPlaced(alloc, constants, lines)
    ensures var t := ConstraintsTable(alloc, constants, lines, n); t.Some? && LowerConstraints(t.value).Some?
  {
    hide LowerConstraints, CompileConstraint, WellPlaced, LocalNames;
    if n == 0 {
      NoConstraintsCompiled<S>();
    } else {
      ConstraintsCompile(alloc, constants, lines, n - 1);
      ConstraintCompiles(alloc, constants, LocalNames(lines, n - 1), lines[n - 1]);
      LowerConstraintsJoin(ConstraintsTable(alloc, constants, lines, n - 1).value,
                           CompileConstraint(alloc, constants, lines[n - 1]).value);
    }
  }

  lemma NoConstraintsCompiled<S>()
    ensures LowerConstraints<S>([]).Some?
  {}

  /** A contract that compiles, whose locals do not clash, and that can be encoded and run. */
  ghost predicate Works<S(!new)>(lines: seq<Line<S>>, constants: seq<S>, c: Contract<S>) {
    Runnable(lines, constants, c) && LowerConstraints(c.constraints).Some?
  }

  lemma {:induction false} WellPlacedWorks<S(!new)>(lines: seq<Line<S>>, constants: seq<S>, alloc: seq<Variable<S>>)
    requires AllocTable(lines, |lines|) == Some(alloc) && AllWellPlaced(alloc, constants, lines)
    requires NoClash(LocalNames(lines, |lines|))
    ensures Compiled(lines, constants).Some? && Works(lines, constants, Compiled(lines, constants).value)
    ensures Compiled(lines, constants).value.alloc == alloc
  {
    OpsCompile(alloc, constants, lines, |lines|);
    ConstraintsCompile(alloc, constants, lines, |lines|);
  }

  lemma {:induction false} RelatedVars<S(!new)>(alloc: seq<Variable<S>>, env: Env<S>, st: Vm.State)
    requires WellFormedTable(alloc) && Related(alloc, env, st)
    ensures VarsOf(alloc, st.aux) == env.vars
  {
    hide VarsOf, FindVariable;
    forall s
      ensures s in VarsOf(alloc, st.aux) <==> s in env.vars
      ensures s in env.vars ==> VarsOf(alloc, st.aux)[s] == env.vars[s]
    {
      VarsOfAt(alloc, st.aux, s);
    }
  }

  /** The machine's operations of a contract that works. */
  ghost function Operations<S(!new)>(lines: seq<Line<S>>, constants: seq<S>, c: Contract<S>): seq<Vm.CryptoOperation>
    requires Works(lines, constants, c)
  {
    LowerOps(c.ops).value
  }

  /** The constraints generated from a contract that works, with these constants. */
  ghost function Generated<S(!new)>(lines: seq<Line<S>>, constants: seq<S>, c: Contract<S>,
                                    values: seq<Fp>): seq<C.Constraint>
    requires Works(lines, constants, c) && |values| == |constants|
  {
    CompiledConstrainsAsSource(lines, constants, c, values, seq(|c.alloc|, _ => ZERO));
    C.Denotation(LowerConstraints(c.constraints).value, values)
  }

  lemma {:induction false} GeneratedAsSource<S(!new)>(lines: seq<Line<S>>, constants: seq<S>, c: Contract<S>,
                                                      values: seq<Fp>, w: seq<Fp>)
    requires Works(lines, constants, c) && |values| == |constants| && |w| == |c.alloc|
    ensures C.Satisfied(Generated(lines, constants, c, values), w)
       <==> SrcChecks(lines, 0, constants, values, VarsOf(c.alloc, w), C.FRESH_SIDES)
  {
    hide SrcChecks, C.Denotation, C.Satisfied, VarsOf, Compiled, LowerConstraints;
    CompiledConstrainsAsSource(lines, constants, c, values, w);
  }

  /** A contract that works does, compiled, what its source does: its run ends as the source's, and the
      generated constraints hold of the computed values exactly when the source's do. */
  lemma {:induction false} WorksAsSource<S(!new)>(lines: seq<Line<S>>, constants: seq<S>, c: Contract<S>,
                                                  values: seq<Fp>, aux: seq<Fp>)
    requires Works(lines, constants, c) && |values| == |constants| && |aux| == |c.alloc|
    ensures var o := Vm.Run(Operations(lines, constants, c), values, Vm.State(aux, []));
            match SrcRun(c.alloc, constants, values, InitialEnv(c.alloc, aux), lines, |lines|)
            case SrcDone(env) =>
              && o.Done? && |o.s.aux| == |c.alloc| && VarsOf(c.alloc, o.s.aux) == env.vars
              && (C.Satisfied(Generated(lines, constants, c, values), o.s.aux)
                  <==> SrcChecks(lines, 0, constants, values, env.vars, C.FRESH_SIDES))
            case SrcFailed(e, env) => o.Failed? && o.e == e && |o.s.aux| == |c.alloc|
              && VarsOf(c.alloc, o.s.aux) == env.vars
            case SrcStuck => false
  {
    hide Compiled, LowerOps, LowerConstraints, Vm.Run, SrcRun, SrcChecks, C.Satisfied, VarsOf, WellFormedTable,
         Generated;
    CompiledRunsAsSource(lines, constants, c, values, aux);
    match SrcRun(c.alloc, constants, values, InitialEnv(c.alloc, aux), lines, |lines|) {
      case SrcDone(env) =>
        var s := Vm.Run(Operations(lines, constants, c), values, Vm.State(aux, [])).s;
        RelatedVars(c.alloc, env, s);
        GeneratedAsSource(lines, constants, c, values, s.aux);
      case SrcFailed(e, env) =>
        RelatedVars(c.alloc, env, Vm.Run(Operations(lines, constants, c), values, Vm.State(aux, [])).s);
    }
  }

  /* ----- single steps of a run ----- */

  /** The source run has reached line n with this environment. */
  datatype Run<S> = Run(alloc: seq<Variable<S>>, constants: seq<S>, values: seq<Fp>, start: Env<S>, lines: seq<Line<S>>)

  ghost predicate At<S>(r: Run<S>, n: nat, env: Env<S>) {
    && n <= |r.lines|
    && SrcRun(r.alloc, r.constants, r.values, r.start, r.lines, n) == SrcDone(env)
    && env.locals.Keys == env.slots.Keys
  }

  /** A line that is no operation. */
  lemma SkipLine<S>(r: Run<S>, n: nat, env: Env<S>)
    requires At(r, n, env) && n < |r.lines| && !r.lines[n].command.Op?
    ensures At(r, n + 1, env)
  {}

  lemma {:induction false} SkipLines<S>(r: Run<S>, m: nat, n: nat, env: Env<S>)
    requires m <= n <= |r.lines| && At(r, m, env)
    requires forall k :: m <= k < n ==> !r.lines[k].command.Op?
    ensures At(r, n, env)
    decreases n - m
  {
    if m < n {
      SkipLine(r, m, env);
      SkipLines(r, m + 1, n, env);
    }
  }

  /** The value that one of the four two-argument operations puts into its first argument. */
  function Combined(c: OpCommand, a: Fp, b: Fp): Fp
    requires c.Set? || c.Mul? || c.Add? || c.Sub?
  {
    match c
    case Set => b
    case Mul => Field.Mul(a, b)
    case Add => Field.Add(a, b)
    case Sub => Field.Sub(a, b)
  }

  lemma TwoArgs<S>(r: Run<S>, n: nat, env: Env<S>, c: OpCommand, a: S, b: S)
    requires At(r, n, env) && n < |r.lines| && r.lines[n].command == Op(c) && r.lines[n].args == [a, b]
    requires c.Set? || c.Mul? || c.Add? || c.Sub?
    requires Known(env, a) && Known(env, b)
    ensures At(r, n + 1, Assign(env, a, Combined(c, Value(env, a), Value(env, b))))
  {
    hide Residue, Field.Mul, Field.Add, Field.Sub;
  }

  lemma SquareArg<S>(r: Run<S>, n: nat, env: Env<S>, a: S)
    requires At(r, n, env) && n < |r.lines| && r.lines[n].command == Op(Square) && r.lines[n].args == [a]
    requires Known(env, a)
    ensures At(r, n + 1, Assign(env, a, Field.Mul(Value(env, a), Value(env, a))))
  {
    hide Residue, Field.Mul;
  }

  lemma DivideArgs<S>(r: Run<S>, n: nat, env: Env<S>, a: S, b: S)
    requires At(r, n, env) && n < |r.lines| && r.lines[n].command == Op(Divide) && r.lines[n].args == [a, b]
    requires Known(env, a) && Known(env, b)
    ensures Value(env, b) != ZERO ==> At(r, n + 1, Assign(env, a, Div(Value(env, a), Value(env, b))))
    ensures Value(env, b) == ZERO ==>
      SrcRun(r.alloc, r.constants, r.values, r.start, r.lines, n + 1) == SrcFailed(Vm.DivisionByZero, env)
  {
    hide Residue, Div;
  }

  lemma LoadArgs<S>(r: Run<S>, n: nat, env: Env<S>, a: S, k: S)
    requires At(r, n, env) && n < |r.lines| && r.lines[n].command == Op(Load) && r.lines[n].args == [a, k]
    requires Known(env, a) && !Known(env, k) && IsConstant(r.constants, r.values, k)
    ensures At(r, n + 1, Assign(env, a, r.values[FindConstant(r.constants, k).value]))
  {
    hide FindConstant;
  }

  lemma LocalArg<S>(r: Run<S>, n: nat, env: Env<S>, a: S)
    requires At(r, n, env) && n < |r.lines| && r.lines[n].command == Op(Local) && r.lines[n].args == [a]
    requires MayDeclare(env.slots, env.pushed, a)
    ensures At(r, n + 1, DeclareLocal(env, a))
  {}

  lemma {:induction false} FailureStays<S>(r: Run<S>, m: nat, n: nat, e: Vm.VmError, env: Env<S>)
    requires m <= n <= |r.lines|
    requires SrcRun(r.alloc, r.constants, r.values, r.start, r.lines, m) == SrcFailed(e, env)
    ensures SrcRun(r.alloc, r.constants, r.values, r.start, r.lines, n) == SrcFailed(e, env)
    decreases n
  {
    if m < n { FailureStays(r, m, n - 1, e, env); }
  }

  /* ----- single steps of the constraints ----- */

  /** The values of the names, and the constants. */
  datatype Values<S> = Values(constants: seq<S>, values: seq<Fp>, vars: map<S, Fp>)

  predicate Checks<S(==)>(lines: seq<Line<S>>, i: nat, v: Values<S>, s: C.Sides)
    requires i <= |lines|
  {
    SrcChecks(lines, i, v.constants, v.values, v.vars, s)
  }

  function ConstantValue<S(==)>(v: Values<S>, k: S): Fp
    requires IsConstant(v.constants, v.values, k)
  {
    v.values[FindConstant(v.constants, k).value]
  }

  lemma {:induction false} CheckNone<S>(lines: seq<Line<S>>, i: nat, v: Values<S>, s: C.Sides)
    requires i < |lines| && !lines[i].command.Constrain?
    ensures Checks(lines, i, v, s) <==> Checks(lines, i + 1, v, s)
  {}

  lemma {:induction false} CheckNoneUpTo<S>(lines: seq<Line<S>>, i: nat, j: nat, v: Values<S>, s: C.Sides)
    requires i <= j <= |lines| && forall k :: i <= k < j ==> !lines[k].command.Constrain?
    ensures Checks(lines, i, v, s) <==> Checks(lines, j, v, s)
    decreases j - i
  {
    if i < j {
      CheckNone(lines, i, v, s);
      CheckNoneUpTo(lines, i + 1, j, v, s);
    }
  }

  /** Plus or minus a variable, with the running coefficient. */
  lemma {:induction false} CheckVariable<S>(lines: seq<Line<S>>, i: nat, v: Values<S>, s: C.Sides, x: S)
    requires i < |lines| && lines[i].command.Constrain? && lines[i].args == [x] && x in v.vars
    requires lines[i].command.constraint.Add? || lines[i].command.constraint.Sub?
    ensures var k := lines[i].command.constraint;
            var t := Field.Mul(if k.Add? then s.coeff else Neg(s.coeff), v.vars[x]);
            Checks(lines, i, v, s) <==> Checks(lines, i + 1, v, C.AddTo(s, k.side, t))
  {
    hide Residue, Field.Mul, Neg, C.AddTo;
  }

  /** The same while the coefficient is one. */
  lemma {:induction false} CheckPlain<S>(lines: seq<Line<S>>, i: nat, v: Values<S>, s: C.Sides, x: S)
    requires i < |lines| && lines[i].command.Constrain? && lines[i].args == [x] && x in v.vars && s.coeff == ONE
    requires lines[i].command.constraint.Add? || lines[i].command.constraint.Sub?
    ensures var k := lines[i].command.constraint;
            Checks(lines, i, v, s)
            <==> Checks(lines, i + 1, v, C.AddTo(s, k.side, if k.Add? then v.vars[x] else Neg(v.vars[x])))
  {
    hide Residue, Field.Mul, Neg, C.AddTo, Checks;
    CheckVariable(lines, i, v, s, x);
    Units(v.vars[x]);
    NegMul(ONE, v.vars[x]);
  }

  lemma {:induction false} CheckConstant<S>(lines: seq<Line<S>>, i: nat, v: Values<S>, s: C.Sides, k: S)
    requires i < |lines| && lines[i].command.Constrain? && lines[i].command.constraint.AddConstant?
    requires lines[i].args == [k]
    requires IsConstant(v.constants, v.values, k)
    ensures Checks(lines, i, v, s)
       <==> Checks(lines, i + 1, v, C.AddTo(s, lines[i].command.constraint.side, ConstantValue(v, k)))
  {
    hide Residue, Field.Mul, Field.Add, Neg, C.AddTo, FindConstant;
    Units(ConstantValue(v, k));
  }

  lemma {:induction false} CheckCoeff<S>(lines: seq<Line<S>>, i: nat, v: Values<S>, s: C.Sides, k: S, x: S)
    requires i < |lines| && lines[i].command.Constrain? && lines[i].command.constraint.AddCoeff?
    requires lines[i].args == [k, x]
    requires IsConstant(v.constants, v.values, k) && x in v.vars
    ensures Checks(lines, i, v, s)
       <==> Checks(lines, i + 1, v,
                   C.AddTo(s, lines[i].command.constraint.side, Field.Mul(ConstantValue(v, k), v.vars[x])))
  {
    hide Residue, Field.Mul, Field.Add, Neg, C.AddTo, FindConstant;
  }

  lemma {:induction false} CheckOne<S>(lines: seq<Line<S>>, i: nat, v: Values<S>, s: C.Sides)
    requires i < |lines| && lines[i].command.Constrain? && lines[i].command.constraint.AddOne? && lines[i].args == []
    ensures Checks(lines, i, v, s) <==> Checks(lines, i + 1, v, C.AddTo(s, lines[i].command.constraint.side, ONE))
  {
    hide Residue, Field.Mul, Field.Add, Neg, C.AddTo;
    Units(ONE);
  }

  lemma {:induction false} CheckEnforce<S>(lines: seq<Line<S>>, i: nat, v: Values<S>, s: C.Sides)
    requires i < |lines| && lines[i].command == Constrain(Enforce) && lines[i].args == []
    ensures Checks(lines, i, v, s) <==> Field.Mul(s.a, s.b) == s.c && Checks(lines, i + 1, v, C.FRESH_SIDES)
  {
    hide Residue, Field.Mul;
  }

  lemma {:induction false} CheckCoefficient<S>(lines: seq<Line<S>>, i: nat, v: Values<S>, s: C.Sides)
    requires i < |lines| && lines[i].args == []
    requires lines[i].command == Constrain(CoeffReset) || lines[i].command == Constrain(CoeffDouble)
    ensures Checks(lines, i, v, s)
       <==> Checks(lines, i + 1, v,
                   s.(coeff := if lines[i].command == Constrain(CoeffReset) then ONE else Field.Add(s.coeff, s.coeff)))
  {
    hide Residue, Field.Add;
  }
}
