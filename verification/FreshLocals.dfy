/** Locals as the machine makes them: each `local` line pushes a new zero, and its name means that one.
    What compile.py makes of a redeclared name need not be this. */
module FreshLocals {
  import opened Wrappers
  import opened Field
  import opened Assembly
  import opened Compiler
  import opened Simulation
  import opened LocalSlots
  import opened CompilerCorrect
  import Vm

  /* ----- every declaration is fresh ----- */

  function DeclareFresh<S>(env: Env<S>, s: S): Env<S> {
    Env(env.vars, env.locals[s := ZERO], env.slots[s := env.pushed], env.pushed + 1)
  }

  predicate MeaningfulFresh<S(==)>(constants: seq<S>, values: seq<Fp>, env: Env<S>, line: Line<S>) {
    if line.command == Op(Local) then |line.args| == 1 else Meaningful(constants, values, env, line)
  }

  ghost function FreshStep<S>(alloc: seq<Variable<S>>, constants: seq<S>, values: seq<Fp>, env: Env<S>,
                              line: Line<S>): SrcOutcome<S>
    requires MeaningfulFresh(constants, values, env, line) && env.locals.Keys == env.slots.Keys
  {
    if line.command == Op(Local) then SrcDone(DeclareFresh(env, line.args[0]))
    else SrcStep(alloc, constants, values, env, line)
  }

  ghost function FreshRun<S>(alloc: seq<Variable<S>>, constants: seq<S>, values: seq<Fp>, env: Env<S>,
                             lines: seq<Line<S>>, n: nat): SrcOutcome<S>
    requires n <= |lines|
  {
    if n == 0 then SrcDone(env)
    else
      var before := FreshRun(alloc, constants, values, env, lines, n - 1);
      if !before.SrcDone? then before
      else if before.env.locals.Keys == before.env.slots.Keys
        && MeaningfulFresh(constants, values, before.env, lines[n - 1])
      then FreshStep(alloc, constants, values, before.env, lines[n - 1])
      else SrcStuck
  }

  /** All but the last name are declared for the first time. */
  predicate DistinctBeforeLast<S(==)>(names: seq<S>) {
    names != [] ==> Distinct(names[..|names| - 1])
  }

  lemma {:induction false} DistinctPrefix<S>(names: seq<S>, p: seq<S>)
    requires DistinctBeforeLast(names) && p <= names
    ensures DistinctBeforeLast(p) && forall k :: 0 <= k < |p| ==> Distinct(p[..k])
  {}

  lemma {:induction false} DistinctBeforeLastNoClash<S(!new)>(names: seq<S>)
    requires DistinctBeforeLast(names)
    ensures NoClash(names)
  {
    DistinctPrefix(names, names);
    forall k | 0 <= k < |names| ensures MayDeclare(SlotsAfter(names[..k]), k, names[k]) {
      SlotsCount(names[..k]);
    }
  }

  /** Lines that declare nothing leave the slots alone. */
  lemma {:induction false} SlotsStay<S>(alloc: seq<Variable<S>>, constants: seq<S>, values: seq<Fp>, env: Env<S>,
                                        line: Line<S>)
    requires Meaningful(constants, values, env, line) && env.locals.Keys == env.slots.Keys && line.command != Op(Local)
    ensures var o := SrcStep(alloc, constants, values, env, line);
            o.SrcDone? ==> o.env.slots == env.slots && o.env.pushed == env.pushed
  {
    hide FindConstant, FindVariable, SlotOf, Residue, Div, Inv, Vm.BitOf;
  }

  /** The slots of the run, while all names are distinct. */
  ghost predicate SlotsSoFar<S>(o: SrcOutcome<S>, names: seq<S>) {
    o.SrcDone? && Distinct(names) ==> o.env.pushed == |names| && o.env.slots == SlotsAfter(names)
  }

  /** The source's run is the run with fresh locals. */
  lemma {:induction false} SameRun<S(!new)>(alloc: seq<Variable<S>>, constants: seq<S>, values: seq<Fp>, env: Env<S>,
                                            lines: seq<Line<S>>, n: nat)
    requires n <= |lines| && DistinctBeforeLast(LocalNames(lines, n)) && env.slots == map[] && env.pushed == 0
    ensures FreshRun(alloc, constants, values, env, lines, n) == SrcRun(alloc, constants, values, env, lines, n)
    ensures SlotsSoFar(SrcRun(alloc, constants, values, env, lines, n), LocalNames(lines, n))
  {
    hide Meaningful, SrcStep, Distinct, SlotsAfter;
    if n == 0 {
      assert SlotsAfter<S>([]) == map[] by { NoSlots<S>(); }
    } else {
      var names, before := LocalNames(lines, n), LocalNames(lines, n - 1);
      DistinctPrefix(names, before);
      SameRun(alloc, constants, values, env, lines, n - 1);
      var o := SrcRun(alloc, constants, values, env, lines, n - 1);
      if o.SrcDone? && o.env.locals.Keys == o.env.slots.Keys {
        SameStep(alloc, constants, values, o.env, lines[n - 1], before);
      }
    }
  }

  lemma NoSlots<S>()
    ensures SlotsAfter<S>([]) == map[]
  {}

  lemma {:induction false} SameStep<S(!new)>(alloc: seq<Variable<S>>, constants: seq<S>, values: seq<Fp>, env: Env<S>,
                                             line: Line<S>, before: seq<S>)
    requires env.locals.Keys == env.slots.Keys && SlotsSoFar(SrcDone(env), before)
    requires line.command == Op(Local) && |line.args| == 1 ==> DistinctBeforeLast(before + line.args)
    ensures MeaningfulFresh(constants, values, env, line) <==> Meaningful(constants, values, env, line)
    ensures Meaningful(constants, values, env, line) ==>
      var o := SrcStep(alloc, constants, values, env, line);
      && o == FreshStep(alloc, constants, values, env, line)
      && SlotsSoFar(o, before + (if line.command == Op(Local) && |line.args| == 1 then line.args else []))
  {
    if line.command == Op(Local) {
      hide SrcStep;
      if |line.args| == 1 {
        var s, names := line.args[0], before + line.args;
        assert names[..|names| - 1] == before;
        SlotsCount(before);
        assert |env.slots| == env.pushed;
        LastDeclared(names);
        LocalStep(alloc, constants, values, env, line);
      }
    } else {
      hide SrcStep, Distinct, SlotsAfter;
      assert before + [] == before;
      if Meaningful(constants, values, env, line) { SlotsStay(alloc, constants, values, env, line); }
    }
  }

  lemma {:induction false} LocalStep<S>(alloc: seq<Variable<S>>, constants: seq<S>, values: seq<Fp>, env: Env<S>,
                                        line: Line<S>)
    requires line.command == Op(Local) && |line.args| == 1 && env.locals.Keys == env.slots.Keys
    requires |env.slots| == env.pushed
    ensures Meaningful(constants, values, env, line)
    ensures SrcStep(alloc, constants, values, env, line) == SrcDone(DeclareFresh(env, line.args[0]))
    ensures DeclareFresh(env, line.args[0]).slots == Declare(env.slots, line.args[0])
  {}

  /* ----- exactly when compiled locals are fresh ----- */

  /** What the lines compile to runs as the lines do with fresh locals. */
  ghost predicate RunsFresh<S(!new)>(lines: seq<Line<S>>, constants: seq<S>, values: seq<Fp>, aux: seq<Fp>) {
    match Compiled(lines, constants)
    case None => true
    case Some(c) =>
      LowerOps(c.ops).Some? && |values| == |constants| && |aux| == |c.alloc| ==>
        RelatedOutcome(c.alloc, FreshRun(c.alloc, constants, values, InitialEnv(c.alloc, aux), lines, |lines|),
                       Vm.Run(LowerOps(c.ops).value, values, Vm.State(aux, [])))
  }

  /** Every program with these declarations, or the first of them, runs with fresh locals. */
  ghost predicate AllRunFresh<S(!new)>(names: seq<S>) {
    forall lines: seq<Line<S>>, constants: seq<S>, values: seq<Fp>, aux: seq<Fp> ::
      LocalNames(lines, |lines|) <= names ==> RunsFresh(lines, constants, values, aux)
  }

  lemma {:induction false} DistinctRunsFresh<S(!new)>(lines: seq<Line<S>>, constants: seq<S>, values: seq<Fp>,
                                                      aux: seq<Fp>)
    requires DistinctBeforeLast(LocalNames(lines, |lines|))
    ensures RunsFresh(lines, constants, values, aux)
  {
    hide FreshRun, SrcRun, Vm.Run, Compiled, LowerOps, RelatedOutcome, NoClash, LocalNames, DistinctBeforeLast, VarsOf;
    if Compiled(lines, constants).Some? {
      var c := Compiled(lines, constants).value;
      if LowerOps(c.ops).Some? && |values| == |constants| && |aux| == |c.alloc| {
        DistinctBeforeLastNoClash(LocalNames(lines, |lines|));
        CompiledRunsAsSource(lines, constants, c, values, aux);
        SameRun(c.alloc, constants, values, InitialEnv(c.alloc, aux), lines, |lines|);
      }
    }
  }

  /* ----- a program that tells a repeated name from a fresh one ----- */

  function Declarations<S>(names: seq<S>): seq<Line<S>> {
    seq(|names|, i requires 0 <= i < |names| => Line(Op(Local), [names[i]], []))
  }

  /** Declares a variable and the names, the last of which was declared before, loads the constant into it,
      declares one name more, and copies that one into the variable. */
  function Telltale<S>(pre: seq<S>, b: S, x: S, c: S): seq<Line<S>>
    requires pre != []
  {
    [Line(Alloc(Private), [x], [])] + Declarations(pre)
    + [Line(Op(Load), [pre[|pre| - 1], c], []), Line(Op(Local), [b], []), Line(Op(Set), [x, b], [])]
  }

  predicate Tells<S(==)>(pre: seq<S>, b: S, x: S, c: S) {
    && pre != [] && Distinct(pre[..|pre| - 1]) && !Distinct(pre)
    && x !in pre && c !in pre && x != b && c != b && x != c
  }

  function OneVariable<S>(x: S): seq<Variable<S>> { [Variable(x, 0, Vm.Private, false)] }

  lemma {:induction false} TelltaleLine<S>(pre: seq<S>, b: S, x: S, c: S, n: nat)
    requires pre != [] && n < |Telltale(pre, b, x, c)|
    ensures |Telltale(pre, b, x, c)| == |pre| + 4
    ensures var line, k := Telltale(pre, b, x, c)[n], |pre|;
            line == if n == 0 then Line(Alloc(Private), [x], [])
                    else if n <= k then Line(Op(Local), [pre[n - 1]], [])
                    else if n == k + 1 then Line(Op(Load), [pre[k - 1], c], [])
                    else if n == k + 2 then Line(Op(Local), [b], [])
                    else Line(Op(Set), [x, b], [])
  {}

  lemma {:induction false} TelltaleLength<S>(pre: seq<S>, b: S, x: S, c: S)
    requires pre != []
    ensures |Telltale(pre, b, x, c)| == |pre| + 4
  {}

  lemma {:induction false} TelltaleNames<S>(pre: seq<S>, b: S, x: S, c: S, n: nat)
    requires pre != [] && n <= |pre| + 4
    ensures |Telltale(pre, b, x, c)| == |pre| + 4
    ensures LocalNames(Telltale(pre, b, x, c), n)
         == if n == 0 then [] else if n <= |pre| + 1 then pre[..n - 1] else if n == |pre| + 2 then pre else pre + [b]
  {
    hide Telltale;
    TelltaleLength(pre, b, x, c);
    if n > 0 {
      TelltaleNames(pre, b, x, c, n - 1);
      TelltaleLine(pre, b, x, c, n - 1);
      if 2 <= n <= |pre| + 1 { assert pre[..n - 1] == pre[..n - 2] + [pre[n - 2]]; }
    }
  }

  lemma {:induction false} TelltaleAlloc<S(!new)>(pre: seq<S>, b: S, x: S, c: S, n: nat)
    requires pre != [] && n <= |pre| + 4
    ensures |Telltale(pre, b, x, c)| == |pre| + 4
    ensures AllocTable(Telltale(pre, b, x, c), n) == Some(if n == 0 then [] else OneVariable(x))
  {
    hide Telltale, FindVariable;
    TelltaleLength(pre, b, x, c);
    if n > 0 {
      TelltaleAlloc(pre, b, x, c, n - 1);
      TelltaleLine(pre, b, x, c, n - 1);
      NotFound(x);
    }
  }

  lemma NotFound<S(!new)>(x: S)
    ensures FindVariable([], x).None? && [] + [NewVariable(Private, x, 0)] == OneVariable(x)
  {}

  lemma {:induction false} NoConstraints<S(!new)>(alloc: seq<Variable<S>>, constants: seq<S>, lines: seq<Line<S>>,
                                                  n: nat)
    requires n <= |lines| && forall i :: 0 <= i < n ==> !lines[i].command.Constrain?
    ensures ConstraintsTable(alloc, constants, lines, n) == Some([])
  {
    if n > 0 {
      NoConstraints(alloc, constants, lines, n - 1);
      var none: seq<ConstraintLine<S>> := [];
      assert none + none == none;
    }
  }

  /** What the first n lines are compiled to. */
  function TelltaleOps(k: nat, n: nat): seq<Vm.CryptoOperation>
    requires k > 0
  {
    if n == 0 then []
    else
      TelltaleOps(k, n - 1) + TelltaleOp(k, n)
  }

  function TelltaleSlots<S(==)>(pre: seq<S>, b: S, n: nat): map<S, nat>
    requires n <= |pre| + 4
  {
    SlotsAfter(if n == 0 then [] else if n <= |pre| + 1 then pre[..n - 1] else if n == |pre| + 2 then pre
               else pre + [b])
  }

  lemma FindOne<S(!new)>(x: S, s: S)
    ensures FindVariable(OneVariable(x), s) == if s == x then Some(OneVariable(x)[0]) else None
    ensures FindConstant([x], s) == if s == x then Some(0) else None
  {
    assert OneVariable(x)[..0] == [] && [x][..0] == [];
  }

  /** The repeated name and the one after it have the slot that was pushed for the repetition. */
  lemma {:induction false} SharedSlot<S(!new)>(pre: seq<S>, b: S, x: S, c: S)
    requires Tells(pre, b, x, c)
    ensures |SlotsAfter(pre)| == |pre| - 1
    ensures pre[|pre| - 1] in SlotsAfter(pre) && SlotsAfter(pre)[pre[|pre| - 1]] == |pre| - 1
    ensures b in SlotsAfter(pre + [b]) && SlotsAfter(pre + [b])[b] == |pre| - 1
    ensures forall s :: s in SlotsAfter(pre + [b]) <==> s in pre || s == b
  {
    SlotsCount(pre[..|pre| - 1]);
    SlotsCount(pre);
    SlotsCount(pre + [b]);
    DeclareSizeExactly(SlotsAfter(pre[..|pre| - 1]), pre[|pre| - 1]);
    assert (pre + [b])[..|pre|] == pre;
  }

  lemma {:induction false} TelltaleCompiles<S(!new)>(pre: seq<S>, b: S, x: S, c: S, n: nat)
    requires Tells(pre, b, x, c) && n <= |pre| + 4
    ensures |Telltale(pre, b, x, c)| == |pre| + 4
    ensures var t := OpsTable(Scope(OneVariable(x), map[], [c]), Telltale(pre, b, x, c), n);
            && t.Some? && t.value.0 == Scope(OneVariable(x), TelltaleSlots(pre, b, n), [c])
            && LowerOps(t.value.1) == Some(TelltaleOps(|pre|, n))
  {
    hide Telltale, OpsTable, LowerOps, TelltaleOps, TelltaleSlots, CompileOp, Distinct;
    TelltaleLength(pre, b, x, c);
    var scope := Scope(OneVariable(x), map[], [c]);
    if n == 0 {
      NothingCompiled(scope, Telltale(pre, b, x, c), pre, b);
    } else {
      TelltaleCompiles(pre, b, x, c, n - 1);
      TelltaleLineCompiles(pre, b, x, c, n);
      var t := OpsTable(scope, Telltale(pre, b, x, c), n - 1).value;
      OpsGrow(scope, Telltale(pre, b, x, c), n);
      LowerBoth(t.1, CompileOp(t.0, Telltale(pre, b, x, c)[n - 1]).value.1);
      TelltaleGrows(|pre|, n);
    }
  }

  lemma {:induction false} NothingCompiled<S>(scope: Scope<S>, lines: seq<Line<S>>, pre: seq<S>, b: S)
    requires pre != []
    ensures OpsTable(scope, lines, 0) == Some((scope, [])) && LowerOps<S>([]) == Some(TelltaleOps(|pre|, 0))
    ensures TelltaleSlots(pre, b, 0) == map[]
  {}

  lemma {:induction false} OpsGrow<S>(scope: Scope<S>, lines: seq<Line<S>>, n: nat)
    requires 0 < n <= |lines| && OpsTable(scope, lines, n - 1).Some?
    requires CompileOp(OpsTable(scope, lines, n - 1).value.0, lines[n - 1]).Some?
    ensures var t := OpsTable(scope, lines, n - 1).value; var next := CompileOp(t.0, lines[n - 1]).value;
            OpsTable(scope, lines, n) == Some((next.0, t.1 + next.1))
  {}

  lemma {:induction false} LowerBoth<S>(a: seq<Operation<S>>, b: seq<Operation<S>>)
    requires LowerOps(a).Some? && LowerOps(b).Some?
    ensures LowerOps(a + b) == Some(LowerOps(a).value + LowerOps(b).value)
  {
    hide LowerOp;
    assert forall i :: 0 <= i < |a + b| ==> LowerOp((a + b)[i]).Some?;
    LowerAppend(a, b);
  }

  function TelltaleOp(k: nat, n: nat): seq<Vm.CryptoOperation>
    requires 0 < k && 0 < n
  {
    if n == 1 then [] else if n == k + 2 then [Vm.Load(Vm.Local(k - 1), 0)]
    else if n == k + 4 then [Vm.Set(Vm.Aux(0), Vm.Local(k - 1))] else [Vm.LocalDecl]
  }

  lemma TelltaleGrows(k: nat, n: nat)
    requires 0 < k && 0 < n
    ensures TelltaleOps(k, n) == TelltaleOps(k, n - 1) + TelltaleOp(k, n)
  {}

  /** A line of operands that resolve. */
  lemma {:induction false} OperandsCompile<S(!new)>(scope: Scope<S>, line: Line<S>, refs: seq<Ref>)
    requires line.command.Op? && line.command.op != Local && |line.args| == Arity(line.command) == |refs| == 2
    requires Resolve(scope, line.args[0]) == Some(refs[0]) && Resolve(scope, line.args[1]) == Some(refs[1])
    requires KindsChecked(line.command.op, refs)
    ensures CompileOp(scope, line) == Some((scope, [Operation(line.command.op, refs, line)]))
  {
    hide Resolve;
    var r := ResolveAll(scope, line.args);
    assert r.Some? && r.value[0] == refs[0] && r.value[1] == refs[1];
    assert r.value == refs;
  }

  lemma LowerSingle<S>(o: Operation<S>)
    requires LowerOp(o).Some?
    ensures LowerOps([o]) == Some([LowerOp(o).value])
  {
    hide LowerOp;
    assert LowerOps(([o])[..0]) == Some([]);
    assert LowerOps([o]).value == [LowerOp(o).value];
  }

  lemma {:induction false} TelltaleLineCompiles<S(!new)>(pre: seq<S>, b: S, x: S, c: S, n: nat)
    requires Tells(pre, b, x, c) && 0 < n <= |pre| + 4 && |Telltale(pre, b, x, c)| == |pre| + 4
    ensures var next := CompileOp(Scope(OneVariable(x), TelltaleSlots(pre, b, n - 1), [c]),
                                  Telltale(pre, b, x, c)[n - 1]);
            && next.Some? && next.value.0 == Scope(OneVariable(x), TelltaleSlots(pre, b, n), [c])
            && LowerOps(next.value.1) == Some(TelltaleOp(|pre|, n))
  {
    hide Telltale, SlotsAfter, FindVariable, FindConstant, Distinct, OneVariable, LowerOps, LowerOp, ResolveAll;
    TelltaleLine(pre, b, x, c, n - 1);
    var k, line := |pre|, Telltale(pre, b, x, c)[n - 1];
    var scope := Scope(OneVariable(x), TelltaleSlots(pre, b, n - 1), [c]);
    SharedSlot(pre, b, x, c);
    if n == 1 {
      assert pre[..0] == [];
      assert LowerOps<S>([]) == Some([]) by { LowerNothing<S>(); }
    } else if n == k + 2 {
      assert pre[..k] == pre;
      TelltaleResolves(scope, pre, b, x, c);
      OperandsCompile(scope, line, [LocalRef(k - 1), ConstRef(0)]);
      LowerLoad(line, k - 1, 0);
    } else if n == k + 4 {
      FindOne(x, x);
      FindOne(x, b);
      OneIndex(x);
      OperandsCompile(scope, line, [AuxRef(0), LocalRef(k - 1)]);
      LowerSet(line, 0, k - 1);
    } else {
      if n == k + 3 {
        assert (pre + [b])[..k] == pre;
        LastDeclared(pre + [b]);
      } else {
        assert pre[..n - 1][..n - 2] == pre[..n - 2];
        LastDeclared(pre[..n - 1]);
      }
      LowerLocal(line);
    }
  }

  lemma {:induction false} TelltaleResolves<S(!new)>(scope: Scope<S>, pre: seq<S>, b: S, x: S, c: S)
    requires Tells(pre, b, x, c) && scope == Scope(OneVariable(x), SlotsAfter(pre), [c])
    ensures Resolve(scope, pre[|pre| - 1]) == Some(LocalRef(|pre| - 1)) && Resolve(scope, c) == Some(ConstRef(0))
  {
    hide FindVariable, FindConstant, Distinct, OneVariable, SlotsAfter;
    FindOne(x, pre[|pre| - 1]);
    FindOne(x, c);
    FindOne(c, c);
    SharedSlot(pre, b, x, c);
    SlotsCount(pre);
  }

  lemma LowerNothing<S>()
    ensures LowerOps<S>([]) == Some([])
  {}

  lemma LowerLocal<S>(line: Line<S>)
    ensures LowerOps([Operation(Local, [], line)]) == Some([Vm.LocalDecl])
  {
    LowerSingle(Operation(Local, [], line));
  }

  lemma LowerLoad<S>(line: Line<S>, i: nat, j: nat)
    ensures LowerOps([Operation(Load, [LocalRef(i), ConstRef(j)], line)]) == Some([Vm.Load(Vm.Local(i), j)])
  {
    LowerSingle(Operation(Load, [LocalRef(i), ConstRef(j)], line));
  }

  lemma LowerSet<S>(line: Line<S>, i: nat, j: nat)
    ensures LowerOps([Operation(Set, [AuxRef(i), LocalRef(j)], line)]) == Some([Vm.Set(Vm.Aux(i), Vm.Local(j))])
  {
    LowerSingle(Operation(Set, [AuxRef(i), LocalRef(j)], line));
  }

  lemma OneIndex<S>(x: S)
    ensures |OneVariable(x)| == 1 && OneVariable(x)[0].index == 0
  {}

  /** In the machine the variable gets the constant. */
  lemma {:induction false} TelltaleRuns(k: nat, n: nat)
    requires 0 < k && n <= k + 4
    ensures var o := Vm.Run(TelltaleOps(k, n), [ONE], Vm.State([ZERO], []));
            && o.Done? && |o.s.aux| == 1
            && |o.s.locals| == (if n == 0 then 0 else if n <= k + 1 then n - 1 else if n == k + 2 then k else k + 1)
            && (n >= k + 2 ==> o.s.locals[k - 1] == ONE)
            && (n == k + 4 ==> o.s.aux[0] == ONE)
  {
    hide TelltaleOps, Vm.Run;
    var start := Vm.State([ZERO], []);
    RunNothing([ONE], start);
    if n == 0 {
      TelltaleStart(k);
    } else {
      TelltaleRuns(k, n - 1);
      TelltaleGrows(k, n);
      RunAppend(TelltaleOps(k, n - 1), TelltaleOp(k, n), [ONE], start);
      var s := Vm.Run(TelltaleOps(k, n - 1), [ONE], start).s;
      RunNothing([ONE], s);
      if n > 1 { RunOne(TelltaleOp(k, n)[0], [ONE], s); }
    }
  }

  lemma TelltaleStart(k: nat)
    requires k > 0
    ensures TelltaleOps(k, 0) == []
  {}

  lemma RunNothing(constants: seq<Fp>, s: Vm.State)
    ensures Vm.Run([], constants, s) == Vm.Done(s)
  {}

  /** After n lines the variable is zero, the names so far are locals, and so is the last one, with value zero. */
  ghost predicate StillZero<S(!new)>(env: Env<S>, pre: seq<S>, b: S, x: S, c: S, n: nat) {
    && env.locals.Keys == env.slots.Keys && env.vars == map[x := ZERO] && x !in env.locals && c !in env.locals
    && (forall i :: 0 <= i < |pre| && i < n - 1 ==> pre[i] in env.locals)
    && (n >= |pre| + 3 ==> b in env.locals && env.locals[b] == ZERO)
  }

  lemma {:induction false} TelltaleStep<S(!new)>(alloc: seq<Variable<S>>, env: Env<S>, line: Line<S>, pre: seq<S>, b: S,
                                                 x: S, c: S, n: nat)
    requires Tells(pre, b, x, c) && StillZero(env, pre, b, x, c, n) && n < |pre| + 4 && FindConstant([c], c) == Some(0)
    requires var k := |pre|;
             line == if n == 0 then Line(Alloc(Private), [x], [])
                     else if n <= k then Line(Op(Local), [pre[n - 1]], [])
                     else if n == k + 1 then Line(Op(Load), [pre[k - 1], c], [])
                     else if n == k + 2 then Line(Op(Local), [b], [])
                     else Line(Op(Set), [x, b], [])
    ensures MeaningfulFresh([c], [ONE], env, line)
    ensures var o := FreshStep(alloc, [c], [ONE], env, line); o.SrcDone? && StillZero(o.env, pre, b, x, c, n + 1)
  {
    hide FindConstant, Distinct;
  }

  /** With fresh locals it stays zero. */
  lemma {:induction false} TelltaleMeans<S(!new)>(pre: seq<S>, b: S, x: S, c: S, n: nat)
    requires Tells(pre, b, x, c) && n <= |pre| + 4
    ensures |Telltale(pre, b, x, c)| == |pre| + 4
    ensures var alloc := OneVariable(x);
            var o := FreshRun(alloc, [c], [ONE], InitialEnv(alloc, [ZERO]), Telltale(pre, b, x, c), n);
            o.SrcDone? && StillZero(o.env, pre, b, x, c, n)
  {
    hide Telltale, FindConstant, Tells, InitialEnv, OneVariable, MeaningfulFresh, FreshStep;
    var alloc := OneVariable(x);
    PreNotEmpty(pre, b, x, c);
    TelltaleLength(pre, b, x, c);
    if n == 0 {
      OneStart(x);
    } else {
      TelltaleMeans(pre, b, x, c, n - 1);
      TelltaleLine(pre, b, x, c, n - 1);
      FindOne(c, c);
      var o := FreshRun(alloc, [c], [ONE], InitialEnv(alloc, [ZERO]), Telltale(pre, b, x, c), n - 1);
      TelltaleStep(alloc, o.env, Telltale(pre, b, x, c)[n - 1], pre, b, x, c, n - 1);
      SameKeys(o.env, pre, b, x, c, n - 1);
    }
  }

  lemma {:induction false} PreNotEmpty<S(!new)>(pre: seq<S>, b: S, x: S, c: S)
    requires Tells(pre, b, x, c)
    ensures pre != []
  {}

  lemma {:induction false} SameKeys<S(!new)>(env: Env<S>, pre: seq<S>, b: S, x: S, c: S, n: nat)
    requires StillZero(env, pre, b, x, c, n)
    ensures env.locals.Keys == env.slots.Keys
  {}

  lemma OneStart<S(!new)>(x: S)
    ensures InitialEnv(OneVariable(x), [ZERO]) == Env(map[x := ZERO], map[], map[], 0)
  {
    FindOne(x, x);
    var alloc := OneVariable(x);
    assert forall v :: v in alloc ==> v == alloc[0];
    assert alloc[0].symbol == x && alloc[0] in alloc;
    assert VarsOf(alloc, [ZERO]).Keys == {x};
  }

  lemma {:induction false} TelltaleNotFresh<S(!new)>(pre: seq<S>, b: S, x: S, c: S)
    requires Tells(pre, b, x, c)
    ensures !RunsFresh(Telltale(pre, b, x, c), [c], [ONE], [ZERO])
  {
    hide Telltale, FreshRun, Vm.Run, OpsTable, AllocTable, ConstraintsTable, TelltaleOps, TelltaleSlots, LowerOps,
         InitialEnv;
    var lines, n := Telltale(pre, b, x, c), |pre| + 4;
    TelltaleAlloc(pre, b, x, c, n);
    forall i | 0 <= i < n ensures !lines[i].command.Constrain? { TelltaleLine(pre, b, x, c, i); }
    NoConstraints(OneVariable(x), [c], lines, n);
    TelltaleCompiles(pre, b, x, c, n);
    TelltaleRuns(|pre|, n);
    TelltaleMeans(pre, b, x, c, n);
    FindOne(x, x);
  }

  /** The first names that are not all distinct. */
  lemma {:induction false} FirstRepetition<S>(names: seq<S>) returns (k: nat)
    requires !Distinct(names)
    ensures 0 < k <= |names| && Distinct(names[..k - 1]) && !Distinct(names[..k])
    decreases |names|
  {
    var init := names[..|names| - 1];
    assert names[..|names|] == names;
    if Distinct(init) {
      k := |names|;
    } else {
      k := FirstRepetition(init);
      assert init[..k] == names[..k] && init[..k - 1] == names[..k - 1];
    }
  }

  /** Every program that declares these locals runs as if each declaration made a new zero, exactly when
      no name but the last was declared before. Otherwise writing one name changes another. */
  lemma {:induction false} AllRunFreshIffDistinctBeforeLast<S(!new)>(names: seq<S>, x: S, c: S)
    requires x !in names && c !in names && x != c
    ensures AllRunFresh(names) <==> DistinctBeforeLast(names)
  {
    hide RunsFresh, Telltale, Distinct;
    if DistinctBeforeLast(names) {
      forall lines: seq<Line<S>>, constants: seq<S>, values: seq<Fp>, aux: seq<Fp> | LocalNames(lines, |lines|) <= names
        ensures RunsFresh(lines, constants, values, aux)
      {
        DistinctPrefix(names, LocalNames(lines, |lines|));
        DistinctRunsFresh(lines, constants, values, aux);
      }
    } else {
      var init := names[..|names| - 1];
      var k := FirstRepetition(init);
      var pre, b := names[..k], names[k];
      assert init[..k] == pre && init[..k - 1] == pre[..k - 1];
      assert b in names;
      TelltaleNotFresh(pre, b, x, c);
      TelltaleNames(pre, b, x, c, k + 4);
      assert pre + [b] == names[..k + 1];
    }
  }
}
