/** The MiMC circuit is sound and complete: its run leaves the hash, and its constraints hold of
    nothing but a run. */
module MimcCorrect {
  import opened Wrappers
  import opened Field
  import opened Assembly
  import opened Compiler
  import opened Simulation
  import opened CompilerCorrect
  import opened SourceSteps
  import opened Mimc
  import C = Circuit
  import Vm

  /* ----- one round of the run ----- */

  /** The register can be declared here, and the names of the round exist. */
  ghost predicate ReadyForRound(r: Run<Symbol>, p: nat, i: nat, env: Env<Symbol>) {
    && RoundHere(r.lines, p, i) && At(r, p, env)
    && Left(i) in env.vars && Tmp(i) in env.vars && Left(i + 1) in env.vars && RightOf(i) in env.vars
    && MimcConst !in env.vars && MayDeclare(env.slots, env.pushed, MimcConst)
    && !Known(env, RoundConstant(i)) && IsConstant(r.constants, r.values, RoundConstant(i))
  }

  function RoundValue(r: Run<Symbol>, i: nat): Fp
    requires IsConstant(r.constants, r.values, RoundConstant(i))
  {
    r.values[FindConstant(r.constants, RoundConstant(i)).value]
  }

  lemma RegisterLoaded(r: Run<Symbol>, p: nat, i: nat, env: Env<Symbol>) returns (after: Env<Symbol>)
    requires ReadyForRound(r, p, i, env)
    ensures At(r, p + 2, after) && after.vars == env.vars && MimcConst in after.locals
    ensures after.locals[MimcConst] == RoundValue(r, i)
    ensures after.slots == Declare(env.slots, MimcConst) && after.pushed == env.pushed + 1
  {
    hide FindConstant;
    assert r.lines[p] == RoundLine(i, 0) && r.lines[p + 1] == RoundLine(i, 1);
    var declared := DeclareLocal(env, MimcConst);
    LocalArg(r, p, env, MimcConst);
    after := Assign(declared, MimcConst, RoundValue(r, i));
    LoadArgs(r, p + 1, declared, MimcConst, RoundConstant(i));
  }

  lemma SquareComputed(r: Run<Symbol>, p: nat, i: nat, env: Env<Symbol>) returns (after: Env<Symbol>)
    requires RoundHere(r.lines, p, i) && At(r, p + 2, env)
    requires Left(i) in env.vars && Tmp(i) in env.vars && MimcConst !in env.vars && MimcConst in env.locals
    ensures At(r, p + 12, after)
    ensures var t := Field.Add(env.vars[Left(i)], env.locals[MimcConst]);
            after == env.(vars := env.vars[Tmp(i) := Field.Mul(t, t)])
  {
    hide At, Residue, Field.Add, Field.Mul;
    assert forall k :: p <= k < p + ROUND ==> r.lines[k] == RoundLine(i, k - p);
    SkipLines(r, p + 2, p + 3, env);
    var copied := Assign(env, Tmp(i), env.vars[Left(i)]);
    TwoArgs(r, p + 3, env, Set, Tmp(i), Left(i));
    var t := Field.Add(env.vars[Left(i)], env.locals[MimcConst]);
    var added := Assign(copied, Tmp(i), t);
    TwoArgs(r, p + 4, copied, OpCommand.Add, Tmp(i), MimcConst);
    after := Assign(added, Tmp(i), Field.Mul(t, t));
    SquareArg(r, p + 5, added, Tmp(i));
    SkipLines(r, p + 6, p + 12, after);
    assert after.vars == env.vars[Tmp(i) := Field.Mul(t, t)];
  }

  lemma NextComputed(r: Run<Symbol>, p: nat, i: nat, env: Env<Symbol>) returns (after: Env<Symbol>)
    requires RoundHere(r.lines, p, i) && At(r, p + 12, env)
    requires Left(i) in env.vars && Tmp(i) in env.vars && Left(i + 1) in env.vars && RightOf(i) in env.vars
    requires MimcConst !in env.vars && MimcConst in env.locals
    ensures At(r, p + ROUND, after)
    ensures var t := Field.Add(env.vars[Left(i)], env.locals[MimcConst]);
            after == env.(vars := env.vars[Left(i + 1) :=
                                           Field.Add(Field.Mul(t, env.vars[Tmp(i)]), env.vars[RightOf(i)])])
  {
    hide At, Residue, Field.Add, Field.Mul;
    assert forall k :: p <= k < p + ROUND ==> r.lines[k] == RoundLine(i, k - p);
    var x := Left(i + 1);
    SkipLines(r, p + 12, p + 13, env);
    var copied := Assign(env, x, env.vars[Left(i)]);
    TwoArgs(r, p + 13, env, Set, x, Left(i));
    var t := Field.Add(env.vars[Left(i)], env.locals[MimcConst]);
    var added := Assign(copied, x, t);
    TwoArgs(r, p + 14, copied, OpCommand.Add, x, MimcConst);
    var times := Assign(added, x, Field.Mul(t, env.vars[Tmp(i)]));
    TwoArgs(r, p + 15, added, OpCommand.Mul, x, Tmp(i));
    after := Assign(times, x, Field.Add(Field.Mul(t, env.vars[Tmp(i)]), env.vars[RightOf(i)]));
    TwoArgs(r, p + 16, times, OpCommand.Add, x, RightOf(i));
    SkipLines(r, p + 17, p + ROUND, after);
    assert after.vars == env.vars[x := Field.Add(Field.Mul(t, env.vars[Tmp(i)]), env.vars[RightOf(i)])];
  }

  lemma RoundRuns(r: Run<Symbol>, p: nat, i: nat, env: Env<Symbol>) returns (after: Env<Symbol>)
    requires ReadyForRound(r, p, i, env)
    ensures At(r, p + ROUND, after)
    ensures var t := Field.Add(env.vars[Left(i)], RoundValue(r, i));
            var square := Field.Mul(t, t);
            after.vars == env.vars[Tmp(i) := square][Left(i + 1) :=
                                                     Field.Add(Field.Mul(t, square), env.vars[RightOf(i)])]
    ensures after.slots == Declare(env.slots, MimcConst) && after.pushed == env.pushed + 1
  {
    hide At, RoundHere, Residue, Field.Add, Field.Mul, RoundValue;
    var loaded := RegisterLoaded(r, p, i, env);
    var squared := SquareComputed(r, p, i, loaded);
    after := NextComputed(r, p, i, squared);
  }

  /* ----- the values of a run ----- */

  /** Round i squares the left half plus its constant. */
  function SquareAt(xl: Fp, xr: Fp, values: seq<Fp>, i: nat): Fp
    requires i < |values|
  {
    var t := Field.Add(Halves(xl, xr, values, i).0, values[i]);
    Field.Mul(t, t)
  }

  ghost predicate AllNamed(n: nat, vars: map<Symbol, Fp>) {
    Left(0) in vars && Right in vars && HashResult in vars
    && forall s :: s in vars <==> InTable(n, s) || s == HashResult
  }

  /** The names have the values that hashing gives them, up to round i. */
  ghost predicate TraceUpTo(values: seq<Fp>, vars: map<Symbol, Fp>, xl: Fp, xr: Fp, i: nat)
    requires i <= |values|
  {
    && AllNamed(|values|, vars)
    && vars[Right] == xr
    && (forall j: nat :: j <= i ==> vars[Left(j)] == Halves(xl, xr, values, j).0)
    && (forall j: nat :: j < i ==> vars[Tmp(j)] == SquareAt(xl, xr, values, j))
  }

  lemma {:induction false} HalvesStep(xl: Fp, xr: Fp, values: seq<Fp>, i: nat)
    requires i < |values|
    ensures var (l, t) := (Halves(xl, xr, values, i).0, Field.Add(Halves(xl, xr, values, i).0, values[i]));
            Halves(xl, xr, values, i + 1)
              == (Field.Add(Field.Mul(t, SquareAt(xl, xr, values, i)), Halves(xl, xr, values, i).1), l)
  {
    var t := Field.Add(Halves(xl, xr, values, i).0, values[i]);
    MulComm(t, Field.Mul(t, t));
  }

  /** What the circuit uses as the right half of round i. */
  lemma {:induction false} RightHalf(values: seq<Fp>, vars: map<Symbol, Fp>, xl: Fp, xr: Fp, i: nat)
    requires i <= |values| && TraceUpTo(values, vars, xl, xr, i)
    ensures RightOf(i) in vars && vars[RightOf(i)] == Halves(xl, xr, values, i).1
  {
    hide Residue, Field.Mul, Field.Add;
    if i > 0 { HalvesStep(xl, xr, values, i - 1); }
  }

  lemma {:induction false} TraceStep(values: seq<Fp>, vars: map<Symbol, Fp>, xl: Fp, xr: Fp, i: nat)
    requires i < |values| && TraceUpTo(values, vars, xl, xr, i)
    ensures Left(i) in vars && RightOf(i) in vars && vars[Left(i)] == Halves(xl, xr, values, i).0
    ensures var t := Field.Add(vars[Left(i)], values[i]);
            var square := Field.Mul(t, t);
            TraceUpTo(values, vars[Tmp(i) := square][Left(i + 1) := Field.Add(Field.Mul(t, square), vars[RightOf(i)])],
                      xl, xr, i + 1)
  {
    hide Residue, Field.Mul, Field.Add, Halves;
    RightHalf(values, vars, xl, xr, i);
    HalvesStep(xl, xr, values, i);
  }

  /* ----- the whole run ----- */

  /** The slots of the one register after i rounds: redeclaring it once moves it, and no more. */
  function RegisterSlots(i: nat): map<Symbol, nat> {
    if i == 0 then map[] else if i == 1 then map[MimcConst := 0] else map[MimcConst := 1]
  }

  lemma RegisterStep(i: nat)
    ensures Declare(RegisterSlots(i), MimcConst) == RegisterSlots(i + 1) && MayDeclare(RegisterSlots(i), i, MimcConst)
  {}

  function TheRun(values: seq<Fp>, env: Env<Symbol>): Run<Symbol> {
    Run(FullTable(|values|), ConstantNames(|values|), values, env, Source(|values|))
  }

  lemma {:induction false} RoundsRun(values: seq<Fp>, start: Env<Symbol>, xl: Fp, xr: Fp, i: nat)
    returns (env: Env<Symbol>)
    requires i <= |values|
    requires start.locals == map[] && start.slots == map[] && start.pushed == 0
    requires TraceUpTo(values, start.vars, xl, xr, 0)
    ensures At(TheRun(values, start), Start(i), env) && TraceUpTo(values, env.vars, xl, xr, i)
    ensures env.slots == RegisterSlots(i) && env.pushed == i
  {
    var n, r := |values|, TheRun(values, start);
    TailAt(n);
    if i == 0 {
      env := start;
      hide Source, TraceUpTo;
      SkipLines(r, 0, 2, env);
    } else {
      hide At, Source, TraceUpTo, RegisterSlots, FullTable, ConstantNames;
      var before := RoundsRun(values, start, xl, xr, i - 1);
      env := NextRound(values, start, xl, xr, i - 1, before);
    }
  }

  lemma {:induction false} NextRound(values: seq<Fp>, start: Env<Symbol>, xl: Fp, xr: Fp, i: nat, before: Env<Symbol>)
    returns (env: Env<Symbol>)
    requires i < |values| && At(TheRun(values, start), Start(i), before) && TraceUpTo(values, before.vars, xl, xr, i)
    requires before.slots == RegisterSlots(i) && before.pushed == i
    ensures At(TheRun(values, start), Start(i + 1), env) && TraceUpTo(values, env.vars, xl, xr, i + 1)
    ensures env.slots == RegisterSlots(i + 1) && env.pushed == i + 1
  {
    hide At, Source, Residue, Field.Mul, Field.Add, TraceUpTo, Declare, RegisterSlots, MayDeclare, FindConstant,
         RoundHere, FullTable, ConstantNames;
    var n, r := |values|, TheRun(values, start);
    RegisterStep(i);
    RoundIsHere(n, i);
    FindRoundConstant(n, RoundConstant(i));
    TraceNames(values, before.vars, xl, xr, i);
    TraceStep(values, before.vars, xl, xr, i);
    LocalsOfAt(r, Start(i), before);
    OnlyTheRegister(i);
    env := RoundRuns(r, Start(i), i, before);
  }

  lemma {:induction false} TraceNames(values: seq<Fp>, vars: map<Symbol, Fp>, xl: Fp, xr: Fp, i: nat)
    requires i < |values| && TraceUpTo(values, vars, xl, xr, i)
    ensures Left(i) in vars && Tmp(i) in vars && Left(i + 1) in vars && MimcConst !in vars && RoundConstant(i) !in vars
  {}

  lemma OnlyTheRegister(i: nat)
    ensures forall s :: s in RegisterSlots(i) ==> s == MimcConst
  {}

  lemma LocalsOfAt(r: Run<Symbol>, n: nat, env: Env<Symbol>)
    requires At(r, n, env)
    ensures env.locals.Keys == env.slots.Keys
  {}

  lemma {:induction false} LastValue(values: seq<Fp>, vars: map<Symbol, Fp>, xl: Fp, xr: Fp)
    requires TraceUpTo(values, vars, xl, xr, |values|)
    ensures Left(|values|) in vars && HashResult in vars && vars[Left(|values|)] == Hash(xl, xr, values)
    ensures TraceUpTo(values, vars[HashResult := Hash(xl, xr, values)], xl, xr, |values|)
  {
    hide Halves, SquareAt;
  }

  /** After the rounds there is one operation. */
  lemma TailOps(n: nat)
    ensures Start(n) + 2 <= |Source(n)| && !Source(n)[Start(n)].command.Op?
    ensures Source(n)[Start(n) + 1].command == Op(Set) && Source(n)[Start(n) + 1].args == [HashResult, Left(n)]
    ensures forall k :: Start(n) + 2 <= k < |Source(n)| ==> !Source(n)[k].command.Op?
  {
    hide Source;
    TailAt(n);
    forall k | Start(n) + 2 <= k < |Source(n)| ensures !Source(n)[k].command.Op? {
      assert k == Start(n) + 2 || k == Start(n) + 3 || k == Start(n) + 4 || k == Start(n) + 5;
    }
  }

  /** The run ends, and leaves the hash of its two inputs. */
  lemma {:induction false} CircuitRuns(values: seq<Fp>, start: Env<Symbol>, xl: Fp, xr: Fp) returns (env: Env<Symbol>)
    requires start.locals == map[] && start.slots == map[] && start.pushed == 0
    requires TraceUpTo(values, start.vars, xl, xr, 0)
    ensures At(TheRun(values, start), |Source(|values|)|, env)
    ensures TraceUpTo(values, env.vars, xl, xr, |values|) && env.vars[HashResult] == Hash(xl, xr, values)
  {
    hide At, Source, Residue, Field.Mul, Field.Add, Halves, SquareAt, TraceUpTo, FullTable, ConstantNames, Start;
    var n, r := |values|, TheRun(values, start);
    TailOps(n);
    var before := RoundsRun(values, start, xl, xr, n);
    LastValue(values, before.vars, xl, xr);
    SkipLines(r, Start(n), Start(n) + 1, before);
    env := Assign(before, HashResult, before.vars[Left(n)]);
    TwoArgs(r, Start(n) + 1, before, Set, HashResult, Left(n));
    SkipLines(r, Start(n) + 2, |Source(n)|, env);
  }

  /* ----- the constraints ----- */

  ghost predicate NamesRound(i: nat, v: Values<Symbol>) {
    && Left(i) in v.vars && Tmp(i) in v.vars && Left(i + 1) in v.vars && RightOf(i) in v.vars
    && IsConstant(v.constants, v.values, RoundConstant(i))
  }

  /** The first constraint of a round: the square. */
  lemma {:induction false} FirstConstraint(lines: seq<Line<Symbol>>, p: nat, i: nat, v: Values<Symbol>)
    requires RoundHere(lines, p, i) && NamesRound(i, v)
    ensures var t := Field.Add(v.vars[Left(i)], ConstantValue(v, RoundConstant(i)));
            Checks(lines, p, v, C.FRESH_SIDES)
            <==> Field.Mul(t, t) == v.vars[Tmp(i)] && Checks(lines, p + 12, v, C.FRESH_SIDES)
  {
    hide Checks, Residue, Field.Add, Field.Mul, Neg, ConstantValue, FindConstant;
    assert forall k :: p <= k < p + ROUND ==> lines[k] == RoundLine(i, k - p);
    var l, c, m := v.vars[Left(i)], ConstantValue(v, RoundConstant(i)), v.vars[Tmp(i)];
    var t := Field.Add(l, c);
    CheckNoneUpTo(lines, p, p + 6, v, C.FRESH_SIDES);
    Units(l);
    Units(m);
    CheckPlain(lines, p + 6, v, C.FRESH_SIDES, Left(i));
    CheckConstant(lines, p + 7, v, C.Sides(l, ZERO, ZERO, ONE), RoundConstant(i));
    CheckPlain(lines, p + 8, v, C.Sides(t, ZERO, ZERO, ONE), Left(i));
    CheckConstant(lines, p + 9, v, C.Sides(t, l, ZERO, ONE), RoundConstant(i));
    CheckPlain(lines, p + 10, v, C.Sides(t, t, ZERO, ONE), Tmp(i));
    CheckEnforce(lines, p + 11, v, C.Sides(t, t, m, ONE));
  }

  /** The second: the product with the square, plus the right half. */
  lemma {:induction false} SecondConstraint(lines: seq<Line<Symbol>>, p: nat, i: nat, v: Values<Symbol>)
    requires RoundHere(lines, p, i) && NamesRound(i, v)
    ensures var t := Field.Add(v.vars[Left(i)], ConstantValue(v, RoundConstant(i)));
            (Checks(lines, p + 12, v, C.FRESH_SIDES)
             <==> v.vars[Left(i + 1)] == Field.Add(Field.Mul(t, v.vars[Tmp(i)]), v.vars[RightOf(i)])
                  && Checks(lines, p + ROUND, v, C.FRESH_SIDES))
  {
    hide Checks, Residue, Field.Add, Field.Mul, Neg, ConstantValue, FindConstant;
    assert forall k :: p <= k < p + ROUND ==> lines[k] == RoundLine(i, k - p);
    var l, c, m, next, right := v.vars[Left(i)], ConstantValue(v, RoundConstant(i)), v.vars[Tmp(i)],
      v.vars[Left(i + 1)], v.vars[RightOf(i)];
    var t := Field.Add(l, c);
    CheckNoneUpTo(lines, p + 12, p + 17, v, C.FRESH_SIDES);
    Units(m);
    Units(l);
    Units(next);
    CheckPlain(lines, p + 17, v, C.FRESH_SIDES, Tmp(i));
    CheckPlain(lines, p + 18, v, C.Sides(m, ZERO, ZERO, ONE), Left(i));
    CheckConstant(lines, p + 19, v, C.Sides(m, l, ZERO, ONE), RoundConstant(i));
    CheckPlain(lines, p + 20, v, C.Sides(m, t, ZERO, ONE), Left(i + 1));
    CheckPlain(lines, p + 21, v, C.Sides(m, t, next, ONE), RightOf(i));
    CheckEnforce(lines, p + 22, v, C.Sides(m, t, Field.Add(next, Neg(right)), ONE));
    MulComm(m, t);
    Transposed(Field.Mul(t, m), next, right);
  }

  lemma Transposed(x: Fp, a: Fp, b: Fp)
    ensures x == Field.Add(a, Neg(b)) <==> a == Field.Add(x, b)
  {
    AddAssoc(a, Neg(b), b);
    AddAssoc(x, b, Neg(b));
    Units(b);
    Units(a);
    Units(x);
    AddComm(b, Neg(b));
  }

  lemma LastConstraint(n: nat, v: Values<Symbol>)
    requires Left(n) in v.vars && HashResult in v.vars
    ensures Start(n) <= |Source(n)|
    ensures Checks(Source(n), Start(n), v, C.FRESH_SIDES) <==> v.vars[HashResult] == v.vars[Left(n)]
  {
    hide Checks, Source, Residue, Field.Add, Field.Mul, Neg;
    TailAt(n);
    var p, l, h, lines := Start(n), v.vars[Left(n)], v.vars[HashResult], Source(n);
    CheckNoneUpTo(lines, p, p + 2, v, C.FRESH_SIDES);
    Units(l);
    Units(h);
    Units(ONE);
    CheckPlain(lines, p + 2, v, C.FRESH_SIDES, Left(n));
    CheckOne(lines, p + 3, v, C.Sides(l, ZERO, ZERO, ONE));
    CheckPlain(lines, p + 4, v, C.Sides(l, ONE, ZERO, ONE), HashResult);
    CheckEnforce(lines, p + 5, v, C.Sides(l, ONE, h, ONE));
    EndChecks(lines, v, C.FRESH_SIDES);
  }

  lemma {:induction false} EndChecks(lines: seq<Line<Symbol>>, v: Values<Symbol>, s: C.Sides)
    ensures Checks(lines, |lines|, v, s)
  {}

  /** The constraints of the first i rounds hold exactly of the values of a run. */
  lemma {:induction false} RoundsCheck(values: seq<Fp>, vars: map<Symbol, Fp>, i: nat)
    requires i <= |values| && AllNamed(|values|, vars)
    ensures var v, lines := Values(ConstantNames(|values|), values, vars), Source(|values|);
            && Start(i) <= |lines|
            && (Checks(lines, 0, v, C.FRESH_SIDES)
                <==> TraceUpTo(values, vars, vars[Left(0)], vars[Right], i)
                     && Checks(lines, Start(i), v, C.FRESH_SIDES))
    decreases i
  {
    var n := |values|;
    var v, lines := Values(ConstantNames(n), values, vars), Source(n);
    TailAt(n);
    if i == 0 {
      CheckNoneUpTo(lines, 0, 2, v, C.FRESH_SIDES);
    } else {
      RoundsCheck(values, vars, i - 1);
      RoundCheck(values, vars, i - 1);
    }
  }

  lemma {:induction false} RoundCheck(values: seq<Fp>, vars: map<Symbol, Fp>, i: nat)
    requires i < |values| && AllNamed(|values|, vars)
    ensures var v, lines, xl, xr := Values(ConstantNames(|values|), values, vars), Source(|values|), vars[Left(0)],
      vars[Right];
            Start(i + 1) <= |lines|
            && (TraceUpTo(values, vars, xl, xr, i) ==>
                (Checks(lines, Start(i), v, C.FRESH_SIDES)
                 <==> TraceUpTo(values, vars, xl, xr, i + 1) && Checks(lines, Start(i + 1), v, C.FRESH_SIDES)))
    ensures TraceUpTo(values, vars, vars[Left(0)], vars[Right], i + 1) ==>
      TraceUpTo(values, vars, vars[Left(0)], vars[Right], i)
  {
    hide Source, ConstantNames, FindConstant, Residue, Field.Add, Field.Mul, Checks, RoundHere, TraceUpTo;
    var n, xl, xr := |values|, vars[Left(0)], vars[Right];
    var v, lines := Values(ConstantNames(n), values, vars), Source(n);
    TailAt(n);
    RoundIsHere(n, i);
    FindRoundConstant(n, RoundConstant(i));
    TraceGrows(values, vars, xl, xr, i);
    if TraceUpTo(values, vars, xl, xr, i) {
      RightHalf(values, vars, xl, xr, i);
      HalvesStep(xl, xr, values, i);
      TraceNames(values, vars, xl, xr, i);
      FirstConstraint(lines, Start(i), i, v);
      SecondConstraint(lines, Start(i), i, v);
    }
  }

  lemma {:induction false} TraceGrows(values: seq<Fp>, vars: map<Symbol, Fp>, xl: Fp, xr: Fp, i: nat)
    requires i < |values| && AllNamed(|values|, vars)
    ensures TraceUpTo(values, vars, xl, xr, i) ==>
      Left(i) in vars && vars[Left(i)] == Halves(xl, xr, values, i).0
    ensures TraceUpTo(values, vars, xl, xr, i + 1)
       <==> TraceUpTo(values, vars, xl, xr, i) && Tmp(i) in vars && vars[Tmp(i)] == SquareAt(xl, xr, values, i)
            && Left(i + 1) in vars && vars[Left(i + 1)] == Halves(xl, xr, values, i + 1).0
  {
    hide Halves, SquareAt;
  }

  /** All constraints hold exactly when every name has the value that hashing its two inputs gives it;
      in particular the result is the hash. */
  lemma {:induction false} ChecksIffTrace(values: seq<Fp>, vars: map<Symbol, Fp>)
    requires AllNamed(|values|, vars)
    ensures SrcChecks(Source(|values|), 0, ConstantNames(|values|), values, vars, C.FRESH_SIDES)
       <==> TraceUpTo(values, vars, vars[Left(0)], vars[Right], |values|)
            && vars[HashResult] == Hash(vars[Left(0)], vars[Right], values)
  {
    hide Source, ConstantNames, SrcChecks, Halves;
    RoundsCheck(values, vars, |values|);
    LastConstraint(|values|, Values(ConstantNames(|values|), values, vars));
  }

  /* ----- the compiled contract ----- */

  lemma {:induction false} TableNames(values: seq<Fp>, w: seq<Fp>)
    requires |w| == |FullTable(|values|)|
    ensures |w| == 2 * |values| + 3 && AllNamed(|values|, VarsOf(FullTable(|values|), w))
    ensures var vars := VarsOf(FullTable(|values|), w);
            forall s :: s in vars ==> (s != HashResult ==> Place(s) < |w|)
                                      && vars[s] == if s == HashResult then w[2 * |values| + 2] else w[Place(s)]
  {
    var vars := VarsOf(FullTable(|values|), w);
    forall s
      ensures s in vars <==> InTable(|values|, s) || s == HashResult
      ensures s in vars ==> vars[s] == if s == HashResult then w[2 * |values| + 2] else w[Place(s)]
    {
      TableNameAt(values, w, s);
    }
    TableNameAt(values, w, Left(0));
    TableNameAt(values, w, Right);
    NamesInTable(|values|);
  }

  lemma {:induction false} NamesInTable(n: nat)
    ensures InTable(n, Left(0)) && InTable(n, Right)
  {}

  lemma {:induction false} TableNameAt(values: seq<Fp>, w: seq<Fp>, s: Symbol)
    requires |w| == |FullTable(|values|)|
    ensures |w| == 2 * |values| + 3
    ensures var vars := VarsOf(FullTable(|values|), w);
            && (s in vars <==> InTable(|values|, s) || s == HashResult)
            && (s in vars ==> (s != HashResult ==> Place(s) < |w|)
                              && vars[s] == if s == HashResult then w[2 * |values| + 2] else w[Place(s)])
  {
    hide Source, AllocTable, VarsOf, WellFormedTable, SlotOf, FindVariable, InTable, Table, Place;
    var n := |values|;
    TableIs(n);
    TableIsWellFormed(Source(n), |Source(n)|);
    VarsOfAt(FullTable(n), w, s);
    FindInFull(n, s);
  }

  /** The compiled contract with one round for every constant. */
  function Circuit(n: nat): (c: Contract<Symbol>)
    ensures Works(Source(n), ConstantNames(n), c) && c.alloc == FullTable(n)
  {
    CircuitWorks(n);
    Compiled(Source(n), ConstantNames(n)).value
  }

  /** Its generated constraints, and its run from two inputs. */
  ghost function Constraints(values: seq<Fp>): seq<C.Constraint> {
    Generated(Source(|values|), ConstantNames(|values|), Circuit(|values|), values)
  }

  ghost function RunFrom(values: seq<Fp>, xl: Fp, xr: Fp): Vm.Outcome {
    Vm.Initialized(2 * |values| + 3, Operations(Source(|values|), ConstantNames(|values|), Circuit(|values|)), values,
                   [(0, xl), (1, xr)])
  }

  /** The two variables of round i have the values that hashing gives them. */
  ghost predicate RoundComputed(values: seq<Fp>, w: seq<Fp>, i: nat)
    requires i < |values| && |w| == 2 * |values| + 3
  {
    && w[Place(Tmp(i))] == SquareAt(w[0], w[1], values, i)
    && w[Place(Left(i + 1))] == Halves(w[0], w[1], values, i + 1).0
  }

  /** Sound: in every assignment that satisfies the generated constraints the public output is the
      reference hash of the two inputs, and every other variable is what the run computes. */
  lemma {:induction false} SatisfiedIffTrace(values: seq<Fp>, w: seq<Fp>)
    requires |w| == 2 * |values| + 3
    ensures C.Satisfied(Constraints(values), w)
       <==> w[2 * |values| + 2] == Hash(w[0], w[1], values)
            && forall i: nat :: i < |values| ==> RoundComputed(values, w, i)
  {
    hide Source, SrcChecks, C.Satisfied, VarsOf, Works, Halves, SquareAt, Circuit, FullTable, Generated, RoundComputed;
    var n, vars := |values|, VarsOf(FullTable(|values|), w);
    TableLength(n);
    TableNames(values, w);
    ChecksIffTrace(values, vars);
    GeneratedAsSource(Source(n), ConstantNames(n), Circuit(n), values, w);
    TraceByPlace(values, vars, w);
  }

  lemma TableLength(n: nat)
    ensures |FullTable(n)| == 2 * n + 3
  {}

  lemma {:induction false} TraceByPlace(values: seq<Fp>, vars: map<Symbol, Fp>, w: seq<Fp>)
    requires |w| == 2 * |values| + 3 && AllNamed(|values|, vars)
    requires forall s :: s in vars ==> vars[s] == if s == HashResult then w[2 * |values| + 2] else w[Place(s)]
    ensures TraceUpTo(values, vars, w[0], w[1], |values|)
       <==> forall i: nat :: i < |values| ==> RoundComputed(values, w, i)
  {
    hide SquareAt, Residue, Field.Add, Field.Mul;
    var n := |values|;
    assert forall i: nat :: i < n ==>
      Tmp(i) in vars && Left(i + 1) in vars && InTable(n, Tmp(i)) && InTable(n, Left(i + 1));
    if forall i: nat :: i < n ==> RoundComputed(values, w, i) {
      forall j: nat | j <= n ensures vars[Left(j)] == Halves(w[0], w[1], values, j).0 {
        if j > 0 { assert RoundComputed(values, w, j - 1); }
      }
      forall j: nat | j < n ensures vars[Tmp(j)] == SquareAt(w[0], w[1], values, j) {
        assert RoundComputed(values, w, j);
      }
    }
  }

  /** Complete: from any two inputs the machine computes an assignment that satisfies the generated
      constraints, with the reference hash as its public output. */
  lemma {:induction false} RunSatisfies(values: seq<Fp>, xl: Fp, xr: Fp)
    ensures var n, o := |values|, RunFrom(values, xl, xr);
            && o.Done? && |o.s.aux| == 2 * n + 3 && o.s.aux[2 * n + 2] == Hash(xl, xr, values)
            && C.Satisfied(Constraints(values), o.s.aux)
  {
    hide Source, SrcChecks, C.Satisfied, VarsOf, Works, Halves, SquareAt, Circuit, FullTable, Generated, Operations,
         Vm.Run, SrcRun, TraceUpTo, Vm.SetParams, ConstantNames;
    var n := |values|;
    var zeros: seq<Fp> := seq(2 * n + 3, _ => ZERO);
    var aux := zeros[0 := xl][1 := xr];
    TwoParams(zeros, xl, xr);
    TableLength(n);
    NamesLength(n);
    TableNames(values, aux);
    var start := InitialEnv(FullTable(n), aux);
    StartTrace(values, aux);
    var env := CircuitRuns(values, start, xl, xr);
    EndsWith(values, start, env);
    WorksAsSource(Source(n), ConstantNames(n), Circuit(n), values, aux);
    var end := Vm.Run(Operations(Source(n), ConstantNames(n), Circuit(n)), values, Vm.State(aux, [])).s.aux;
    TableNames(values, end);
    TraceInputs(values, env.vars, xl, xr);
    ChecksIffTrace(values, env.vars);
  }

  lemma {:induction false} NamesLength(n: nat)
    ensures |ConstantNames(n)| == n
  {}

  lemma {:induction false} TwoParams(zeros: seq<Fp>, xl: Fp, xr: Fp)
    requires |zeros| >= 2
    ensures Vm.SetParams(zeros, [(0, xl), (1, xr)]) == Some(zeros[0 := xl][1 := xr])
  {
    var params: seq<(nat, Fp)> := [(0, xl), (1, xr)];
    var rest: seq<(nat, Fp)> := [(1, xr)];
    var none: seq<(nat, Fp)> := [];
    assert params[1..] == rest && rest[1..] == none;
    assert Vm.SetParams(zeros[0 := xl][1 := xr], none) == Some(zeros[0 := xl][1 := xr]);
    assert Vm.SetParams(zeros[0 := xl], rest) == Some(zeros[0 := xl][1 := xr]);
  }

  lemma {:induction false} StartTrace(values: seq<Fp>, aux: seq<Fp>)
    requires |aux| == |FullTable(|values|)|
    ensures |aux| > 1 && TraceUpTo(values, VarsOf(FullTable(|values|), aux), aux[0], aux[1], 0)
  {
    hide VarsOf, FullTable;
    TableNames(values, aux);
  }

  lemma {:induction false} EndsWith(values: seq<Fp>, start: Env<Symbol>, env: Env<Symbol>)
    requires At(TheRun(values, start), |Source(|values|)|, env)
    ensures SrcRun(FullTable(|values|), ConstantNames(|values|), values, start, Source(|values|), |Source(|values|)|)
         == SrcDone(env)
  {}

  lemma {:induction false} TraceInputs(values: seq<Fp>, vars: map<Symbol, Fp>, xl: Fp, xr: Fp)
    requires TraceUpTo(values, vars, xl, xr, |values|)
    ensures AllNamed(|values|, vars) && vars[Left(0)] == xl && vars[Right] == xr
  {
    assert Halves(xl, xr, values, 0).0 == xl;
  }
}
