/** The Jubjub addition circuit: what it computes, what its constraints say, and when they determine
    the sum. */
module JubjubCorrect {
  import opened Wrappers
  import opened Field
  import opened Assembly
  import opened Compiler
  import opened Simulation
  import opened CompilerCorrect
  import opened SourceSteps
  import opened JubjubCircuit
  import Ed = Edwards
  import C = Circuit
  import Vm

  /* ----- the run ----- */

  /** The lines of the contract are where they should be, and the constants have their values. */
  ghost predicate Runs(r: Run<Symbol>, d: Fp) {
    r.lines == Source() && r.constants == CONSTANTS && |r.values| == 3 && r.values[1] == d && r.values[2] == ONE
  }

  /** Every variable has a value, and no local was declared twice. */
  ghost predicate Ready(env: Env<Symbol>) {
    (forall s :: s in env.vars <==> IsVariable(s)) && |env.slots| == env.pushed
    && env.locals.Keys <= {Tmp, XDenom, YDenom}
  }

  lemma Declare(r: Run<Symbol>, d: Fp, k: nat, env: Env<Symbol>, s: Symbol) returns (after: Env<Symbol>)
    requires Runs(r, d) && k < LENGTH && SourceLine(k) == OpLine(Local, [s]) && At(r, k, env)
    requires Ready(env) && s !in env.locals && s in {Tmp, XDenom, YDenom}
    ensures At(r, k + 1, after) && Ready(after) && after.vars == env.vars && after.locals == env.locals[s := ZERO]
  {
    hide Source, SourceLine;
    SourceAt(k);
    after := DeclareLocal(env, s);
    LocalArg(r, k, env, s);
  }

  predicate IsOpLine(k: nat) {
    5 <= k <= 10 || k == 18 || k == 19 || k == 21 || k == 22 || 24 <= k <= 26 || 32 <= k <= 37 || 45 <= k <= 51
      || k == 60 || k == 62
  }

  lemma OpLines(k: nat)
    ensures SourceLine(k).command.Op? <==> IsOpLine(k)
  {}

  /** The lines m to n hold no operation. */
  lemma Idle(r: Run<Symbol>, d: Fp, m: nat, n: nat, env: Env<Symbol>)
    requires Runs(r, d) && m <= n <= LENGTH && At(r, m, env)
    requires forall k: nat :: m <= k < n ==> !IsOpLine(k)
    ensures At(r, n, env)
  {
    hide Source, SourceLine, At, IsOpLine;
    SourceAt(0);
    forall k: nat | m <= k < n ensures !r.lines[k].command.Op? {
      SourceAt(k);
      OpLines(k);
    }
    SkipLines(r, m, n, env);
  }

  /** The name stands for this value. */
  ghost predicate Has(env: Env<Symbol>, s: Symbol, v: Fp) { Known(env, s) && Value(env, s) == v }

  /** The environment with a new value for a name. */
  ghost predicate Changed(env: Env<Symbol>, s: Symbol, v: Fp, after: Env<Symbol>) {
    if s in env.vars then after.vars == env.vars[s := v] && after.locals == env.locals
    else after.vars == env.vars && after.locals == env.locals[s := v]
  }

  /** A line with an operation on two values. */
  lemma Do(r: Run<Symbol>, d: Fp, k: nat, env: Env<Symbol>, c: OpCommand, a: Symbol, b: Symbol, u: Fp, v: Fp)
    returns (after: Env<Symbol>)
    requires Runs(r, d) && k < LENGTH && SourceLine(k) == OpLine(c, [a, b]) && At(r, k, env) && Ready(env)
    requires c.Set? || c.Mul? || c.Add? || c.Sub?
    requires Has(env, a, u) && Has(env, b, v)
    ensures At(r, k + 1, after) && Ready(after) && Changed(env, a, Combined(c, u, v), after)
  {
    hide Source, SourceLine, At, Combined;
    SourceAt(k);
    after := Assign(env, a, Combined(c, u, v));
    TwoArgs(r, k, env, c, a, b);
  }

  lemma DoLoad(r: Run<Symbol>, d: Fp, k: nat, env: Env<Symbol>, a: Symbol, b: Symbol) returns (after: Env<Symbol>)
    requires Runs(r, d) && k < LENGTH && SourceLine(k) == OpLine(Load, [a, b]) && At(r, k, env) && Ready(env)
    requires Known(env, a) && IsNumber(b)
    ensures At(r, k + 1, after) && Ready(after) && Changed(env, a, if b == D then d else ONE, after)
  {
    hide Source, SourceLine, At, FindConstant;
    SourceAt(k);
    ConstantAt(b);
    after := Assign(env, a, if b == D then d else ONE);
    LoadArgs(r, k, env, a, b);
  }

  lemma ReadyHas(env: Env<Symbol>)
    requires Ready(env)
    ensures X1 in env.vars && Y1 in env.vars && X2 in env.vars && Y2 in env.vars && U in env.vars && A in env.vars
    ensures B in env.vars
    ensures Symbol.C in env.vars && X in env.vars && Y in env.vars && X3 in env.vars && Y3 in env.vars
    ensures Tmp !in env.vars && XDenom !in env.vars && YDenom !in env.vars
  {}

  lemma LinesOfU()
    ensures SourceLine(5) == OpLine(Set, [U, X1])
    ensures SourceLine(6) == OpLine(OpCommand.Add, [U, Y1])
    ensures SourceLine(7) == OpLine(Local, [Tmp])
    ensures SourceLine(8) == OpLine(Set, [Tmp, X2])
    ensures SourceLine(9) == OpLine(OpCommand.Add, [Tmp, Y2])
    ensures SourceLine(10) == OpLine(OpCommand.Mul, [U, Tmp])
  {}

  lemma RunU(r: Run<Symbol>, d: Fp, env: Env<Symbol>) returns (after: Env<Symbol>)
    requires Runs(r, d) && At(r, 0, env) && Ready(env) && env.locals == map[]
    ensures At(r, 17, after) && Ready(after) && after.locals.Keys == {Tmp}
    ensures X1 in env.vars && Y1 in env.vars && X2 in env.vars && Y2 in env.vars
    ensures var v := env.vars;
            after.vars == v[U := Field.Mul(Field.Add(v[X1], v[Y1]), Field.Add(v[X2], v[Y2]))]
  {
    hide At, Ready, Runs, Residue, Field.Add, Field.Mul, Source, SourceLine, IsVariable;
    LinesOfU();
    ReadyHas(env);
    var x1, y1, x2, y2 := env.vars[X1], env.vars[Y1], env.vars[X2], env.vars[Y2];
    Idle(r, d, 0, 5, env);
    after := Do(r, d, 5, env, Set, U, X1, env.vars[U], x1);
    after := Do(r, d, 6, after, OpCommand.Add, U, Y1, x1, y1);
    after := Declare(r, d, 7, after, Tmp);
    after := Do(r, d, 8, after, Set, Tmp, X2, ZERO, x2);
    after := Do(r, d, 9, after, OpCommand.Add, Tmp, Y2, x2, y2);
    after := Do(r, d, 10, after, OpCommand.Mul, U, Tmp, Field.Add(x1, y1), Field.Add(x2, y2));
    Idle(r, d, 11, 17, after);
  }

  lemma LinesOfProducts()
    ensures SourceLine(18) == OpLine(Set, [A, Y2])
    ensures SourceLine(19) == OpLine(OpCommand.Mul, [A, X1])
    ensures SourceLine(21) == OpLine(Set, [B, X2])
    ensures SourceLine(22) == OpLine(OpCommand.Mul, [B, Y1])
    ensures SourceLine(24) == OpLine(Load, [Symbol.C, D])
    ensures SourceLine(25) == OpLine(OpCommand.Mul, [Symbol.C, A])
    ensures SourceLine(26) == OpLine(OpCommand.Mul, [Symbol.C, B])
  {}

  lemma RunProducts(r: Run<Symbol>, d: Fp, env: Env<Symbol>) returns (after: Env<Symbol>)
    requires Runs(r, d) && At(r, 17, env) && Ready(env)
    ensures At(r, 32, after) && Ready(after) && after.locals == env.locals
    ensures X1 in env.vars && Y1 in env.vars && X2 in env.vars && Y2 in env.vars
    ensures var v := env.vars;
            var a, b := Field.Mul(v[Y2], v[X1]), Field.Mul(v[X2], v[Y1]);
            after.vars == v[A := a][B := b][Symbol.C := Field.Mul(Field.Mul(d, a), b)]
  {
    hide At, Ready, Runs, Residue, Field.Add, Field.Mul, Source, SourceLine, IsVariable;
    LinesOfProducts();
    ReadyHas(env);
    var x1, y1, x2, y2 := env.vars[X1], env.vars[Y1], env.vars[X2], env.vars[Y2];
    var a, b := Field.Mul(y2, x1), Field.Mul(x2, y1);
    Idle(r, d, 17, 18, env);
    after := Do(r, d, 18, env, Set, A, Y2, env.vars[A], y2);
    after := Do(r, d, 19, after, OpCommand.Mul, A, X1, y2, x1);
    Idle(r, d, 20, 21, after);
    after := Do(r, d, 21, after, Set, B, X2, env.vars[B], x2);
    after := Do(r, d, 22, after, OpCommand.Mul, B, Y1, x2, y1);
    Idle(r, d, 23, 24, after);
    after := DoLoad(r, d, 24, after, Symbol.C, D);
    after := Do(r, d, 25, after, OpCommand.Mul, Symbol.C, A, d, a);
    after := Do(r, d, 26, after, OpCommand.Mul, Symbol.C, B, Field.Mul(d, a), b);
    Idle(r, d, 27, 32, after);
    assert after.vars == env.vars[A := a][B := b][Symbol.C := Field.Mul(Field.Mul(d, a), b)];
  }

  /** The division at the end of each coordinate. */
  lemma DoDivide(r: Run<Symbol>, d: Fp, k: nat, env: Env<Symbol>, a: Symbol, b: Symbol, u: Fp, v: Fp)
    returns (after: Env<Symbol>)
    requires Runs(r, d) && k < LENGTH && SourceLine(k) == OpLine(Divide, [a, b]) && At(r, k, env) && Ready(env)
    requires Has(env, a, u) && Has(env, b, v)
    ensures v != ZERO ==> At(r, k + 1, after) && Ready(after) && Changed(env, a, Div(u, v), after)
    ensures v == ZERO ==> Stopped(r, after) && after == env
  {
    hide Source, SourceLine, SrcRun, Div;
    SourceAt(k);
    after := if v == ZERO then env else Assign(env, a, Div(u, v));
    DivideArgs(r, k, env, a, b);
    if v == ZERO { FailureStays(r, k + 1, |r.lines|, Vm.DivisionByZero, env); }
  }

  /** The run has ended with a division by zero. */
  ghost predicate Stopped(r: Run<Symbol>, env: Env<Symbol>) {
    SrcRun(r.alloc, r.constants, r.values, r.start, r.lines, |r.lines|) == SrcFailed(Vm.DivisionByZero, env)
  }

  lemma LinesOfX()
    ensures SourceLine(32) == OpLine(Set, [X, A])
    ensures SourceLine(33) == OpLine(OpCommand.Add, [X, B])
    ensures SourceLine(34) == OpLine(Local, [XDenom])
    ensures SourceLine(35) == OpLine(Load, [XDenom, OneConst])
    ensures SourceLine(36) == OpLine(OpCommand.Add, [XDenom, Symbol.C])
    ensures SourceLine(37) == OpLine(Divide, [X, XDenom])
  {}

  lemma RunX(r: Run<Symbol>, d: Fp, env: Env<Symbol>, a: Fp, b: Fp, c: Fp) returns (after: Env<Symbol>)
    requires Runs(r, d) && At(r, 32, env) && Ready(env) && env.locals.Keys == {Tmp}
    requires Has(env, A, a) && Has(env, B, b) && Has(env, Symbol.C, c)
    ensures match Ed.Quotient(Field.Add(a, b), Field.Add(ONE, c))
            case Some(x) => At(r, 45, after) && Ready(after) && after.vars == env.vars[X := x]
              && after.locals.Keys == {Tmp, XDenom}
            case None => Stopped(r, after)
  {
    hide At, Ready, Runs, Residue, Field.Add, Field.Mul, Source, SourceLine, IsVariable, Stopped, Div;
    LinesOfX();
    ReadyHas(env);
    after := Do(r, d, 32, env, Set, X, A, env.vars[X], a);
    after := Do(r, d, 33, after, OpCommand.Add, X, B, a, b);
    after := Declare(r, d, 34, after, XDenom);
    after := DoLoad(r, d, 35, after, XDenom, OneConst);
    after := Do(r, d, 36, after, OpCommand.Add, XDenom, Symbol.C, ONE, c);
    after := DoDivide(r, d, 37, after, X, XDenom, Field.Add(a, b), Field.Add(ONE, c));
    if Field.Add(ONE, c) != ZERO {
      Idle(r, d, 38, 45, after);
    }
  }

  lemma LinesOfY()
    ensures SourceLine(45) == OpLine(Set, [Y, U])
    ensures SourceLine(46) == OpLine(OpCommand.Sub, [Y, A])
    ensures SourceLine(47) == OpLine(OpCommand.Sub, [Y, B])
    ensures SourceLine(48) == OpLine(Local, [YDenom])
    ensures SourceLine(49) == OpLine(Load, [YDenom, OneConst])
    ensures SourceLine(50) == OpLine(OpCommand.Sub, [YDenom, Symbol.C])
    ensures SourceLine(51) == OpLine(Divide, [Y, YDenom])
  {}

  lemma RunY(r: Run<Symbol>, d: Fp, env: Env<Symbol>, u: Fp, a: Fp, b: Fp, c: Fp) returns (after: Env<Symbol>)
    requires Runs(r, d) && At(r, 45, env) && Ready(env) && env.locals.Keys == {Tmp, XDenom}
    requires Has(env, U, u) && Has(env, A, a) && Has(env, B, b) && Has(env, Symbol.C, c)
    ensures match Ed.Quotient(Field.Sub(Field.Sub(u, a), b), Field.Sub(ONE, c))
            case Some(y) => At(r, 60, after) && Ready(after) && after.vars == env.vars[Y := y]
            case None => Stopped(r, after)
  {
    hide At, Ready, Runs, Residue, Field.Add, Field.Sub, Field.Mul, Source, SourceLine, IsVariable, Stopped, Div;
    LinesOfY();
    ReadyHas(env);
    after := Do(r, d, 45, env, Set, Y, U, env.vars[Y], u);
    after := Do(r, d, 46, after, OpCommand.Sub, Y, A, u, a);
    after := Do(r, d, 47, after, OpCommand.Sub, Y, B, Field.Sub(u, a), b);
    after := Declare(r, d, 48, after, YDenom);
    after := DoLoad(r, d, 49, after, YDenom, OneConst);
    after := Do(r, d, 50, after, OpCommand.Sub, YDenom, Symbol.C, ONE, c);
    after := DoDivide(r, d, 51, after, Y, YDenom, Field.Sub(Field.Sub(u, a), b), Field.Sub(ONE, c));
    if Field.Sub(ONE, c) != ZERO {
      Idle(r, d, 52, 60, after);
    }
  }

  lemma LastLines()
    ensures SourceLine(60) == OpLine(Set, [X3, X])
    ensures SourceLine(62) == OpLine(Set, [Y3, Y])
  {}

  lemma RunOutputs(r: Run<Symbol>, d: Fp, env: Env<Symbol>) returns (after: Env<Symbol>)
    requires Runs(r, d) && At(r, 60, env) && Ready(env)
    ensures At(r, LENGTH, after) && X in env.vars && Y in env.vars
    ensures after.vars == env.vars[X3 := env.vars[X]][Y3 := env.vars[Y]]
  {
    hide At, Ready, Runs, Residue, Source, SourceLine, IsVariable;
    LastLines();
    ReadyHas(env);
    after := Do(r, d, 60, env, Set, X3, X, env.vars[X3], env.vars[X]);
    Idle(r, d, 61, 62, after);
    after := Do(r, d, 62, after, Set, Y3, Y, env.vars[Y3], env.vars[Y]);
    Idle(r, d, 63, LENGTH, after);
  }

  /** The values of all variables when the sum of p and q is s. */
  function Trace(d: Fp, p: Ed.Point, q: Ed.Point, s: Ed.Point): map<Symbol, Fp> {
    var a, b := Field.Mul(q.1, p.0), Field.Mul(q.0, p.1);
    map[X1 := p.0, Y1 := p.1, X2 := q.0, Y2 := q.1, U := Field.Mul(Field.Add(p.0, p.1), Field.Add(q.0, q.1)),
        A := a, B := b, Symbol.C := Field.Mul(Field.Mul(d, a), b), X := s.0, Y := s.1, X3 := s.0, Y3 := s.1]
  }

  /** The run computes the factored sum, or divides by zero where there is none. */
  lemma RunIsFactoredAdd(r: Run<Symbol>, d: Fp, p: Ed.Point, q: Ed.Point) returns (env: Env<Symbol>)
    requires Runs(r, d) && At(r, 0, r.start) && Ready(r.start) && r.start.locals == map[]
    requires Has(r.start, X1, p.0) && Has(r.start, Y1, p.1) && Has(r.start, X2, q.0) && Has(r.start, Y2, q.1)
    ensures match Ed.FactoredAdd(d, p, q)
            case Some(s) => At(r, LENGTH, env) && env.vars == Trace(d, p, q, s)
            case None => Stopped(r, env)
  {
    hide At, Runs, Ready, IsVariable, Residue, Field.Add, Field.Sub, Field.Mul, Source, SourceLine, Stopped,
         Ed.Quotient, Trace;
    var u, a, b := Field.Mul(Field.Add(p.0, p.1), Field.Add(q.0, q.1)), Field.Mul(q.1, p.0), Field.Mul(q.0, p.1);
    var c := Field.Mul(Field.Mul(d, a), b);
    ReadyHas(r.start);
    env := RunU(r, d, r.start);
    var e1 := env;
    env := RunProducts(r, d, env);
    env := RunX(r, d, env, a, b, c);
    var x := Ed.Quotient(Field.Add(a, b), Field.Add(ONE, c));
    if x.Some? {
      env := RunY(r, d, env, u, a, b, c);
      var y := Ed.Quotient(Field.Sub(Field.Sub(u, a), b), Field.Sub(ONE, c));
      if y.Some? {
        env := RunOutputs(r, d, env);
        FinalVars(d, p, q, (x.value, y.value), r.start);
      }
    }
  }

  lemma FinalVars(d: Fp, p: Ed.Point, q: Ed.Point, s: Ed.Point, start: Env<Symbol>)
    requires Ready(start) && Has(start, X1, p.0) && Has(start, Y1, p.1) && Has(start, X2, q.0) && Has(start, Y2, q.1)
    ensures var a, b := Field.Mul(q.1, p.0), Field.Mul(q.0, p.1);
            start.vars[U := Field.Mul(Field.Add(p.0, p.1), Field.Add(q.0, q.1))]
                      [A := a][B := b][Symbol.C := Field.Mul(Field.Mul(d, a), b)]
                      [X := s.0][Y := s.1][X3 := s.0][Y3 := s.1] == Trace(d, p, q, s)
  {
    hide Residue, Field.Add, Field.Mul;
  }

  /* ----- the constraints ----- */

  ghost predicate Named(v: Values<Symbol>, d: Fp) {
    v.constants == CONSTANTS && |v.values| == 3 && v.values[1] == d && v.values[2] == ONE
    && forall s :: s in v.vars <==> IsVariable(s)
  }

  predicate IsCheckLine(k: nat) { 11 <= k <= 16 || 27 <= k <= 30 || 38 <= k <= 43 || 52 <= k <= 58 || 63 <= k < LENGTH }

  lemma CheckLines(k: nat)
    requires k < LENGTH
    ensures SourceLine(k).command.Constrain? <==> IsCheckLine(k)
  {}

  /** No constraint between lines m and n. */
  lemma Unchecked(m: nat, n: nat, v: Values<Symbol>, s: C.Sides)
    requires m <= n <= LENGTH && |Source()| == LENGTH
    requires forall k: nat :: m <= k < n ==> !IsCheckLine(k)
    ensures Checks(Source(), m, v, s) <==> Checks(Source(), n, v, s)
  {
    hide Source, SourceLine, Checks, IsCheckLine;
    forall k: nat | m <= k < n ensures !Source()[k].command.Constrain? {
      SourceAt(k);
      CheckLines(k);
    }
    CheckNoneUpTo(Source(), m, n, v, s);
  }

  /** One more term: plus or minus a variable. */
  lemma Term(k: nat, v: Values<Symbol>, d: Fp, s: C.Sides, side: C.Side, x: Symbol, minus: bool)
    requires k < LENGTH && |Source()| == LENGTH && SourceLine(k) == (if minus then Minus(side, x) else Plus(side, x))
    requires Named(v, d) && IsVariable(x) && s.coeff == ONE
    ensures Checks(Source(), k, v, s)
       <==> Checks(Source(), k + 1, v, C.AddTo(s, side, if minus then Neg(v.vars[x]) else v.vars[x]))
  {
    hide Source, SourceLine, Checks, IsVariable, C.AddTo, Neg;
    SourceAt(k);
    CheckPlain(Source(), k, v, s, x);
  }

  lemma OneTerm(k: nat, v: Values<Symbol>, s: C.Sides, side: C.Side)
    requires k < LENGTH && |Source()| == LENGTH && SourceLine(k) == LcLine(AddOne(side), [])
    ensures Checks(Source(), k, v, s) <==> Checks(Source(), k + 1, v, C.AddTo(s, side, ONE))
  {
    hide Source, SourceLine, Checks, C.AddTo;
    SourceAt(k);
    CheckOne(Source(), k, v, s);
  }

  lemma Enforced(k: nat, v: Values<Symbol>, s: C.Sides)
    requires k < LENGTH && |Source()| == LENGTH && SourceLine(k) == LcLine(ConstraintCommand.Enforce, [])
    ensures Checks(Source(), k, v, s) <==> Field.Mul(s.a, s.b) == s.c && Checks(Source(), k + 1, v, C.FRESH_SIDES)
  {
    hide Source, SourceLine, Checks;
    SourceAt(k);
    CheckEnforce(Source(), k, v, s);
  }

  lemma ConstraintU(v: Values<Symbol>, d: Fp)
    requires Named(v, d) && |Source()| == LENGTH
    ensures IsVariable(X1) && IsVariable(Y1) && IsVariable(X2) && IsVariable(Y2) && IsVariable(U)
    ensures Checks(Source(), 0, v, C.FRESH_SIDES)
       <==> Field.Mul(Field.Add(v.vars[X1], v.vars[Y1]), Field.Add(v.vars[X2], v.vars[Y2])) == v.vars[U]
            && Checks(Source(), 17, v, C.FRESH_SIDES)
  {
    hide Source, Checks, Residue, Field.Add, Field.Mul;
    var x1, y1, x2, y2, u := v.vars[X1], v.vars[Y1], v.vars[X2], v.vars[Y2], v.vars[U];
    var a, b := Field.Add(x1, y1), Field.Add(x2, y2);
    Units(x1); Units(x2); Units(u);
    Unchecked(0, 11, v, C.FRESH_SIDES);
    Term(11, v, d, C.FRESH_SIDES, C.Lc0, X1, false);
    Term(12, v, d, C.Sides(x1, ZERO, ZERO, ONE), C.Lc0, Y1, false);
    Term(13, v, d, C.Sides(a, ZERO, ZERO, ONE), C.Lc1, X2, false);
    Term(14, v, d, C.Sides(a, x2, ZERO, ONE), C.Lc1, Y2, false);
    Term(15, v, d, C.Sides(a, b, ZERO, ONE), C.Lc2, U, false);
    Enforced(16, v, C.Sides(a, b, u, ONE));
  }

  lemma CoeffTerm(v: Values<Symbol>, d: Fp)
    requires Named(v, d) && |Source()| == LENGTH
    ensures IsVariable(A)
    ensures Checks(Source(), 27, v, C.FRESH_SIDES)
       <==> Checks(Source(), 28, v, C.Sides(Field.Mul(d, v.vars[A]), ZERO, ZERO, ONE))
  {
    hide Source, Checks, Residue, Field.Add, Field.Mul, FindConstant;
    SourceAt(27);
    ConstantAt(D);
    Units(Field.Mul(d, v.vars[A]));
    CheckCoeff(Source(), 27, v, C.FRESH_SIDES, D, A);
  }

  lemma ConstraintC(v: Values<Symbol>, d: Fp)
    requires Named(v, d) && |Source()| == LENGTH
    ensures IsVariable(A) && IsVariable(B) && IsVariable(Symbol.C)
    ensures Checks(Source(), 17, v, C.FRESH_SIDES)
       <==> Field.Mul(Field.Mul(d, v.vars[A]), v.vars[B]) == v.vars[Symbol.C] && Checks(Source(), 31, v, C.FRESH_SIDES)
  {
    hide Source, Checks, Residue, Field.Add, Field.Mul;
    var da, b, c := Field.Mul(d, v.vars[A]), v.vars[B], v.vars[Symbol.C];
    Units(b); Units(c);
    Unchecked(17, 27, v, C.FRESH_SIDES);
    CoeffTerm(v, d);
    Term(28, v, d, C.Sides(da, ZERO, ZERO, ONE), C.Lc1, B, false);
    Term(29, v, d, C.Sides(da, b, ZERO, ONE), C.Lc2, Symbol.C, false);
    Enforced(30, v, C.Sides(da, b, c, ONE));
  }

  lemma ConstraintX(v: Values<Symbol>, d: Fp)
    requires Named(v, d) && |Source()| == LENGTH
    ensures IsVariable(A) && IsVariable(B) && IsVariable(Symbol.C) && IsVariable(X)
    ensures Checks(Source(), 31, v, C.FRESH_SIDES)
       <==> Field.Mul(Field.Add(ONE, v.vars[Symbol.C]), v.vars[X]) == Field.Add(v.vars[A], v.vars[B])
            && Checks(Source(), 44, v, C.FRESH_SIDES)
  {
    hide Source, Checks, Residue, Field.Add, Field.Mul;
    var a, b, c, x := v.vars[A], v.vars[B], v.vars[Symbol.C], v.vars[X];
    var e := Field.Add(ONE, c);
    Units(ONE); Units(x); Units(a);
    Unchecked(31, 38, v, C.FRESH_SIDES);
    OneTerm(38, v, C.FRESH_SIDES, C.Lc0);
    Term(39, v, d, C.Sides(ONE, ZERO, ZERO, ONE), C.Lc0, Symbol.C, false);
    Term(40, v, d, C.Sides(e, ZERO, ZERO, ONE), C.Lc1, X, false);
    Term(41, v, d, C.Sides(e, x, ZERO, ONE), C.Lc2, A, false);
    Term(42, v, d, C.Sides(e, x, a, ONE), C.Lc2, B, false);
    Enforced(43, v, C.Sides(e, x, Field.Add(a, b), ONE));
  }

  lemma ConstraintY(v: Values<Symbol>, d: Fp)
    requires Named(v, d) && |Source()| == LENGTH
    ensures IsVariable(A) && IsVariable(B) && IsVariable(Symbol.C) && IsVariable(Y) && IsVariable(U)
    ensures Checks(Source(), 44, v, C.FRESH_SIDES)
       <==> Field.Sub(Field.Sub(v.vars[U], v.vars[A]), v.vars[B])
            == Field.Mul(Field.Sub(ONE, v.vars[Symbol.C]), v.vars[Y])
            && Checks(Source(), 59, v, C.FRESH_SIDES)
  {
    hide Source, Checks, Residue, Field.Add, Field.Mul, Neg, Field.Sub;
    var u, a, b, c, y := v.vars[U], v.vars[A], v.vars[B], v.vars[Symbol.C], v.vars[Y];
    var f := Field.Sub(ONE, c);
    Units(ONE); Units(y); Units(u);
    SubIsAddNeg(ONE, c); SubIsAddNeg(u, a); SubIsAddNeg(Field.Sub(u, a), b);
    Unchecked(44, 52, v, C.FRESH_SIDES);
    OneTerm(52, v, C.FRESH_SIDES, C.Lc0);
    Term(53, v, d, C.Sides(ONE, ZERO, ZERO, ONE), C.Lc0, Symbol.C, true);
    Term(54, v, d, C.Sides(f, ZERO, ZERO, ONE), C.Lc1, Y, false);
    Term(55, v, d, C.Sides(f, y, ZERO, ONE), C.Lc2, U, false);
    Term(56, v, d, C.Sides(f, y, u, ONE), C.Lc2, A, true);
    Term(57, v, d, C.Sides(f, y, Field.Sub(u, a), ONE), C.Lc2, B, true);
    Enforced(58, v, C.Sides(f, y, Field.Sub(Field.Sub(u, a), b), ONE));
  }

  lemma ConstraintOutputs(v: Values<Symbol>, d: Fp)
    requires Named(v, d) && |Source()| == LENGTH
    ensures IsVariable(X) && IsVariable(Y) && IsVariable(X3) && IsVariable(Y3)
    ensures Checks(Source(), 59, v, C.FRESH_SIDES) <==> v.vars[X3] == v.vars[X] && v.vars[Y3] == v.vars[Y]
  {
    hide Source, Residue, Field.Add, Field.Mul;
    var x, y, x3, y3 := v.vars[X], v.vars[Y], v.vars[X3], v.vars[Y3];
    Units(ONE); Units(x); Units(y); Units(x3); Units(y3);
    Unchecked(59, 63, v, C.FRESH_SIDES);
    Term(63, v, d, C.FRESH_SIDES, C.Lc0, X3, false);
    OneTerm(64, v, C.Sides(x3, ZERO, ZERO, ONE), C.Lc1);
    Term(65, v, d, C.Sides(x3, ONE, ZERO, ONE), C.Lc2, X, false);
    Enforced(66, v, C.Sides(x3, ONE, x, ONE));
    Term(67, v, d, C.FRESH_SIDES, C.Lc0, Y3, false);
    OneTerm(68, v, C.Sides(y3, ZERO, ZERO, ONE), C.Lc1);
    Term(69, v, d, C.Sides(y3, ONE, ZERO, ONE), C.Lc2, Y, false);
    Enforced(70, v, C.Sides(y3, ONE, y, ONE));
  }

  /** What all constraints together say of the twelve variables. */
  predicate Equations(d: Fp, w: seq<Fp>)
    requires |w| == VARIABLES
  {
    && Field.Mul(Field.Add(w[0], w[1]), Field.Add(w[2], w[3])) == w[4]
    && Field.Mul(Field.Mul(d, w[5]), w[6]) == w[7]
    && Field.Mul(Field.Add(ONE, w[7]), w[8]) == Field.Add(w[5], w[6])
    && Field.Mul(Field.Sub(ONE, w[7]), w[9]) == Field.Sub(Field.Sub(w[4], w[5]), w[6])
    && w[10] == w[8] && w[11] == w[9]
  }

  /** The variables by name and by place. */
  ghost predicate SameValues(vars: map<Symbol, Fp>, w: seq<Fp>) {
    |w| == VARIABLES && (forall s :: s in vars <==> IsVariable(s)) && forall s :: s in vars ==> vars[s] == w[Place(s)]
  }

  lemma {:induction false} ChecksAreEquations(va: Fp, d: Fp, vars: map<Symbol, Fp>, w: seq<Fp>)
    requires SameValues(vars, w)
    ensures SrcChecks(Source(), 0, CONSTANTS, [va, d, ONE], vars, C.FRESH_SIDES) <==> Equations(d, w)
  {
    hide Source, SrcChecks, Residue, Field.Add, Field.Mul, Field.Sub;
    var v := Values(CONSTANTS, [va, d, ONE], vars);
    SourceAt(0);
    ConstraintU(v, d);
    ConstraintC(v, d);
    ConstraintX(v, d);
    ConstraintY(v, d);
    ConstraintOutputs(v, d);
  }

  /* ----- the compiled contract ----- */

  /** The compiled contract. */
  function Circuit(): (c: Contract<Symbol>)
    ensures Works(Source(), CONSTANTS, c) && c.alloc == Table(VARIABLES)
  {
    CircuitWorks();
    Compiled(Source(), CONSTANTS).value
  }

  /** Its generated constraints, and its run from two points; the constant a is not used. */
  ghost function Constraints(va: Fp, d: Fp): seq<C.Constraint> {
    Generated(Source(), CONSTANTS, Circuit(), [va, d, ONE])
  }

  ghost function RunFrom(va: Fp, d: Fp, p: Ed.Point, q: Ed.Point): Vm.Outcome {
    Vm.Initialized(VARIABLES, Operations(Source(), CONSTANTS, Circuit()), [va, d, ONE], Params(p, q))
  }

  lemma {:induction false} TableValues(w: seq<Fp>)
    requires |w| == VARIABLES
    ensures SameValues(VarsOf(Table(VARIABLES), w), w)
  {
    hide Source, AllocTable, VarsOf, WellFormedTable, FindVariable, Table, Entry;
    SourceAt(0);
    TableAt(LENGTH);
    TableIsWellFormed(Source(), LENGTH);
    forall s
      ensures s in VarsOf(Table(VARIABLES), w) <==> IsVariable(s)
      ensures s in VarsOf(Table(VARIABLES), w) ==> VarsOf(Table(VARIABLES), w)[s] == w[Place(s)]
    {
      FindInTable(VARIABLES, s);
      TableSize(s);
      VarsOfAt(Table(VARIABLES), w, s);
    }
  }

  lemma TableSize(s: Symbol)
    ensures |Table(VARIABLES)| == VARIABLES && Place(s) < VARIABLES && Entry(Place(s)).index == Place(s)
  {}

  /** The generated constraints are these equations, whatever the unused constant a is. */
  lemma {:induction false} SatisfiedIffEquations(va: Fp, d: Fp, w: seq<Fp>)
    requires |w| == VARIABLES
    ensures C.Satisfied(Constraints(va, d), w) <==> Equations(d, w)
  {
    hide Source, SrcChecks, C.Satisfied, Generated, Works, Circuit, VarsOf, Table, Equations, SameValues;
    TableSize(X1);
    TableValues(w);
    GeneratedAsSource(Source(), CONSTANTS, Circuit(), [va, d, ONE], w);
    ChecksAreEquations(va, d, VarsOf(Table(VARIABLES), w), w);
  }

  /** The parameters, in the order in which they are declared. */
  function Params(p: Ed.Point, q: Ed.Point): seq<(nat, Fp)> { [(0, p.0), (1, p.1), (2, q.0), (3, q.1)] }

  function StartValues(p: Ed.Point, q: Ed.Point): seq<Fp> {
    [p.0, p.1, q.0, q.1, ZERO, ZERO, ZERO, ZERO, ZERO, ZERO, ZERO, ZERO]
  }

  lemma ParamsSet(p: Ed.Point, q: Ed.Point)
    ensures Vm.SetParams(seq(VARIABLES, _ => ZERO), Params(p, q)) == Some(StartValues(p, q))
    ensures |StartValues(p, q)| == VARIABLES
  {
    var zeros: seq<Fp> := seq(VARIABLES, _ => ZERO);
    var a1 := zeros[0 := p.0];
    var a2 := a1[1 := p.1];
    var a3 := a2[2 := q.0];
    var a4 := a3[3 := q.1];
    assert a4 == StartValues(p, q);
    var s := Params(p, q);
    var none: seq<(nat, Fp)> := [];
    assert s[1..][1..][1..][1..] == none;
    assert Vm.SetParams(a4, none) == Some(a4);
    assert Vm.SetParams(a3, s[1..][1..][1..]) == Some(a4);
    assert Vm.SetParams(a2, s[1..][1..]) == Some(a4);
    assert Vm.SetParams(a1, s[1..]) == Some(a4);
  }

  /** From any two points the machine computes their sum, in variables that satisfy all constraints; it
      stops with a division by zero exactly where the sum does not exist. */
  lemma RunAddsPoints(va: Fp, d: Fp, p: Ed.Point, q: Ed.Point)
    ensures var o := RunFrom(va, d, p, q);
            match Ed.AddPoints(d, p, q)
            case Some(s) =>
              o.Done? && |o.s.aux| == VARIABLES && (o.s.aux[10], o.s.aux[11]) == s
              && C.Satisfied(Constraints(va, d), o.s.aux)
            case None => o.Failed? && o.e == Vm.DivisionByZero
  {
    hide Source, SrcChecks, C.Satisfied, Generated, Operations, Works, Circuit, VarsOf, Table, Vm.Run, SrcRun,
         Vm.SetParams, Ed.AddPoints, Ed.FactoredAdd, Residue, Field.Add, Field.Mul, Field.Sub, Trace, Equations,
         SameValues, StartValues, At, Has, Ready;
    TableSize(X1);
    ParamsSet(p, q);
    Ed.FactoredIsTextbook(d, p, q);
    var aux := StartValues(p, q);
    var values := [va, d, ONE];
    TableValues(aux);
    WorksAsSource(Source(), CONSTANTS, Circuit(), values, aux);
    var r := Run(Table(VARIABLES), CONSTANTS, values, InitialEnv(Table(VARIABLES), aux), Source());
    StartReady(r, aux, p, q);
    var env := RunIsFactoredAdd(r, d, p, q);
    SourceAt(0);
    match Ed.AddPoints(d, p, q) {
      case None =>
      case Some(s) =>
        EndsWith(r, env);
        var end := Vm.Run(Operations(Source(), CONSTANTS, Circuit()), values, Vm.State(aux, [])).s.aux;
        TableValues(end);
        TraceOutputs(d, p, q, s, end);
        SumEquations(d, p, q, s, end);
        ChecksAreEquations(va, d, env.vars, end);
    }
  }

  lemma EndsWith(r: Run<Symbol>, env: Env<Symbol>)
    requires At(r, LENGTH, env)
    ensures LENGTH <= |r.lines| && SrcRun(r.alloc, r.constants, r.values, r.start, r.lines, LENGTH) == SrcDone(env)
  {}

  lemma {:induction false} StartReady(r: Run<Symbol>, aux: seq<Fp>, p: Ed.Point, q: Ed.Point)
    requires aux == StartValues(p, q) && |aux| == VARIABLES && r.start == InitialEnv(Table(VARIABLES), aux)
    requires SameValues(VarsOf(Table(VARIABLES), aux), aux)
    ensures At(r, 0, r.start) && Ready(r.start) && r.start.locals == map[]
    ensures Has(r.start, X1, p.0) && Has(r.start, Y1, p.1) && Has(r.start, X2, q.0) && Has(r.start, Y2, q.1)
  {
    hide VarsOf, Table;
  }

  /** The trace, by place. */
  lemma {:induction false} TraceOutputs(d: Fp, p: Ed.Point, q: Ed.Point, s: Ed.Point, w: seq<Fp>)
    requires SameValues(Trace(d, p, q, s), w)
    ensures var a, b := Field.Mul(q.1, p.0), Field.Mul(q.0, p.1);
            w == [p.0, p.1, q.0, q.1, Field.Mul(Field.Add(p.0, p.1), Field.Add(q.0, q.1)), a, b,
                  Field.Mul(Field.Mul(d, a), b),
                  s.0, s.1, s.0, s.1]
  {
    hide Residue, Field.Add, Field.Mul, Trace, SameValues;
    TraceValues(d, p, q, s);
    ByPlace(Trace(d, p, q, s), w);
  }

  lemma TraceValues(d: Fp, p: Ed.Point, q: Ed.Point, s: Ed.Point)
    ensures var t, a, b := Trace(d, p, q, s), Field.Mul(q.1, p.0), Field.Mul(q.0, p.1);
            && t.Keys == {X1, Y1, X2, Y2, U, A, B, Symbol.C, X, Y, X3, Y3}
            && t[X1] == p.0 && t[Y1] == p.1 && t[X2] == q.0 && t[Y2] == q.1
            && t[U] == Field.Mul(Field.Add(p.0, p.1), Field.Add(q.0, q.1)) && t[A] == a && t[B] == b
            && t[Symbol.C] == Field.Mul(Field.Mul(d, a), b) && t[X] == s.0 && t[Y] == s.1 && t[X3] == s.0
            && t[Y3] == s.1
  {
    hide Residue, Field.Add, Field.Mul;
  }

  lemma {:induction false} ByPlace(t: map<Symbol, Fp>, w: seq<Fp>)
    requires SameValues(t, w) && t.Keys == {X1, Y1, X2, Y2, U, A, B, Symbol.C, X, Y, X3, Y3}
    ensures w == [t[X1], t[Y1], t[X2], t[Y2], t[U], t[A], t[B], t[Symbol.C], t[X], t[Y], t[X3], t[Y3]]
  {}

  lemma {:induction false} SumEquations(d: Fp, p: Ed.Point, q: Ed.Point, s: Ed.Point, w: seq<Fp>)
    requires Ed.FactoredAdd(d, p, q) == Some(s)
    requires var a, b := Field.Mul(q.1, p.0), Field.Mul(q.0, p.1);
             w == [p.0, p.1, q.0, q.1, Field.Mul(Field.Add(p.0, p.1), Field.Add(q.0, q.1)), a, b,
                   Field.Mul(Field.Mul(d, a), b),
                   s.0, s.1, s.0, s.1]
    ensures Equations(d, w)
  {
    hide Residue, Field.Add, Field.Mul, Field.Sub, Div;
    DivMul(Field.Add(w[5], w[6]), Field.Add(ONE, w[7]));
    DivMul(Field.Sub(Field.Sub(w[4], w[5]), w[6]), Field.Sub(ONE, w[7]));
    MulComm(s.0, Field.Add(ONE, w[7]));
    MulComm(s.1, Field.Sub(ONE, w[7]));
  }

  /* ----- when the constraints determine the sum ----- */

  lemma CancelFactor(e: Fp, x: Fp, y: Fp)
    requires e != ZERO
    ensures Field.Mul(e, x) == Field.Mul(e, y) <==> x == y
  {
    hide Residue, Field.Mul, Inv;
    MulAssoc(Inv(e), e, x);
    MulAssoc(Inv(e), e, y);
    MulComm(e, Inv(e));
    Units(x);
    Units(y);
  }

  /** Two values of one coordinate agree exactly when the numerators differ by the difference of the
      denominators. */
  lemma CoordinatesAgree(c: Fp, c0: Fp, n: Fp, n0: Fp, x: Fp, x0: Fp)
    requires Field.Mul(Field.Add(ONE, c), x) == n && Field.Mul(Field.Add(ONE, c0), x0) == n0
    requires Field.Add(ONE, c) != ZERO
    ensures x == x0 <==> n == Field.Add(n0, Field.Mul(Field.Sub(c, c0), x0))
  {
    hide Residue, Field.Add, Field.Mul, Field.Sub;
    CancelFactor(Field.Add(ONE, c), x, x0);
    SplitDenominator(c, c0);
    Distributes(x0, Field.Add(ONE, c0), Field.Sub(c, c0));
  }

  lemma SplitDenominator(c: Fp, c0: Fp)
    ensures Field.Add(ONE, c) == Field.Add(Field.Add(ONE, c0), Field.Sub(c, c0))
  {
    ResidueAdd(1 + c0, c - c0);
  }

  lemma SubIsPlusNeg(c: Fp, c0: Fp, u: Fp, n: Fp, n0: Fp, x: Fp)
    ensures Field.Sub(ONE, c) == Field.Add(ONE, Neg(c))
    ensures Field.Sub(u, n) == Field.Add(Field.Sub(u, n0), Field.Mul(Field.Sub(Neg(c), Neg(c0)), x))
       <==> n == Field.Add(n0, Field.Mul(Field.Sub(c, c0), x))
  {
    hide Residue, Field.Add, Field.Mul, Field.Sub, Neg;
    SubIsAddNeg(ONE, c);
    var m := Field.Mul(Field.Sub(c, c0), x);
    NegatedDifference(c, c0);
    NegMul(Field.Sub(c, c0), x);
    SubOfSum(u, n0, m);
    SubInjective(u, n, Field.Add(n0, m));
  }

  lemma NegatedDifference(c: Fp, c0: Fp)
    ensures Field.Sub(Neg(c), Neg(c0)) == Neg(Field.Sub(c, c0))
  {
    ResidueSub(0 - c, 0 - c0);
    ResidueNeg(c - c0);
    assert (0 - c) - (0 - c0) == -(c - c0);
  }

  lemma SubOfSum(u: Fp, n: Fp, m: Fp)
    ensures Field.Sub(u, Field.Add(n, m)) == Field.Add(Field.Sub(u, n), Neg(m))
  {
    hide Residue, Field.Add, Field.Sub, Neg;
    SubIsAddNeg(u, Field.Add(n, m));
    NegAdd(n, m);
    SubIsAddNeg(u, n);
    AddAssoc(u, Neg(n), Neg(m));
  }

  lemma SubInjective(u: Fp, a: Fp, b: Fp)
    ensures Field.Sub(u, a) == Field.Sub(u, b) <==> a == b
  {
    hide Residue, Field.Add, Field.Sub, Neg;
    if Field.Sub(u, a) == Field.Sub(u, b) {
      SubFromItself(u, a);
      SubFromItself(u, b);
    }
  }

  lemma SubFromItself(u: Fp, a: Fp)
    ensures Field.Sub(u, Field.Sub(u, a)) == a
  {
    ResidueSub(u, u - a);
    ResidueId(u);
    ResidueId(a);
    assert u - (u - a) == a;
  }

  /** The sum of the two products and the cross term, as the points determine them. */
  function TrueNumerator(p: Ed.Point, q: Ed.Point): Fp { Field.Add(Field.Mul(p.0, q.1), Field.Mul(p.1, q.0)) }

  /** Where the points have a sum, the equations give it exactly when A + B and C are what the points
      determine, or the sum has equal coordinates and A + B moves with C. */
  lemma {:induction false} OutputsExistingSumIff(d: Fp, w: seq<Fp>, s: Ed.Point)
    requires |w| == VARIABLES && Equations(d, w)
    requires Field.Add(ONE, w[7]) != ZERO && Field.Sub(ONE, w[7]) != ZERO
    requires Ed.AddPoints(d, (w[0], w[1]), (w[2], w[3])) == Some(s)
    ensures var p, q := (w[0], w[1]), (w[2], w[3]);
            var n, n0, c, c0 := Field.Add(w[5], w[6]), TrueNumerator(p, q), w[7], Ed.Cross(d, p, q);
            (w[10], w[11]) == s
            <==> (n == n0 && c == c0) || (s.0 == s.1 && n == Field.Add(n0, Field.Mul(Field.Sub(c, c0), s.0)))
  {
    hide Residue, Field.Add, Field.Mul, Field.Sub, Neg, Div, Ed.Cross;
    var p, q := (w[0], w[1]), (w[2], w[3]);
    var n, n0, c, c0, u := Field.Add(w[5], w[6]), TrueNumerator(p, q), w[7], Ed.Cross(d, p, q), w[4];
    SumEquationsOf(d, p, q, s);
    TakeBoth(u, w[5], w[6]);
    CoordinatesAgree(c, c0, n, n0, w[8], s.0);
    SubIsPlusNeg(c, c0, u, n, n0, s.1);
    SubIsPlusNeg(c0, c, u, n, n0, s.1);
    CoordinatesAgree(Neg(c), Neg(c0), Field.Sub(u, n), Field.Sub(u, n0), w[9], s.1);
    SameProduct(Field.Sub(c, c0), s.0, s.1, n0);
    SubZero(c, c0);
    Units(s.0);
    Units(n0);
  }

  /** The constraints leave A and B free. An assignment that satisfies them, with denominators that are
      not zero, outputs the sum of its points exactly when A + B and C are what the points determine, or
      the sum has equal coordinates and A + B moves with C. Otherwise the points may even have no sum. */
  lemma {:induction false} OutputsSumIff(va: Fp, d: Fp, w: seq<Fp>)
    requires |w| == VARIABLES && C.Satisfied(Constraints(va, d), w)
    requires Field.Add(ONE, w[7]) != ZERO && Field.Sub(ONE, w[7]) != ZERO
    ensures var p, q := (w[0], w[1]), (w[2], w[3]);
            var n, n0, c, c0 := Field.Add(w[5], w[6]), TrueNumerator(p, q), w[7], Ed.Cross(d, p, q);
            var s := Ed.AddPoints(d, p, q);
            var moved := s.Some? && s.value.0 == s.value.1
              && n == Field.Add(n0, Field.Mul(Field.Sub(c, c0), s.value.0));
            s == Some((w[10], w[11])) <==> (n == n0 && c == c0) || moved
  {
    hide Constraints, C.Satisfied, Equations, Residue, Field.Add, Field.Mul, Field.Sub, Div, Ed.Cross;
    SatisfiedIffEquations(va, d, w);
    var p, q := (w[0], w[1]), (w[2], w[3]);
    var s := Ed.AddPoints(d, p, q);
    if s.Some? { OutputsExistingSumIff(d, w, s.value); }
  }

  /** With the denominator of a coordinate zero, the constraints leave that coordinate of the output free. */
  lemma {:induction false} ZeroDenominatorFreesOutput(va: Fp, d: Fp, w: seq<Fp>, x: Fp)
    requires |w| == VARIABLES && C.Satisfied(Constraints(va, d), w)
    ensures Field.Add(ONE, w[7]) == ZERO ==> C.Satisfied(Constraints(va, d), w[8 := x][10 := x])
    ensures Field.Sub(ONE, w[7]) == ZERO ==> C.Satisfied(Constraints(va, d), w[9 := x][11 := x])
  {
    hide Constraints, C.Satisfied, Equations, Residue, Field.Add, Field.Sub;
    SatisfiedIffEquations(va, d, w);
    SatisfiedIffEquations(va, d, w[8 := x][10 := x]);
    SatisfiedIffEquations(va, d, w[9 := x][11 := x]);
    FreeCoordinate(d, w, x);
  }

  lemma {:induction false} FreeCoordinate(d: Fp, w: seq<Fp>, x: Fp)
    requires |w| == VARIABLES && Equations(d, w)
    ensures Field.Add(ONE, w[7]) == ZERO ==> Equations(d, w[8 := x][10 := x])
    ensures Field.Sub(ONE, w[7]) == ZERO ==> Equations(d, w[9 := x][11 := x])
  {
    hide Residue, Field.Add, Field.Mul, Field.Sub;
    Units(x);
    Units(w[8]);
    Units(w[9]);
  }

  lemma TakeBoth(u: Fp, a: Fp, b: Fp)
    ensures Field.Sub(Field.Sub(u, a), b) == Field.Sub(u, Field.Add(a, b))
  {
    hide Residue, Field.Add, Field.Sub, Neg;
    SubIsAddNeg(Field.Sub(u, a), b);
    SubOfSum(u, a, b);
  }

  lemma SameProduct(e: Fp, x: Fp, y: Fp, n: Fp)
    ensures Field.Add(n, Field.Mul(e, x)) == Field.Add(n, Field.Mul(e, y)) <==> e == ZERO || x == y
  {
    hide Residue, Field.Add, Field.Mul, Field.Sub, Neg;
    AddAssoc(Neg(n), n, Field.Mul(e, x));
    AddAssoc(Neg(n), n, Field.Mul(e, y));
    AddComm(n, Neg(n));
    Units(n);
    Units(Field.Mul(e, x));
    Units(Field.Mul(e, y));
    Units(x);
    Units(y);
    if e != ZERO { CancelFactor(e, x, y); }
  }

  /** The sum satisfies its own two equations. */
  lemma SumEquationsOf(d: Fp, p: Ed.Point, q: Ed.Point, s: Ed.Point)
    requires Ed.AddPoints(d, p, q) == Some(s)
    ensures var u, c0, n0 := Field.Mul(Field.Add(p.0, p.1), Field.Add(q.0, q.1)), Ed.Cross(d, p, q),
      TrueNumerator(p, q);
            Field.Mul(Field.Add(ONE, c0), s.0) == n0 && Field.Mul(Field.Sub(ONE, c0), s.1) == Field.Sub(u, n0)
  {
    hide Residue, Field.Add, Field.Mul, Field.Sub, Neg, Div, Ed.Cross;
    var u, c0, n0 := Field.Mul(Field.Add(p.0, p.1), Field.Add(q.0, q.1)), Ed.Cross(d, p, q), TrueNumerator(p, q);
    Ed.NumeratorFactored(p, q);
    MulComm(q.1, p.0);
    MulComm(q.0, p.1);
    TakeBoth(u, Field.Mul(p.0, q.1), Field.Mul(p.1, q.0));
    DivMul(n0, Field.Add(ONE, c0));
    DivMul(Field.Sub(u, n0), Field.Sub(ONE, c0));
    MulComm(s.0, Field.Add(ONE, c0));
    MulComm(s.1, Field.Sub(ONE, c0));
  }

  /** An assignment that satisfies all constraints, with the neutral point twice as input and something
      else as output. */
  lemma FreeProductsChangeSum(va: Fp, d: Fp)
    ensures var w: seq<Fp> := [ZERO, ONE, ZERO, ONE, ONE, ONE, ZERO, ZERO, ONE, ZERO, ONE, ZERO];
            && C.Satisfied(Constraints(va, d), w) && Field.Add(ONE, w[7]) == ONE && Field.Sub(ONE, w[7]) == ONE
            && Ed.IsJubjub(Neg(ONE), d, (w[0], w[1])) && Ed.IsJubjub(Neg(ONE), d, (w[2], w[3]))
            && Ed.AddPoints(d, (w[0], w[1]), (w[2], w[3])) == Some((ZERO, ONE)) && (w[10], w[11]) != (ZERO, ONE)
  {
    hide Constraints, C.Satisfied, Residue, Field.Add, Field.Mul, Field.Sub, Neg, Div;
    Units(ZERO); Units(ONE); Units(d); Units(Neg(ONE));
    SubIsAddNeg(ONE, ZERO); SubIsAddNeg(ONE, ONE); SubIsAddNeg(ZERO, ZERO);
    DivByOne(ZERO); DivByOne(ONE);
    SatisfiedIffEquations(va, d, [ZERO, ONE, ZERO, ONE, ONE, ONE, ZERO, ZERO, ONE, ZERO, ONE, ZERO]);
  }

  /** An assignment that satisfies all constraints, with denominators that are one, whose points have no
      sum: (1, 1), and any point for which the second denominator of the sum vanishes. */
  lemma NoSumAccepted(va: Fp, d: Fp, q: Ed.Point)
    requires Field.Mul(Field.Mul(d, q.0), q.1) == ONE
    ensures var u := Field.Mul(Field.Add(ONE, ONE), Field.Add(q.0, q.1));
            var w: seq<Fp> := [ONE, ONE, q.0, q.1, u, ZERO, ZERO, ZERO, ZERO, u, ZERO, u];
            && C.Satisfied(Constraints(va, d), w) && Field.Add(ONE, w[7]) == ONE && Field.Sub(ONE, w[7]) == ONE
            && Ed.AddPoints(d, (w[0], w[1]), (w[2], w[3])) == None
  {
    hide Constraints, C.Satisfied, Residue, Field.Add, Field.Mul, Field.Sub, Neg, Div;
    var u := Field.Mul(Field.Add(ONE, ONE), Field.Add(q.0, q.1));
    Units(ZERO); Units(ONE); Units(d); Units(u); Units(Field.Mul(d, q.0));
    SubIsAddNeg(ONE, ZERO); SubIsAddNeg(u, ZERO);
    SubZero(ONE, ONE);
    SatisfiedIffEquations(va, d, [ONE, ONE, q.0, q.1, u, ZERO, ZERO, ZERO, ZERO, u, ZERO, u]);
  }

  lemma DivByOne(x: Fp)
    ensures Div(x, ONE) == x
  {
    hide Residue, Field.Mul, Div;
    DivMul(x, ONE);
    Units(Div(x, ONE));
  }
}
