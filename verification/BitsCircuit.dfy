/** The bit decomposition circuit of bits.psm, for any number of bits. */
module BitsCircuit {
  import opened Wrappers
  import opened Field
  import opened Powers
  import opened Assembly
  import opened Compiler
  import opened Simulation
  import opened LocalSlots
  import opened CompilerCorrect
  import opened SourceSteps
  import opened Bits
  import C = Circuit
  import Vm

  datatype Symbol = X | Bit(i: nat)

  function OpLine(c: OpCommand, args: seq<Symbol>): Line<Symbol> { Line(Op(c), args, []) }

  function LcLine(k: ConstraintCommand, args: seq<Symbol>): Line<Symbol> { Line(Constrain(k), args, []) }

  function AllocLine(a: AllocCommand, s: Symbol): Line<Symbol> { Line(Alloc(a), [s], []) }

  /** The j-th of the four lines that check bit i. */
  function BitLine(i: nat, j: nat): Line<Symbol> {
    match j
    case 0 => LcLine(AddOne(C.Lc0), [])
    case 1 => LcLine(ConstraintCommand.Sub(C.Lc0), [Bit(i)])
    case 2 => LcLine(ConstraintCommand.Add(C.Lc1), [Bit(i)])
    case _ => LcLine(ConstraintCommand.Enforce, [])
  }

  /** The two lines that add bit i to the sum. */
  function SumLine(i: nat, j: nat): Line<Symbol> {
    if j == 0 then LcLine(ConstraintCommand.Add(C.Lc0), [Bit(i)]) else LcLine(CoeffDouble, [])
  }

  function Declarations(n: nat): (r: seq<Line<Symbol>>)
    ensures |r| == n
  {
    seq(n, i requires i >= 0 => AllocLine(Private, Bit(i)))
  }

  function BitChecks(n: nat): (r: seq<Line<Symbol>>)
    ensures |r| == 4 * n
  {
    if n == 0 then [] else BitChecks(n - 1) + seq(4, j requires j >= 0 => BitLine(n - 1, j))
  }

  function Sums(n: nat): (r: seq<Line<Symbol>>)
    ensures |r| == 2 * n
  {
    if n == 0 then [] else Sums(n - 1) + seq(2, j requires j >= 0 => SumLine(n - 1, j))
  }

  function UnpackLine(n: nat): Line<Symbol>
    requires n > 0
  {
    OpLine(UnpackBits, [X, Bit(0), Bit(n - 1)])
  }

  function Ending(): seq<Line<Symbol>> {
    [ LcLine(CoeffReset, []), LcLine(ConstraintCommand.Sub(C.Lc0), [X]), LcLine(AddOne(C.Lc1), []),
      LcLine(ConstraintCommand.Enforce, []) ]
  }

  /** The contract with n bits; the repository instantiates it with 256. */
  function Source(n: nat): seq<Line<Symbol>>
    requires n > 0
  {
    [AllocLine(Param, X)] + Declarations(n) + [UnpackLine(n)] + BitChecks(n) + Sums(n) + Ending()
  }

  /** The first line that checks bit i, that adds bit i, and of the ending. */
  function CheckStart(n: nat, i: nat): nat { n + 2 + 4 * i }

  function SumStart(n: nat, i: nat): nat { 5 * n + 2 + 2 * i }

  lemma {:induction false} BitCheckAt(n: nat, i: nat, j: nat)
    requires i < n && j < 4
    ensures 4 * i + j < 4 * n && BitChecks(n)[4 * i + j] == BitLine(i, j)
    decreases n
  {
    if i < n - 1 { BitCheckAt(n - 1, i, j); }
  }

  lemma {:induction false} SumAt(n: nat, i: nat, j: nat)
    requires i < n && j < 2
    ensures 2 * i + j < 2 * n && Sums(n)[2 * i + j] == SumLine(i, j)
    decreases n
  {
    if i < n - 1 { SumAt(n - 1, i, j); }
  }

  lemma SourceLength(n: nat)
    requires n > 0
    ensures |Source(n)| == 7 * n + 6
  {}

  lemma DeclarationLine(n: nat, k: nat)
    requires 0 < n && k <= n
    ensures |Source(n)| == 7 * n + 6 && Source(n)[k] == if k == 0 then AllocLine(Param, X)
      else AllocLine(Private, Bit(k - 1))
  {}

  lemma UnpackAt(n: nat)
    requires 0 < n
    ensures |Source(n)| == 7 * n + 6 && Source(n)[n + 1] == UnpackLine(n)
  {}

  lemma CheckLine(n: nat, i: nat, j: nat)
    requires i < n && j < 4
    ensures |Source(n)| == 7 * n + 6 && CheckStart(n, i) + j < SumStart(n, 0)
    ensures Source(n)[CheckStart(n, i) + j] == BitLine(i, j)
  {
    hide BitChecks, BitLine, Sums;
    BitCheckAt(n, i, j);
  }

  lemma AddLine(n: nat, i: nat, j: nat)
    requires i < n && j < 2
    ensures |Source(n)| == 7 * n + 6 && SumStart(n, i) + j < SumStart(n, n)
    ensures Source(n)[SumStart(n, i) + j] == SumLine(i, j)
  {
    hide BitChecks, SumLine, Sums;
    SumAt(n, i, j);
  }

  lemma EndLine(n: nat, j: nat)
    requires 0 < n && j < 4
    ensures |Source(n)| == 7 * n + 6 && Source(n)[SumStart(n, n) + j] == Ending()[j]
  {
    hide BitChecks, Sums, Ending;
    assert |Ending()| == 4 by { EndingLength(); }
  }

  lemma EndingLength()
    ensures |Ending()| == 4
  {}

  /** The line is one of the above. */
  datatype Where = Declaration(k: nat) | Unpack | Check(i: nat, j: nat) | Adding(i: nat, j: nat) | End(j: nat)

  lemma Locate(n: nat, k: nat) returns (p: Where)
    requires 0 < n && k < 7 * n + 6
    ensures match p
            case Declaration(m) => k == m <= n
            case Unpack => k == n + 1
            case Check(i, j) => i < n && j < 4 && k == CheckStart(n, i) + j
            case Adding(i, j) => i < n && j < 2 && k == SumStart(n, i) + j
            case End(j) => j < 4 && k == SumStart(n, n) + j
  {
    if k <= n {
      p := Declaration(k);
    } else if k == n + 1 {
      p := Unpack;
    } else if k < SumStart(n, 0) {
      p := Check((k - n - 2) / 4, (k - n - 2) % 4);
    } else if k < SumStart(n, n) {
      p := Adding((k - 5 * n - 2) / 2, (k - 5 * n - 2) % 2);
    } else {
      p := End(k - SumStart(n, n));
    }
  }

  /** What a line can be. */
  lemma LineShape(n: nat, k: nat)
    requires 0 < n && k < 7 * n + 6
    ensures |Source(n)| == 7 * n + 6
    ensures var line := Source(n)[k];
            || (k <= n && line == (if k == 0 then AllocLine(Param, X) else AllocLine(Private, Bit(k - 1))))
            || (k == n + 1 && line == UnpackLine(n))
            || (k > n + 1 && line.command.Constrain? && |line.args| == Arity(line.command)
                && !TakesConstant(line.command.constraint)
                && forall i :: 0 <= i < |line.args| ==>
                  line.args[i] == X || exists b: nat :: b < n && line.args[i] == Bit(b))
  {
    hide Source;
    var p := Locate(n, k);
    match p {
      case Declaration(m) => DeclarationLine(n, m);
      case Unpack => UnpackAt(n);
      case Check(i, j) => CheckLine(n, i, j);
      case Adding(i, j) => AddLine(n, i, j);
      case End(j) => EndLine(n, j);
    }
  }

  /* ----- compilation ----- */

  function Entry(i: nat): Variable<Symbol> {
    if i == 0 then Variable(X, 0, Vm.Private, true) else Variable(Bit(i - 1), i, Vm.Private, false)
  }

  function Table(k: nat): (r: seq<Variable<Symbol>>)
    ensures |r| == k
  {
    seq(k, i requires i >= 0 => Entry(i))
  }

  function Place(s: Symbol): nat { if s.X? then 0 else s.i + 1 }

  lemma {:induction false} FindInTable(k: nat, s: Symbol)
    ensures FindVariable(Table(k), s) == if Place(s) < k then Some(Entry(Place(s))) else None
  {
    if k > 0 {
      FindInTable(k - 1, s);
      assert Table(k) == Table(k - 1) + [Entry(k - 1)];
      FindBefore(Table(k - 1), Entry(k - 1), s);
    }
  }

  lemma {:induction false} TableAt(n: nat, k: nat)
    requires 0 < n && k <= n + 1
    ensures |Source(n)| == 7 * n + 6 && AllocTable(Source(n), k) == Some(Table(k))
  {
    hide Source, FindVariable;
    SourceLength(n);
    if k == 0 {
      NoneAllocated(Source(n), X);
    } else {
      TableAt(n, k - 1);
      DeclarationLine(n, k - 1);
      FindInTable(k - 1, Entry(k - 1).symbol);
      Allocation(Source(n), k - 1, Table(k - 1), if k == 1 then Param else Private, Entry(k - 1).symbol);
      assert Table(k) == Table(k - 1) + [Entry(k - 1)];
    }
  }

  lemma TableIs(n: nat)
    requires 0 < n
    ensures AllocTable(Source(n), |Source(n)|) == Some(Table(n + 1))
  {
    hide Source, AllocTable;
    TableAt(n, n + 1);
    forall k | n + 1 <= k < |Source(n)| ensures !Source(n)[k].command.Alloc? { LineShape(n, k); }
    NoAllocation(Source(n), n + 1, |Source(n)|);
  }

  lemma {:induction false} NoLocals(n: nat, k: nat)
    requires 0 < n && k <= 7 * n + 6
    ensures |Source(n)| == 7 * n + 6 && LocalNames(Source(n), k) == []
  {
    hide Source;
    SourceLength(n);
    if k > 0 {
      NoLocals(n, k - 1);
      LineShape(n, k - 1);
    }
  }

  lemma LinePlaced(n: nat, k: nat)
    requires 0 < n && k < 7 * n + 6
    ensures |Source(n)| == 7 * n + 6 && WellPlaced(Table(n + 1), [], [], Source(n)[k])
  {
    hide Source, FindVariable, Table;
    LineShape(n, k);
    var line := Source(n)[k];
    forall i | 0 <= i < |line.args| && k > n ensures FindVariable(Table(n + 1), line.args[i]).Some? {
      FindInTable(n + 1, line.args[i]);
    }
  }

  lemma CircuitWorks(n: nat)
    requires 0 < n
    ensures var c := Compiled(Source(n), []);
            c.Some? && Works(Source(n), [], c.value) && c.value.alloc == Table(n + 1)
  {
    hide Source, WellPlaced, Table, Works, Compiled;
    SourceLength(n);
    TableIs(n);
    forall k | 0 <= k < |Source(n)| ensures WellPlaced(Table(n + 1), [], LocalNames(Source(n), k), Source(n)[k]) {
      NoLocals(n, k);
      LinePlaced(n, k);
    }
    NoLocals(n, |Source(n)|);
    WellPlacedWorks(Source(n), [], Table(n + 1));
  }

  /* ----- the constraints ----- */

  /** The variables by name and by place. */
  ghost predicate SameValues(n: nat, vars: map<Symbol, Fp>, w: seq<Fp>) {
    |w| == n + 1 && (forall s :: s in vars <==> Place(s) <= n) && forall s :: s in vars ==> vars[s] == w[Place(s)]
  }

  function TheValues(vars: map<Symbol, Fp>): Values<Symbol> { Values([], [], vars) }

  lemma {:induction false} OneBit(n: nat, i: nat, vars: map<Symbol, Fp>, w: seq<Fp>)
    requires i < n && SameValues(n, vars, w)
    ensures |Source(n)| == 7 * n + 6 && CheckStart(n, i + 1) <= |Source(n)|
    ensures Checks(Source(n), CheckStart(n, i), TheValues(vars), C.FRESH_SIDES)
       <==> IsBit(w[i + 1]) && Checks(Source(n), CheckStart(n, i + 1), TheValues(vars), C.FRESH_SIDES)
  {
    hide Source, Checks, Residue, Field.Add, Field.Mul, Neg, SameValues;
    SourceLength(n);
    ValueOfBit(n, i, vars, w);
    var v, lines, p, b := TheValues(vars), Source(n), CheckStart(n, i), w[i + 1];
    CheckLine(n, i, 0); CheckLine(n, i, 1); CheckLine(n, i, 2); CheckLine(n, i, 3);
    Units(ONE); Units(b);
    BitEquation(b);
    CheckOne(lines, p, v, C.FRESH_SIDES);
    CheckPlain(lines, p + 1, v, C.Sides(ONE, ZERO, ZERO, ONE), Bit(i));
    CheckPlain(lines, p + 2, v, C.Sides(Field.Add(ONE, Neg(b)), ZERO, ZERO, ONE), Bit(i));
    CheckEnforce(lines, p + 3, v, C.Sides(Field.Add(ONE, Neg(b)), b, ZERO, ONE));
  }

  lemma {:induction false} ValueOfBit(n: nat, i: nat, vars: map<Symbol, Fp>, w: seq<Fp>)
    requires i < n && SameValues(n, vars, w)
    ensures |w| == n + 1 && Bit(i) in vars && vars[Bit(i)] == w[i + 1] && X in vars && vars[X] == w[0]
  {}

  lemma {:induction false} BitsChecked(n: nat, i: nat, vars: map<Symbol, Fp>, w: seq<Fp>)
    requires 0 < n && i <= n && SameValues(n, vars, w)
    ensures |Source(n)| == 7 * n + 6 && CheckStart(n, i) <= |Source(n)|
    ensures Checks(Source(n), 0, TheValues(vars), C.FRESH_SIDES)
       <==> AllBits(w[1..][..i]) && Checks(Source(n), CheckStart(n, i), TheValues(vars), C.FRESH_SIDES)
  {
    hide Source, Checks, IsBit;
    SourceLength(n);
    if i == 0 {
      forall k | 0 <= k < n + 2 ensures !Source(n)[k].command.Constrain? { LineShape(n, k); }
      CheckNoneUpTo(Source(n), 0, n + 2, TheValues(vars), C.FRESH_SIDES);
    } else {
      BitsChecked(n, i - 1, vars, w);
      OneBit(n, i - 1, vars, w);
      assert w[1..][..i] == w[1..][..i - 1] + [w[i]];
    }
  }

  lemma {:induction false} OneAdded(n: nat, i: nat, vars: map<Symbol, Fp>, w: seq<Fp>)
    requires i < n && SameValues(n, vars, w)
    ensures |Source(n)| == 7 * n + 6 && SumStart(n, i + 1) <= |Source(n)|
    ensures Checks(Source(n), SumStart(n, i), TheValues(vars),
                   C.Sides(WeightedSum(w[1..][..i]), ZERO, ZERO, C.Weight(i)))
       <==> Checks(Source(n), SumStart(n, i + 1), TheValues(vars),
                   C.Sides(WeightedSum(w[1..][..i + 1]), ZERO, ZERO, C.Weight(i + 1)))
  {
    hide Source, Checks, Residue, Field.Add, Field.Mul, Neg, SameValues;
    SourceLength(n);
    ValueOfBit(n, i, vars, w);
    var v, lines, p, b, bits := TheValues(vars), Source(n), SumStart(n, i), w[i + 1], w[1..][..i + 1];
    assert bits[..i] == w[1..][..i] && bits[i] == b;
    AddLine(n, i, 0); AddLine(n, i, 1);
    var s := C.Sides(WeightedSum(bits[..i]), ZERO, ZERO, C.Weight(i));
    CheckVariable(lines, p, v, s, Bit(i));
    CheckCoefficient(lines, p + 1, v, C.Sides(WeightedSum(bits), ZERO, ZERO, C.Weight(i)));
  }

  lemma {:induction false} BitsAdded(n: nat, i: nat, vars: map<Symbol, Fp>, w: seq<Fp>)
    requires 0 < n && i <= n && SameValues(n, vars, w)
    ensures |Source(n)| == 7 * n + 6 && SumStart(n, i) <= |Source(n)|
    ensures Checks(Source(n), SumStart(n, 0), TheValues(vars), C.FRESH_SIDES)
       <==> Checks(Source(n), SumStart(n, i), TheValues(vars),
                   C.Sides(WeightedSum(w[1..][..i]), ZERO, ZERO, C.Weight(i)))
  {
    hide Source, Checks;
    SourceLength(n);
    if i > 0 {
      BitsAdded(n, i - 1, vars, w);
      OneAdded(n, i - 1, vars, w);
    }
  }

  lemma {:induction false} SumChecked(n: nat, vars: map<Symbol, Fp>, w: seq<Fp>)
    requires 0 < n && SameValues(n, vars, w)
    ensures |Source(n)| == 7 * n + 6
    ensures Checks(Source(n), SumStart(n, n), TheValues(vars), C.Sides(WeightedSum(w[1..]), ZERO, ZERO, C.Weight(n)))
       <==> WeightedSum(w[1..]) == w[0]
  {
    hide Source, Residue, Field.Add, Field.Mul, Field.Sub, Neg, SameValues, WeightedSum, C.Weight, SrcChecks;
    SourceLength(n);
    ValueOfBit(n, 0, vars, w);
    var v, lines, p, sum, x := TheValues(vars), Source(n), SumStart(n, n), WeightedSum(w[1..]), w[0];
    EndLine(n, 0); EndLine(n, 1); EndLine(n, 2); EndLine(n, 3);
    Units(ONE);
    var difference := Field.Add(sum, Neg(x));
    SubIsAddNeg(sum, x);
    SubZero(sum, x);
    Units(difference);
    CheckCoefficient(lines, p, v, C.Sides(sum, ZERO, ZERO, C.Weight(n)));
    CheckPlain(lines, p + 1, v, C.Sides(sum, ZERO, ZERO, ONE), X);
    CheckOne(lines, p + 2, v, C.Sides(difference, ZERO, ZERO, ONE));
    CheckEnforce(lines, p + 3, v, C.Sides(difference, ONE, ZERO, ONE));
    EndChecks(lines, v, C.FRESH_SIDES);
  }

  lemma {:induction false} EndChecks(lines: seq<Line<Symbol>>, v: Values<Symbol>, s: C.Sides)
    ensures Checks(lines, |lines|, v, s)
  {}

  lemma {:induction false} ChecksIffDecomposes(n: nat, vars: map<Symbol, Fp>, w: seq<Fp>)
    requires 0 < n && SameValues(n, vars, w)
    ensures SrcChecks(Source(n), 0, [], [], vars, C.FRESH_SIDES) <==> Decomposes(w[1..], w[0])
  {
    hide Source, SrcChecks, SameValues, WeightedSum, Residue;
    ValueOfBit(n, 0, vars, w);
    BitsChecked(n, n, vars, w);
    BitsAdded(n, n, vars, w);
    SumChecked(n, vars, w);
    WeightedSumIsNumber(w[1..]);
    assert w[1..][..n] == w[1..];
  }

  /* ----- the compiled contract ----- */

  /** The compiled contract. */
  function Circuit(n: nat): (c: Contract<Symbol>)
    requires 0 < n
    ensures Works(Source(n), [], c) && c.alloc == Table(n + 1)
  {
    CircuitWorks(n);
    Compiled(Source(n), []).value
  }

  /** Its generated constraints, and its run from x. */
  ghost function Constraints(n: nat): seq<C.Constraint>
    requires 0 < n
  {
    Generated(Source(n), [], Circuit(n), [])
  }

  ghost function RunFrom(n: nat, x: Fp): Vm.Outcome
    requires 0 < n
  {
    Vm.Initialized(n + 1, Operations(Source(n), [], Circuit(n)), [], [(0, x)])
  }

  lemma {:induction false} TableValues(n: nat, w: seq<Fp>)
    requires 0 < n && |w| == n + 1
    ensures SameValues(n, VarsOf(Table(n + 1), w), w)
  {
    hide Source, AllocTable, VarsOf, WellFormedTable, FindVariable, Table;
    TableIs(n);
    TableIsWellFormed(Source(n), |Source(n)|);
    forall s
      ensures s in VarsOf(Table(n + 1), w) <==> Place(s) <= n
      ensures s in VarsOf(Table(n + 1), w) ==> VarsOf(Table(n + 1), w)[s] == w[Place(s)]
    {
      FindInTable(n + 1, s);
      VarsOfAt(Table(n + 1), w, s);
    }
  }

  /** The generated constraints hold exactly when the private variables are bits that stand for x. */
  lemma {:induction false} SatisfiedIffDecomposes(n: nat, w: seq<Fp>)
    requires 0 < n && |w| == n + 1
    ensures C.Satisfied(Constraints(n), w) <==> Decomposes(w[1..], w[0])
  {
    hide Source, SrcChecks, C.Satisfied, Generated, Works, Circuit, VarsOf, Table, SameValues, Decomposes;
    TableValues(n, w);
    GeneratedAsSource(Source(n), [], Circuit(n), [], w);
    ChecksIffDecomposes(n, VarsOf(Table(n + 1), w), w);
  }

  /** The unpacking line wants exactly as many variables as a scalar has bits. */
  lemma UnpackRuns(r: Run<Symbol>, n: nat, env: Env<Symbol>)
    requires 0 < n && At(r, n + 1, env) && r.lines == Source(n) && r.alloc == Table(n + 1)
    requires X in env.vars && forall s :: s in env.vars <==> Place(s) <= n
    ensures n + 2 <= |r.lines|
    ensures n == Vm.BITS ==> At(r, n + 2, UnpackVars(r.alloc, env, 1, env.vars[X]))
    ensures n != Vm.BITS ==>
      SrcRun(r.alloc, r.constants, r.values, r.start, r.lines, n + 2) == SrcFailed(Vm.MalformedRange, env)
  {
    hide Source, FindVariable, Vm.BitOf, Table;
    SourceLength(n);
    UnpackAt(n);
    FindInTable(n + 1, Bit(0));
    FindInTable(n + 1, Bit(n - 1));
  }

  lemma NoOpsAround(n: nat, k: nat)
    requires 0 < n && k < 7 * n + 6 && k != n + 1
    ensures |Source(n)| == 7 * n + 6 && !Source(n)[k].command.Op?
  {
    hide Source;
    LineShape(n, k);
  }

  /** The run leaves the bits of x, or fails when the number of bits is not that of a scalar. */
  lemma SourceRuns(r: Run<Symbol>, n: nat) returns (env: Env<Symbol>)
    requires 0 < n && At(r, 0, r.start) && r.lines == Source(n) && r.alloc == Table(n + 1)
    requires X in r.start.vars && forall s :: s in r.start.vars <==> Place(s) <= n
    ensures var o := SrcRun(r.alloc, r.constants, r.values, r.start, r.lines, |r.lines|);
            if n == Vm.BITS then o == SrcDone(UnpackVars(r.alloc, r.start, 1, r.start.vars[X]))
            else o == SrcFailed(Vm.MalformedRange, r.start)
  {
    hide Source, Table, UnpackVars;
    SourceLength(n);
    forall k | 0 <= k < |r.lines| && k != n + 1 ensures !r.lines[k].command.Op? { NoOpsAround(n, k); }
    SkipLines(r, 0, n + 1, r.start);
    UnpackRuns(r, n, r.start);
    if n == Vm.BITS {
      env := UnpackVars(r.alloc, r.start, 1, r.start.vars[X]);
      SkipLines(r, n + 2, |r.lines|, env);
    } else {
      env := r.start;
      FailureStays(r, n + 2, |r.lines|, Vm.MalformedRange, env);
    }
  }

  /** With 256 bits the machine computes the bits of its parameter, which satisfy the constraints exactly
      when the parameter is below 2^256; with any other number of bits it fails. */
  lemma RunUnpacks(n: nat, x: Fp)
    requires 0 < n
    ensures var o := RunFrom(n, x);
            if n != 256 then o.Failed? && o.e == Vm.MalformedRange
            else o.Done? && o.s.aux == [x] + BitsOf(x, 256)
                 && (C.Satisfied(Constraints(256), o.s.aux) <==> x < Pow2(256))
  {
    hide Source, SrcChecks, C.Satisfied, Generated, Operations, Works, Circuit, VarsOf, Table, SameValues, Decomposes,
         Vm.Run, SrcRun, Vm.SetParams, UnpackVars, Pow2, Constraints;
    var zeros: seq<Fp> := seq(n + 1, _ => ZERO);
    var aux := zeros[0 := x];
    OneParam(zeros, x);
    TableValues(n, aux);
    var r := Run(Table(n + 1), [], [], InitialEnv(Table(n + 1), aux), Source(n));
    StartsThere(r, n, aux);
    WorksAsSource(Source(n), [], Circuit(n), [], aux);
    var env := SourceRuns(r, n);
    if n == Vm.BITS {
      var end := Vm.Run(Operations(Source(n), [], Circuit(n)), [], Vm.State(aux, [])).s.aux;
      TableValues(n, end);
      UnpackedValues(n, r.start, aux, end, x);
      SatisfiedIffDecomposes(n, end);
      UnpackedDecomposes(x, n);
      assert end[1..] == BitsOf(x, n);
    }
  }

  lemma {:induction false} OneParam(zeros: seq<Fp>, x: Fp)
    requires |zeros| > 0
    ensures Vm.SetParams(zeros, [(0, x)]) == Some(zeros[0 := x])
  {
    var params: seq<(nat, Fp)> := [(0, x)];
    var none: seq<(nat, Fp)> := [];
    assert params[1..] == none && Vm.SetParams(zeros[0 := x], none) == Some(zeros[0 := x]);
  }

  lemma {:induction false} StartsThere(r: Run<Symbol>, n: nat, aux: seq<Fp>)
    requires 0 < n && |aux| == n + 1 && r.start == InitialEnv(Table(n + 1), aux)
    requires SameValues(n, VarsOf(Table(n + 1), aux), aux)
    ensures At(r, 0, r.start) && (forall s :: s in r.start.vars <==> Place(s) <= n)
               && X in r.start.vars && r.start.vars[X] == aux[0]
  {
    hide VarsOf, Table;
  }

  /** Unpacking, by place. */
  lemma {:induction false} UnpackedValues(n: nat, env: Env<Symbol>, before: seq<Fp>, after: seq<Fp>, x: Fp)
    requires n == Vm.BITS && SameValues(n, env.vars, before)
    requires SameValues(n, UnpackVars(Table(n + 1), env, 1, x).vars, after)
    ensures after == [before[0]] + BitsOf(x, n)
  {
    hide FindVariable, Vm.BitOf, Table;
    var vars := UnpackVars(Table(n + 1), env, 1, x).vars;
    forall k: nat | k <= n ensures after[k] == ([before[0]] + BitsOf(x, n))[k] {
      var s := if k == 0 then X else Bit(k - 1);
      FindInTable(n + 1, s);
      assert s in vars && vars[s] == after[k];
    }
  }
}
