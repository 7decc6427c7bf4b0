/** The `jubjub_add` circuit of jubjub.psm. */
module JubjubCircuit {
  import opened Wrappers
  import opened Assembly
  import opened Compiler
  import opened LocalSlots
  import opened CompilerCorrect
  import opened SourceSteps
  import C = Circuit
  import Vm

  /** The variables in order of allocation, then the locals, then the constants. */
  datatype Symbol =
    | X1 | Y1 | X2 | Y2 | U | A | B | C | X | Y | X3 | Y3
    | Tmp | XDenom | YDenom
    | EdwardsA | D | OneConst

  function OpLine(c: OpCommand, args: seq<Symbol>): Line<Symbol> { Line(Op(c), args, []) }

  function LcLine(k: ConstraintCommand, args: seq<Symbol>): Line<Symbol> { Line(Constrain(k), args, []) }

  function AllocLine(a: AllocCommand, s: Symbol): Line<Symbol> { Line(Alloc(a), [s], []) }

  function Plus(side: C.Side, s: Symbol): Line<Symbol> { LcLine(ConstraintCommand.Add(side), [s]) }

  function Minus(side: C.Side, s: Symbol): Line<Symbol> { LcLine(ConstraintCommand.Sub(side), [s]) }

  const LENGTH: nat := 71

  /** U = (x1 + y1)(x2 + y2) */
  function ULine(k: nat): Line<Symbol> {
    match k
    case 0 => AllocLine(Param, X1)
    case 1 => AllocLine(Param, Y1)
    case 2 => AllocLine(Param, X2)
    case 3 => AllocLine(Param, Y2)
    case 4 => AllocLine(Private, U)
    case 5 => OpLine(Set, [U, X1])
    case 6 => OpLine(OpCommand.Add, [U, Y1])
    case 7 => OpLine(Local, [Tmp])
    case 8 => OpLine(Set, [Tmp, X2])
    case 9 => OpLine(OpCommand.Add, [Tmp, Y2])
    case 10 => OpLine(OpCommand.Mul, [U, Tmp])
    case 11 => Plus(C.Lc0, X1)
    case 12 => Plus(C.Lc0, Y1)
    case 13 => Plus(C.Lc1, X2)
    case 14 => Plus(C.Lc1, Y2)
    case 15 => Plus(C.Lc2, U)
    case _ => LcLine(ConstraintCommand.Enforce, [])
  }

  /** A = y2 x1 and B = x2 y1, which no constraint repeats, and C = d A B */
  function ProductLine(k: nat): Line<Symbol> {
    match k
    case 17 => AllocLine(Private, A)
    case 18 => OpLine(Set, [A, Y2])
    case 19 => OpLine(OpCommand.Mul, [A, X1])
    case 20 => AllocLine(Private, B)
    case 21 => OpLine(Set, [B, X2])
    case 22 => OpLine(OpCommand.Mul, [B, Y1])
    case 23 => AllocLine(Private, Symbol.C)
    case 24 => OpLine(Load, [Symbol.C, D])
    case 25 => OpLine(OpCommand.Mul, [Symbol.C, A])
    case 26 => OpLine(OpCommand.Mul, [Symbol.C, B])
    case 27 => LcLine(AddCoeff(C.Lc0), [D, A])
    case 28 => Plus(C.Lc1, B)
    case 29 => Plus(C.Lc2, Symbol.C)
    case _ => LcLine(ConstraintCommand.Enforce, [])
  }

  /** x = (A + B) / (1 + C) */
  function XLine(k: nat): Line<Symbol> {
    match k
    case 31 => AllocLine(Private, X)
    case 32 => OpLine(Set, [X, A])
    case 33 => OpLine(OpCommand.Add, [X, B])
    case 34 => OpLine(Local, [XDenom])
    case 35 => OpLine(Load, [XDenom, OneConst])
    case 36 => OpLine(OpCommand.Add, [XDenom, Symbol.C])
    case 37 => OpLine(Divide, [X, XDenom])
    case 38 => LcLine(AddOne(C.Lc0), [])
    case 39 => Plus(C.Lc0, Symbol.C)
    case 40 => Plus(C.Lc1, X)
    case 41 => Plus(C.Lc2, A)
    case 42 => Plus(C.Lc2, B)
    case _ => LcLine(ConstraintCommand.Enforce, [])
  }

  /** y = (U - A - B) / (1 - C) */
  function YLine(k: nat): Line<Symbol> {
    match k
    case 44 => AllocLine(Private, Y)
    case 45 => OpLine(Set, [Y, U])
    case 46 => OpLine(OpCommand.Sub, [Y, A])
    case 47 => OpLine(OpCommand.Sub, [Y, B])
    case 48 => OpLine(Local, [YDenom])
    case 49 => OpLine(Load, [YDenom, OneConst])
    case 50 => OpLine(OpCommand.Sub, [YDenom, Symbol.C])
    case 51 => OpLine(Divide, [Y, YDenom])
    case 52 => LcLine(AddOne(C.Lc0), [])
    case 53 => Minus(C.Lc0, Symbol.C)
    case 54 => Plus(C.Lc1, Y)
    case 55 => Plus(C.Lc2, U)
    case 56 => Minus(C.Lc2, A)
    case 57 => Minus(C.Lc2, B)
    case _ => LcLine(ConstraintCommand.Enforce, [])
  }

  /** The outputs */
  function OutputLine(k: nat): Line<Symbol> {
    match k
    case 59 => AllocLine(Public, X3)
    case 60 => OpLine(Set, [X3, X])
    case 61 => AllocLine(Public, Y3)
    case 62 => OpLine(Set, [Y3, Y])
    case 63 => Plus(C.Lc0, X3)
    case 64 => LcLine(AddOne(C.Lc1), [])
    case 65 => Plus(C.Lc2, X)
    case 66 => LcLine(ConstraintCommand.Enforce, [])
    case 67 => Plus(C.Lc0, Y3)
    case 68 => LcLine(AddOne(C.Lc1), [])
    case 69 => Plus(C.Lc2, Y)
    case _ => LcLine(ConstraintCommand.Enforce, [])
  }

  function SourceLine(k: nat): Line<Symbol> {
    if k < 17 then ULine(k) else if k < 31 then ProductLine(k) else if k < 44 then XLine(k) else if k < 59 then YLine(k)
    else OutputLine(k)
  }

  function Source(): seq<Line<Symbol>> { seq(LENGTH, k requires k >= 0 => SourceLine(k)) }

  const CONSTANTS: seq<Symbol> := [EdwardsA, D, OneConst]

  /* ----- compilation ----- */

  const VARIABLES: nat := 12

  function VariableAt(i: nat): Symbol {
    match i
    case 0 => X1 case 1 => Y1 case 2 => X2 case 3 => Y2 case 4 => U case 5 => A case 6 => B
    case 7 => Symbol.C case 8 => X case 9 => Y case 10 => X3 case _ => Y3
  }

  predicate IsVariable(s: Symbol) {
    s.X1? || s.Y1? || s.X2? || s.Y2? || s.U? || s.A? || s.B? || s.C? || s.X? || s.Y? || s.X3? || s.Y3?
  }

  function Place(s: Symbol): nat {
    match s
    case X1 => 0 case Y1 => 1 case X2 => 2 case Y2 => 3 case U => 4 case A => 5 case B => 6
    case C => 7 case X => 8 case Y => 9 case X3 => 10 case _ => 11
  }

  function Entry(i: nat): Variable<Symbol> {
    Variable(VariableAt(i), i, if i < 10 then Vm.Private else Vm.Public, i < 4)
  }

  function Table(i: nat): seq<Variable<Symbol>> { seq(i, j requires j >= 0 => Entry(j)) }

  lemma {:induction false} FindInTable(i: nat, s: Symbol)
    requires i <= VARIABLES
    ensures FindVariable(Table(i), s) == if IsVariable(s) && Place(s) < i then Some(Entry(Place(s))) else None
  {
    hide FindVariable, Entry, VariableAt, Place, IsVariable, Table;
    if i == 0 {
      NothingInTable(s);
    } else {
      FindInTable(i - 1, s);
      LastInTable(i - 1, s);
      FindBefore(Table(i - 1), Entry(i - 1), s);
    }
  }

  lemma NothingInTable(s: Symbol)
    ensures FindVariable(Table(0), s) == None
  {}

  lemma LastInTable(i: nat, s: Symbol)
    requires i < VARIABLES
    ensures Table(i + 1) == Table(i) + [Entry(i)]
    ensures Entry(i).symbol == s <==> IsVariable(s) && Place(s) == i
  {}

  /** The number of variables allocated by the first k lines. */
  function Allocated(k: nat): nat {
    if k <= 5 then k else if k <= 17 then 5 else if k <= 20 then 6 else if k <= 23 then 7 else if k <= 31 then 8
    else if k <= 44 then 9 else if k <= 59 then 10 else if k <= 61 then 11 else 12
  }

  lemma AllocationsOf(k: nat)
    requires k < LENGTH
    ensures var line, i := SourceLine(k), Allocated(k);
            if line.command.Alloc?
            then i < VARIABLES && Allocated(k + 1) == i + 1 && line.args == [VariableAt(i)]
                 && NewVariable(line.command.alloc, VariableAt(i), i) == Entry(i)
            else Allocated(k + 1) == i
  {}

  lemma {:induction false} TableAt(k: nat)
    requires k <= LENGTH
    ensures AllocTable(Source(), k) == Some(Table(Allocated(k)))
  {
    hide Source, SourceLine, FindVariable;
    if k == 0 {
      NoneAllocated(Source(), X1);
      assert Table(0) == [];
    } else {
      TableAt(k - 1);
      AllocationsOf(k - 1);
      SourceAt(k - 1);
      TableGrowsBy(Source(), k - 1, Allocated(k - 1));
    }
  }

  lemma {:induction false} TableGrowsBy(lines: seq<Line<Symbol>>, k: nat, i: nat)
    requires k < |lines| && AllocTable(lines, k) == Some(Table(i))
    requires lines[k].command.Alloc? ==>
      i < VARIABLES && lines[k].args == [VariableAt(i)]
      && NewVariable(lines[k].command.alloc, VariableAt(i), i) == Entry(i)
    ensures AllocTable(lines, k + 1) == Some(Table(if lines[k].command.Alloc? then i + 1 else i))
  {
    hide FindVariable, Entry, VariableAt, Table, NewVariable;
    if lines[k].command.Alloc? { TableNext(i); }
  }

  lemma TableNext(i: nat)
    requires i < VARIABLES
    ensures FindVariable(Table(i), VariableAt(i)).None? && Table(i + 1) == Table(i) + [Entry(i)] && |Table(i)| == i
  {
    FindInTable(i, VariableAt(i));
    assert Place(VariableAt(i)) == i;
  }

  /** The locals declared by the first k lines. */
  function Declared(k: nat): seq<Symbol> {
    if k <= 7 then [] else if k <= 34 then [Tmp] else if k <= 48 then [Tmp, XDenom] else [Tmp, XDenom, YDenom]
  }

  lemma DeclarationsOf(k: nat)
    requires k < LENGTH
    ensures Declared(k + 1)
         == Declared(k) + (if SourceLine(k).command == Op(Local) && |SourceLine(k).args| == 1
                           then SourceLine(k).args else [])
  {}

  lemma {:induction false} LocalsAt(k: nat)
    requires k <= LENGTH
    ensures LocalNames(Source(), k) == Declared(k)
  {
    if k > 0 {
      LocalsAt(k - 1);
      DeclarationsOf(k - 1);
      hide Declared, SourceLine;
    }
  }

  lemma ConstantAt(s: Symbol)
    ensures FindConstant(CONSTANTS, s)
         == if s == EdwardsA then Some(0) else if s == D then Some(1) else if s == OneConst then Some(2) else None
  {
    var none: seq<Symbol> := [];
    FindConstantBefore(none, EdwardsA, s);
    FindConstantBefore(none + [EdwardsA], D, s);
    FindConstantBefore(none + [EdwardsA] + [D], OneConst, s);
    assert CONSTANTS == none + [EdwardsA] + [D] + [OneConst];
    assert FindConstant(none, s) == None;
  }

  /** A variable, or a local declared before line k. */
  predicate MayWrite(k: nat, s: Symbol) {
    IsVariable(s) || (s == Tmp && k > 7) || (s == XDenom && k > 34) || (s == YDenom && k > 48)
  }

  predicate IsNumber(s: Symbol) { s == D || s == OneConst }

  /** Every symbol of line k is what its place needs. */
  predicate GoodLine(k: nat, line: Line<Symbol>) {
    var a := line.args;
    match line.command
    case Op(Local) => |a| == 1
    case Op(Load) => |a| == 2 && MayWrite(k, a[0]) && IsNumber(a[1])
    case Op(_) => |a| == Arity(line.command) <= 2 && (|a| > 0 ==> MayWrite(k, a[0])) && (|a| > 1 ==> MayWrite(k, a[1]))
    case Constrain(c) =>
      && |a| == Arity(line.command)
      && (|a| > 0 ==> if TakesConstant(c) then IsNumber(a[0]) else IsVariable(a[0])) && (|a| > 1 ==> IsVariable(a[1]))
    case _ => true
  }

  lemma LineIsGood(k: nat)
    requires k < LENGTH
    ensures GoodLine(k, SourceLine(k))
  {
    hide SourceLine, GoodLine;
    if k < 17 { FirstLinesAreGood(k); } else if k < 31 { ProductLinesAreGood(k); } else if k < 44 { XLinesAreGood(k); }
    else if k < 59 { YLinesAreGood(k); } else { LastLinesAreGood(k); }
  }

  lemma FirstLinesAreGood(k: nat)
    requires k < 17
    ensures GoodLine(k, SourceLine(k))
  {}

  lemma ProductLinesAreGood(k: nat)
    requires 17 <= k < 31
    ensures GoodLine(k, SourceLine(k))
  {}

  lemma XLinesAreGood(k: nat)
    requires 31 <= k < 44
    ensures GoodLine(k, SourceLine(k))
  {}

  lemma YLinesAreGood(k: nat)
    requires 44 <= k < 59
    ensures GoodLine(k, SourceLine(k))
  {}

  lemma LastLinesAreGood(k: nat)
    requires 59 <= k < LENGTH
    ensures GoodLine(k, SourceLine(k))
  {}

  lemma SymbolPlaced(k: nat, s: Symbol)
    ensures IsVariable(s) <==> FindVariable(Table(VARIABLES), s).Some?
    ensures MayWrite(k, s) ==> Writable(Table(VARIABLES), Declared(k), s)
    ensures IsNumber(s) ==>
      FindConstant(CONSTANTS, s).Some? && !IsVariable(s) && !Writable(Table(VARIABLES), Declared(k), s)
  {
    hide FindVariable, FindConstant, Table;
    FindInTable(VARIABLES, s);
    ConstantAt(s);
  }

  lemma GoodIsPlaced(k: nat, line: Line<Symbol>)
    requires GoodLine(k, line)
    ensures WellPlaced(Table(VARIABLES), CONSTANTS, Declared(k), line)
  {
    hide FindVariable, FindConstant, Table, MayWrite, IsVariable, IsNumber, Writable, Declared;
    forall i | 0 <= i < |line.args|
      ensures IsVariable(line.args[i]) <==> FindVariable(Table(VARIABLES), line.args[i]).Some?
      ensures MayWrite(k, line.args[i]) ==> Writable(Table(VARIABLES), Declared(k), line.args[i])
      ensures IsNumber(line.args[i]) ==>
        && FindConstant(CONSTANTS, line.args[i]).Some? && !IsVariable(line.args[i])
        && !Writable(Table(VARIABLES), Declared(k), line.args[i])
    {
      SymbolPlaced(k, line.args[i]);
    }
  }

  lemma SourceAt(k: nat)
    ensures |Source()| == LENGTH
    ensures k < LENGTH ==> Source()[k] == SourceLine(k)
  {}

  lemma CircuitWorks()
    ensures var c := Compiled(Source(), CONSTANTS);
            c.Some? && Works(Source(), CONSTANTS, c.value) && c.value.alloc == Table(VARIABLES)
  {
    hide Source;
    SourceAt(0);
    TableAt(LENGTH);
    LocalsAt(LENGTH);
    DistinctLocals();
    forall k | 0 <= k < LENGTH ensures WellPlaced(Table(VARIABLES), CONSTANTS, LocalNames(Source(), k), Source()[k]) {
      SourceAt(k);
      LocalsAt(k);
      LineIsGood(k);
      GoodIsPlaced(k, SourceLine(k));
    }
    WellPlacedWorks(Source(), CONSTANTS, Table(VARIABLES));
  }

  lemma DistinctLocals()
    ensures NoClash(Declared(LENGTH))
  {}
}
