/** The MiMC circuit for any number of rounds, against the reference function of bin/mimc.rs. */
module Mimc {
  import opened Wrappers
  import opened Field
  import opened Assembly
  import opened Compiler
  import opened Simulation
  import opened LocalSlots
  import opened SourceSteps
  import C = Circuit
  import Vm

  /* ----- the reference function ----- */

  /** The two halves after i rounds. */
  function Halves(xl: Fp, xr: Fp, constants: seq<Fp>, i: nat): (Fp, Fp)
    requires i <= |constants|
  {
    if i == 0 then (xl, xr)
    else
      var (l, r) := Halves(xl, xr, constants, i - 1);
      var t := Field.Add(l, constants[i - 1]);
      (Field.Add(Field.Mul(Field.Mul(t, t), t), r), l)
  }

  function Hash(xl: Fp, xr: Fp, constants: seq<Fp>): Fp { Halves(xl, xr, constants, |constants|).0 }

  method ComputeHash(left: Fp, right: Fp, constants: seq<Fp>) returns (xl: Fp)
    ensures xl == Hash(left, right, constants)
  {
    xl := left;
    var xr := right;
    for i := 0 to |constants|
      invariant (xl, xr) == Halves(left, right, constants, i)
    {
      var tmp1 := Field.Add(xl, constants[i]);
      var tmp2 := Field.Mul(tmp1, tmp1);
      tmp2 := Field.Mul(tmp2, tmp1);
      tmp2 := Field.Add(tmp2, xr);
      xr := xl;
      xl := tmp2;
    }
  }

  /* ----- the circuit ----- */

  datatype Symbol = Left(i: nat) | Right | Tmp(i: nat) | RoundConstant(i: nat) | MimcConst | HashResult

  /** What stands in the place of the right half in round i. */
  function RightOf(i: nat): Symbol { if i == 0 then Right else Left(i - 1) }

  function OpLine(c: OpCommand, args: seq<Symbol>): Line<Symbol> { Line(Op(c), args, []) }

  function LcLine(k: ConstraintCommand, args: seq<Symbol>): Line<Symbol> { Line(Constrain(k), args, []) }

  function AllocLine(a: AllocCommand, s: Symbol): Line<Symbol> { Line(Alloc(a), [s], []) }

  /** The number of lines of a round. */
  const ROUND: nat := 23

  function RoundLine(i: nat, j: nat): Line<Symbol> {
    match j
    case 0 => OpLine(Local, [MimcConst])
    case 1 => OpLine(Load, [MimcConst, RoundConstant(i)])
    case 2 => AllocLine(Private, Tmp(i))
    case 3 => OpLine(Set, [Tmp(i), Left(i)])
    case 4 => OpLine(OpCommand.Add, [Tmp(i), MimcConst])
    case 5 => OpLine(Square, [Tmp(i)])
    case 6 => LcLine(ConstraintCommand.Add(C.Lc0), [Left(i)])
    case 7 => LcLine(AddConstant(C.Lc0), [RoundConstant(i)])
    case 8 => LcLine(ConstraintCommand.Add(C.Lc1), [Left(i)])
    case 9 => LcLine(AddConstant(C.Lc1), [RoundConstant(i)])
    case 10 => LcLine(ConstraintCommand.Add(C.Lc2), [Tmp(i)])
    case 11 => LcLine(ConstraintCommand.Enforce, [])
    case 12 => AllocLine(Private, Left(i + 1))
    case 13 => OpLine(Set, [Left(i + 1), Left(i)])
    case 14 => OpLine(OpCommand.Add, [Left(i + 1), MimcConst])
    case 15 => OpLine(OpCommand.Mul, [Left(i + 1), Tmp(i)])
    case 16 => OpLine(OpCommand.Add, [Left(i + 1), RightOf(i)])
    case 17 => LcLine(ConstraintCommand.Add(C.Lc0), [Tmp(i)])
    case 18 => LcLine(ConstraintCommand.Add(C.Lc1), [Left(i)])
    case 19 => LcLine(AddConstant(C.Lc1), [RoundConstant(i)])
    case 20 => LcLine(ConstraintCommand.Add(C.Lc2), [Left(i + 1)])
    case 21 => LcLine(ConstraintCommand.Sub(C.Lc2), [RightOf(i)])
    case _ => LcLine(ConstraintCommand.Enforce, [])
  }

  function Round(i: nat): seq<Line<Symbol>> { seq(ROUND, j requires j >= 0 => RoundLine(i, j)) }

  function Rounds(n: nat): (r: seq<Line<Symbol>>)
    ensures |r| == ROUND * n
  {
    if n == 0 then [] else Rounds(n - 1) + Round(n - 1)
  }

  /** The contract with n rounds; the repository instantiates it with 322. */
  function Source(n: nat): seq<Line<Symbol>> {
    [AllocLine(Param, Left(0)), AllocLine(Param, Right)] + Rounds(n)
    + [ AllocLine(Public, HashResult),
        OpLine(Set, [HashResult, Left(n)]),
        LcLine(ConstraintCommand.Add(C.Lc0), [Left(n)]),
        LcLine(AddOne(C.Lc1), []),
        LcLine(ConstraintCommand.Add(C.Lc2), [HashResult]),
        LcLine(ConstraintCommand.Enforce, []) ]
  }

  function ConstantNames(n: nat): seq<Symbol> { seq(n, i requires i >= 0 => RoundConstant(i)) }

  /** The first line of round i, and of what follows the last round. */
  function Start(i: nat): nat { 2 + ROUND * i }

  lemma {:induction false} RoundAt(n: nat, i: nat, j: nat)
    requires i < n && j < ROUND
    ensures ROUND * i + j < ROUND * n && Rounds(n)[ROUND * i + j] == RoundLine(i, j)
    decreases n
  {
    if i < n - 1 { RoundAt(n - 1, i, j); }
  }

  /** The lines from p on are those of round i. */
  ghost predicate RoundHere(lines: seq<Line<Symbol>>, p: nat, i: nat) {
    p + ROUND <= |lines| && forall k :: p <= k < p + ROUND ==> lines[k] == RoundLine(i, k - p)
  }

  lemma RoundIsHere(n: nat, i: nat)
    requires i < n
    ensures RoundHere(Source(n), Start(i), i)
  {
    RoundAt(n, i, ROUND - 1);
    forall k | Start(i) <= k < Start(i) + ROUND ensures Source(n)[k] == RoundLine(i, k - Start(i)) {
      RoundAt(n, i, k - Start(i));
    }
  }

  lemma TailAt(n: nat)
    ensures |Source(n)| == Start(n) + 6
    ensures var s, k := Source(n), Start(n);
            && s[0] == AllocLine(Param, Left(0)) && s[1] == AllocLine(Param, Right)
            && s[k] == AllocLine(Public, HashResult)
            && s[k + 1] == OpLine(Set, [HashResult, Left(n)])
            && s[k + 2] == LcLine(ConstraintCommand.Add(C.Lc0), [Left(n)])
            && s[k + 3] == LcLine(AddOne(C.Lc1), [])
            && s[k + 4] == LcLine(ConstraintCommand.Add(C.Lc2), [HashResult])
            && s[k + 5] == LcLine(ConstraintCommand.Enforce, [])
  {}

  /** Every line is one of the above. */
  lemma {:induction false} Position(n: nat, k: nat) returns (i: nat, j: nat)
    requires Start(0) <= k < Start(n)
    ensures i < n && j < ROUND && k == Start(i) + j
    decreases n
  {
    if k >= Start(n - 1) { i, j := n - 1, k - Start(n - 1); } else { i, j := Position(n - 1, k); }
  }

  /* ----- compilation ----- */

  /** The allocation table after i rounds. */
  function Table(i: nat): (r: seq<Variable<Symbol>>)
    ensures |r| == 2 + 2 * i
  {
    if i == 0 then [Variable(Left(0), 0, Vm.Private, true), Variable(Right, 1, Vm.Private, true)]
    else Table(i - 1) + [Variable(Tmp(i - 1), 2 * i, Vm.Private, false),
                         Variable(Left(i), 2 * i + 1, Vm.Private, false)]
  }

  /** Where a symbol stands in the table. */
  function Place(s: Symbol): nat {
    match s
    case Left(j) => if j == 0 then 0 else 2 * j + 1
    case Right => 1
    case Tmp(j) => 2 * j + 2
    case _ => 0
  }

  predicate InTable(i: nat, s: Symbol) {
    match s
    case Left(j) => j <= i
    case Right => true
    case Tmp(j) => j < i
    case _ => false
  }

  lemma {:induction false} FindInTable(i: nat, s: Symbol)
    ensures FindVariable(Table(i), s).Some? <==> InTable(i, s)
    ensures InTable(i, s) ==>
      FindVariable(Table(i), s).value.index == Place(s) && FindVariable(Table(i), s).value.symbol == s
  {
    if i == 0 {
      var t := Table(0);
      assert t[..1] == [t[0]] && t[..1][..0] == [];
    } else {
      FindInTable(i - 1, s);
      TableStep(i);
      hide Table, FindVariable;
      var t := Table(i - 1);
      var tmp, left := Variable(Tmp(i - 1), 2 * i, Vm.Private, false), Variable(Left(i), 2 * i + 1, Vm.Private, false);
      assert Table(i) == (t + [tmp]) + [left];
      FindBefore(t, tmp, s);
      FindBefore(t + [tmp], left, s);
    }
  }

  lemma {:induction false} TableAtStart(lines: seq<Line<Symbol>>)
    requires |lines| >= 2 && lines[0] == AllocLine(Param, Left(0)) && lines[1] == AllocLine(Param, Right)
    ensures AllocTable(lines, 2) == Some(Table(0))
  {
    hide AllocTable, FindVariable;
    var first := Variable(Left(0), 0, Vm.Private, true);
    var none: seq<Variable<Symbol>> := [];
    NoneAllocated(lines, Left(0));
    NoneAllocated(lines, Right);
    FindBefore(none, first, Right);
    Allocation(lines, 0, none, Param, Left(0));
    assert none + [first] == [first];
    Allocation(lines, 1, [first], Param, Right);
    assert [first] + [Variable(Right, 1, Vm.Private, true)] == Table(0);
  }

  lemma {:induction false} TableAfterRounds(n: nat, i: nat)
    requires i <= n
    ensures Start(i) <= |Source(n)| && AllocTable(Source(n), Start(i)) == Some(Table(i))
    decreases i
  {
    hide Source, RoundHere, AllocTable, Table;
    TailAt(n);
    if i == 0 {
      TableAtStart(Source(n));
    } else {
      TableAfterRounds(n, i - 1);
      RoundIsHere(n, i - 1);
      TableAfterRound(Source(n), Start(i - 1), i - 1);
    }
  }

  /** A round has two allocations. */
  lemma {:induction false} RoundAllocates(lines: seq<Line<Symbol>>, p: nat, i: nat)
    requires RoundHere(lines, p, i)
    ensures p + ROUND <= |lines|
    ensures lines[p + 2] == AllocLine(Private, Tmp(i)) && lines[p + 12] == AllocLine(Private, Left(i + 1))
    ensures forall k :: p <= k < p + ROUND && k != p + 2 && k != p + 12 ==> !lines[k].command.Alloc?
  {
    assert lines[p + 2] == RoundLine(i, 2) && lines[p + 12] == RoundLine(i, 12);
    forall k | p <= k < p + ROUND && k != p + 2 && k != p + 12 ensures !lines[k].command.Alloc? {
      assert lines[k] == RoundLine(i, k - p);
    }
  }

  lemma {:induction false} TableAfterRound(lines: seq<Line<Symbol>>, p: nat, i: nat)
    requires RoundHere(lines, p, i) && AllocTable(lines, p) == Some(Table(i))
    ensures AllocTable(lines, p + ROUND) == Some(Table(i + 1))
  {
    hide AllocTable, FindVariable, Table, RoundHere, RoundLine;
    var t, tmp, left := Table(i), Variable(Tmp(i), 2 * i + 2, Vm.Private, false),
      Variable(Left(i + 1), 2 * i + 3, Vm.Private, false);
    FindInTable(i, Tmp(i));
    FindInTable(i, Left(i + 1));
    FindBefore(t, tmp, Left(i + 1));
    TableStep(i + 1);
    RoundAllocates(lines, p, i);
    NoAllocation(lines, p, p + 2);
    Allocation(lines, p + 2, t, Private, Tmp(i));
    NoAllocation(lines, p + 3, p + 12);
    Allocation(lines, p + 12, t + [tmp], Private, Left(i + 1));
    NoAllocation(lines, p + 13, p + ROUND);
    assert t + [tmp] + [left] == t + [tmp, left];
  }

  lemma TableStep(i: nat)
    requires i > 0
    ensures Table(i)
         == Table(i - 1) + [Variable(Tmp(i - 1), 2 * i, Vm.Private, false),
                            Variable(Left(i), 2 * i + 1, Vm.Private, false)]
  {}

  function FullTable(n: nat): seq<Variable<Symbol>> {
    Table(n) + [Variable(HashResult, 2 * n + 2, Vm.Public, false)]
  }

  lemma TableIs(n: nat)
    ensures AllocTable(Source(n), |Source(n)|) == Some(FullTable(n))
  {
    hide AllocTable, FindVariable, Table, Source;
    TailAt(n);
    TableAfterRounds(n, n);
    FindInTable(n, HashResult);
    Allocation(Source(n), Start(n), Table(n), AllocCommand.Public, HashResult);
    NoAllocation(Source(n), Start(n) + 1, |Source(n)|);
  }

  lemma FindInFull(n: nat, s: Symbol)
    ensures FindVariable(FullTable(n), s).Some? <==> InTable(n, s) || s == HashResult
    ensures InTable(n, s) ==> SlotOf(FullTable(n), s) == Place(s)
    ensures SlotOf(FullTable(n), HashResult) == 2 * n + 2
  {
    hide FindVariable, Table;
    FindInTable(n, s);
    FindInTable(n, HashResult);
    FindBefore(Table(n), Variable(HashResult, 2 * n + 2, Vm.Public, false), s);
    FindBefore(Table(n), Variable(HashResult, 2 * n + 2, Vm.Public, false), HashResult);
  }

  /* ----- every symbol is in place ----- */

  /** A line declares the register, as the first of a round, or nothing. */
  lemma Declares(n: nat, k: nat)
    requires k < |Source(n)|
    ensures var line := Source(n)[k];
            if Start(0) <= k < Start(n) && (k - Start(0)) % ROUND == 0
              then line.command == Op(Local) && line.args == [MimcConst]
            else line.command != Op(Local)
  {
    hide Source;
    TailAt(n);
    if Start(0) <= k < Start(n) {
      var i, j := Position(n, k);
      RoundIsHere(n, i);
      assert Source(n)[k] == RoundLine(i, j);
    } else if k >= Start(n) {
      assert k == Start(n) || k == Start(n) + 1 || k == Start(n) + 2 || k == Start(n) + 3 || k == Start(n) + 4
        || k == Start(n) + 5;
    }
  }

  /** All locals are the one register; it is declared by the third line if there is a round. */
  lemma {:induction false} OnlyRegister(n: nat, k: nat)
    requires k <= |Source(n)|
    ensures forall i :: 0 <= i < |LocalNames(Source(n), k)| ==> LocalNames(Source(n), k)[i] == MimcConst
    ensures n > 0 && k >= 3 ==> MimcConst in LocalNames(Source(n), k)
    decreases k
  {
    hide Source;
    if k > 0 {
      OnlyRegister(n, k - 1);
      Declares(n, k - 1);
    }
  }

  lemma {:induction false} FindRoundConstant(n: nat, s: Symbol)
    ensures FindConstant(ConstantNames(n), s) == if s.RoundConstant? && s.i < n then Some(s.i) else None
  {
    if n > 0 {
      FindRoundConstant(n - 1, s);
      assert ConstantNames(n)[..n - 1] == ConstantNames(n - 1);
    }
  }

  lemma {:induction false} RoundInPlace(n: nat, i: nat, j: nat, names: seq<Symbol>)
    requires i < n && j < ROUND && (j > 0 ==> MimcConst in names)
    requires (forall k :: 0 <= k < |names| ==> names[k] == MimcConst)
    ensures WellPlaced(FullTable(n), ConstantNames(n), names, RoundLine(i, j))
  {
    hide FindVariable, FindConstant, FullTable, ConstantNames;
    FindInFull(n, Left(i)); FindInFull(n, Left(i + 1)); FindInFull(n, Tmp(i)); FindInFull(n, RightOf(i));
    FindInFull(n, RoundConstant(i));
    FindRoundConstant(n, RoundConstant(i));
  }

  lemma AllInPlace(n: nat)
    ensures AllWellPlaced(FullTable(n), ConstantNames(n), Source(n))
  {
    hide Source, FindVariable, FindConstant, FullTable, ConstantNames;
    var lines := Source(n);
    TailAt(n);
    FindInFull(n, Left(n));
    FindInFull(n, HashResult);
    forall k | 0 <= k < |lines| ensures WellPlaced(FullTable(n), ConstantNames(n), LocalNames(lines, k), lines[k]) {
      if Start(0) <= k < Start(n) {
        var i, j := Position(n, k);
        RoundIsHere(n, i);
        OnlyRegister(n, k);
        RoundInPlace(n, i, j, LocalNames(lines, k));
      } else if k >= Start(n) {
        assert k == Start(n) || k == Start(n) + 1 || k == Start(n) + 2 || k == Start(n) + 3 || k == Start(n) + 4
          || k == Start(n) + 5;
      }
    }
  }

  /** The contract compiles, although it declares its register once a round. */
  lemma CircuitWorks(n: nat)
    ensures Compiled(Source(n), ConstantNames(n)).Some?
    ensures Works(Source(n), ConstantNames(n), Compiled(Source(n), ConstantNames(n)).value)
    ensures Compiled(Source(n), ConstantNames(n)).value.alloc == FullTable(n)
  {
    TableIs(n);
    AllInPlace(n);
    OnlyRegister(n, |Source(n)|);
    OneNameNoClash(LocalNames(Source(n), |Source(n)|), MimcConst);
    WellPlacedWorks(Source(n), ConstantNames(n), FullTable(n));
  }
}
