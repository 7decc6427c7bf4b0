/** compile.py: from lines with symbols to tables with indices. None is any of the ways the source
    produces no contract: an error message, or an exception for a wrong number of arguments. */
module Compiler {
  import opened Wrappers
  import opened Assembly
  import Vm

  /* ----- the allocation table ----- */

  datatype Variable<+S> = Variable(symbol: S, index: nat, kind: Vm.AllocType, isParam: bool)

  function FindVariable<S(==)>(alloc: seq<Variable<S>>, symbol: S): Option<Variable<S>> {
    if alloc == [] then None
    else if alloc[|alloc| - 1].symbol == symbol then Some(alloc[|alloc| - 1])
    else FindVariable(alloc[..|alloc| - 1], symbol)
  }

  function NewVariable<S>(c: AllocCommand, symbol: S, index: nat): Variable<S> {
    match c
    case Param => Variable(symbol, index, Vm.Private, true)
    case Private => Variable(symbol, index, Vm.Private, false)
    case Public => Variable(symbol, index, Vm.Public, false)
  }

  /** The table after the first n lines. */
  function AllocTable<S(==)>(lines: seq<Line<S>>, n: nat): Option<seq<Variable<S>>>
    requires n <= |lines|
  {
    if n == 0 then Some([])
    else
      var line := lines[n - 1];
      var before := AllocTable(lines, n - 1);
      if before.None? || !line.command.Alloc? then before
      else if |line.args| != 1 || FindVariable(before.value, line.args[0]).Some? then None
      else Some(before.value + [NewVariable(line.command.alloc, line.args[0], |before.value|)])
  }

  method GenerateAllocTable<S(==)>(lines: seq<Line<S>>) returns (r: Option<seq<Variable<S>>>)
    ensures r == AllocTable(lines, |lines|)
  {
    var table: seq<Variable<S>> := [];
    for n := 0 to |lines|
      invariant AllocTable(lines, n) == Some(table)
    {
      var line := lines[n];
      if line.command.Alloc? {
        if |line.args| != 1 || FindVariable(table, line.args[0]).Some? {
          NoneStays(lines, n + 1, |lines|);
          return None;
        }
        table := table + [NewVariable(line.command.alloc, line.args[0], |table|)];
      }
    }
    r := Some(table);
  }

  lemma {:induction false} NoneStays<S>(lines: seq<Line<S>>, m: nat, n: nat)
    requires m <= n <= |lines| && AllocTable(lines, m).None?
    ensures AllocTable(lines, n).None?
    decreases n
  {
    if m < n { NoneStays(lines, m, n - 1); }
  }

  /** Every variable stands at its own index, and every symbol only once. */
  ghost predicate WellFormedTable<S(!new)>(alloc: seq<Variable<S>>) {
    && (forall i :: 0 <= i < |alloc| ==> alloc[i].index == i)
    && (forall i, j :: 0 <= i < j < |alloc| ==> alloc[i].symbol != alloc[j].symbol)
    && (forall i :: 0 <= i < |alloc| ==> (alloc[i].kind == Vm.Public ==> !alloc[i].isParam))
  }

  /** A symbol is found exactly where it stands in the table. */
  lemma {:induction false} FindIsPosition<S(!new)>(alloc: seq<Variable<S>>, symbol: S)
    ensures FindVariable(alloc, symbol).Some? <==> exists i :: 0 <= i < |alloc| && alloc[i].symbol == symbol
    ensures FindVariable(alloc, symbol).Some? ==>
      var v := FindVariable(alloc, symbol).value; v.symbol == symbol && v in alloc
    decreases |alloc|
  {
    if alloc != [] {
      var rest := alloc[..|alloc| - 1];
      FindIsPosition(rest, symbol);
      assert alloc == rest + [alloc[|alloc| - 1]];
      if i :| 0 <= i < |alloc| && alloc[i].symbol == symbol && i < |rest| { assert rest[i].symbol == symbol; }
    }
  }

  lemma {:induction false} TableIsWellFormed<S(!new)>(lines: seq<Line<S>>, n: nat)
    requires n <= |lines| && AllocTable(lines, n).Some?
    ensures WellFormedTable(AllocTable(lines, n).value)
  {
    if n > 0 {
      TableIsWellFormed(lines, n - 1);
      if lines[n - 1].command.Alloc? {
        TableGrows(AllocTable(lines, n - 1).value, lines[n - 1].command.alloc, lines[n - 1].args[0]);
      }
    }
  }

  lemma {:induction false} TableGrows<S(!new)>(alloc: seq<Variable<S>>, c: AllocCommand, symbol: S)
    requires WellFormedTable(alloc) && FindVariable(alloc, symbol).None?
    ensures WellFormedTable(alloc + [NewVariable(c, symbol, |alloc|)])
  {
    hide FindVariable;
    FindIsPosition(alloc, symbol);
  }

  /** The number of allocation lines among the first n. */
  function AllocCount<S>(lines: seq<Line<S>>, n: nat): (r: nat)
    requires n <= |lines|
    ensures r <= n
  {
    if n == 0 then 0 else AllocCount(lines, n - 1) + (if lines[n - 1].command.Alloc? then 1 else 0)
  }

  lemma {:induction false} AllocCountGrows<S>(lines: seq<Line<S>>, k: nat, n: nat)
    requires k < n <= |lines| && lines[k].command.Alloc?
    ensures AllocCount(lines, k) < AllocCount(lines, n)
    decreases n
  {
    if k < n - 1 { AllocCountGrows(lines, k, n - 1); }
  }

  /** The table has an entry for every allocation line, in order: `public` makes a public variable, `private` a
      private one, and `param` a private one that is a parameter. */
  lemma {:induction false} TableFollowsLines<S(!new)>(lines: seq<Line<S>>, n: nat)
    requires n <= |lines| && AllocTable(lines, n).Some?
    ensures |AllocTable(lines, n).value| == AllocCount(lines, n)
    ensures forall k :: 0 <= k < n && lines[k].command.Alloc? ==>
      var i := AllocCount(lines, k);
      && i < AllocCount(lines, n) && |lines[k].args| == 1
      && var v := AllocTable(lines, n).value[i];
         && v.symbol == lines[k].args[0] && v.index == i
         && (v.kind == Vm.Public <==> lines[k].command.alloc == Public)
         && (v.isParam <==> lines[k].command.alloc == Param)
  {
    hide FindVariable;
    if n > 0 {
      TableFollowsLines(lines, n - 1);
      forall k | 0 <= k < n && lines[k].command.Alloc? ensures AllocCount(lines, k) < AllocCount(lines, n) {
        AllocCountGrows(lines, k, n);
      }
    }
  }

  /** Every entry of the table comes from a line. */
  lemma {:induction false} EntryHasLine<S>(lines: seq<Line<S>>, n: nat, i: nat) returns (k: nat)
    requires n <= |lines| && i < AllocCount(lines, n)
    ensures k < n && lines[k].command.Alloc? && AllocCount(lines, k) == i
  {
    if i == AllocCount(lines, n - 1) { k := n - 1; } else { k := EntryHasLine(lines, n - 1, i); }
  }

  /* ----- operations ----- */

  datatype Ref = AuxRef(index: nat) | LocalRef(index: nat) | ConstRef(index: nat)

  datatype Operation<+S> = Operation(command: OpCommand, args: seq<Ref>, line: Line<S>)

  /** What the operations are compiled against: the allocation table, the slots of the locals
      declared so far, and the symbols of the constants in the order of their indices. */
  datatype Scope<S> = Scope(alloc: seq<Variable<S>>, locals: map<S, nat>, constants: seq<S>)

  function FindConstant<S(==)>(constants: seq<S>, symbol: S): Option<nat> {
    if constants == [] then None
    else if constants[|constants| - 1] == symbol then Some(|constants| - 1)
    else FindConstant(constants[..|constants| - 1], symbol)
  }

  function Resolve<S(==)>(scope: Scope<S>, symbol: S): Option<Ref> {
    if FindVariable(scope.alloc, symbol).Some? then Some(AuxRef(FindVariable(scope.alloc, symbol).value.index))
    else if symbol in scope.locals then Some(LocalRef(scope.locals[symbol]))
    else if FindConstant(scope.constants, symbol).Some? then Some(ConstRef(FindConstant(scope.constants, symbol).value))
    else None
  }

  function ResolveAll<S(==)>(scope: Scope<S>, symbols: seq<S>): (r: Option<seq<Ref>>)
    ensures r.Some? ==> |r.value| == |symbols|
    ensures r.Some? <==> forall i :: 0 <= i < |symbols| ==> Resolve(scope, symbols[i]).Some?
    ensures r.Some? ==> forall i :: 0 <= i < |symbols| ==> r.value[i] == Resolve(scope, symbols[i]).value
    decreases |symbols|
  {
    if symbols == [] then Some([])
    else
      var init, last := ResolveAll(scope, symbols[..|symbols| - 1]), Resolve(scope, symbols[|symbols| - 1]);
      if init.None? || last.None? then None else Some(init.value + [last.value])
  }

  /** `symbols_list_to_refs` */
  method SymbolsToRefs<S(==)>(scope: Scope<S>, symbols: seq<S>) returns (r: Option<seq<Ref>>)
    ensures r == ResolveAll(scope, symbols)
  {
    var indexes: seq<Ref> := [];
    for i := 0 to |symbols|
      invariant |indexes| == i
      invariant forall k :: 0 <= k < i ==> Resolve(scope, symbols[k]) == Some(indexes[k])
    {
      var index := Resolve(scope, symbols[i]);
      if index.None? {
        return None;
      }
      indexes := indexes + [index.value];
    }
    assert indexes == ResolveAll(scope, symbols).value;
    r := Some(indexes);
  }

  /** `local` binds the symbol to the number of symbols bound so far, even if it is one of them. */
  function Declare<S(==)>(locals: map<S, nat>, symbol: S): map<S, nat> {
    locals[symbol := |locals|]
  }

  /** The only checks on kinds: `load` wants a constant second, the others none at all. */
  predicate KindsChecked(c: OpCommand, refs: seq<Ref>) {
    if c == Load then |refs| == 2 && refs[1].ConstRef? else forall i :: 0 <= i < |refs| ==> !refs[i].ConstRef?
  }

  /** One line: the new scope, and the operation if it is one. */
  function CompileOp<S(==)>(scope: Scope<S>, line: Line<S>): Option<(Scope<S>, seq<Operation<S>>)> {
    if !line.command.Op? then Some((scope, []))
    else if |line.args| != Arity(line.command) then None
    else if line.command.op == Local then
      Some((scope.(locals := Declare(scope.locals, line.args[0])), [Operation(Local, [], line)]))
    else
      var refs := ResolveAll(scope, line.args);
      if refs.None? || !KindsChecked(line.command.op, refs.value) then None
      else Some((scope, [Operation(line.command.op, refs.value, line)]))
  }

  /** The scope and the operations after the first n lines. */
  function OpsTable<S(==)>(scope: Scope<S>, lines: seq<Line<S>>, n: nat): Option<(Scope<S>, seq<Operation<S>>)>
    requires n <= |lines|
  {
    if n == 0 then Some((scope, []))
    else
      var before := OpsTable(scope, lines, n - 1);
      if before.None? then None
      else
        var next := CompileOp(before.value.0, lines[n - 1]);
        if next.None? then None else Some((next.value.0, before.value.1 + next.value.1))
  }

  lemma {:induction false} NoOpsStay<S>(scope: Scope<S>, lines: seq<Line<S>>, m: nat, n: nat)
    requires m <= n <= |lines| && OpsTable(scope, lines, m).None?
    ensures OpsTable(scope, lines, n).None?
    decreases n
  {
    if m < n { NoOpsStay(scope, lines, m, n - 1); }
  }

  method GenerateOpsTable<S(==)>(lines: seq<Line<S>>, alloc: seq<Variable<S>>, constants: seq<S>)
    returns (r: Option<seq<Operation<S>>>)
    ensures var t := OpsTable(Scope(alloc, map[], constants), lines, |lines|);
            r == if t.None? then None else Some(t.value.1)
  {
    hide ResolveAll, Resolve, KindsChecked, FindVariable, FindConstant, Declare;
    var ops: seq<Operation<S>> := [];
    var localVars: map<S, nat> := map[];
    ghost var start := Scope(alloc, map[], constants);
    for n := 0 to |lines|
      invariant OpsTable(start, lines, n) == Some((Scope(alloc, localVars, constants), ops))
    {
      var line := lines[n];
      if line.command.Op? {
        var indexes: seq<Ref> := [];
        if |line.args| != Arity(line.command) {
          NoOpsStay(start, lines, n + 1, |lines|);
          return None;
        }
        if line.command.op == Local {
          localVars := Declare(localVars, line.args[0]);
        } else {
          var refs := SymbolsToRefs(Scope(alloc, localVars, constants), line.args);
          if refs.None? || !KindsChecked(line.command.op, refs.value) {
            NoOpsStay(start, lines, n + 1, |lines|);
            return None;
          }
          indexes := refs.value;
        }
        ops := ops + [Operation(line.command.op, indexes, line)];
      } else {
        assert ops + [] == ops;
      }
    }
    r := Some(ops);
  }

  /* ----- constraints ----- */

  /** An argument of a constraint: an index, or for a constant the pair stored in its table. */
  datatype LcArg = Index(index: nat) | ConstantEntry(const_: nat)

  datatype ConstraintLine<+S> = ConstraintLine(command: ConstraintCommand, args: seq<LcArg>, line: Line<S>)

  function ResolveLcArg<S(==)>(alloc: seq<Variable<S>>, constants: seq<S>, symbol: S): Option<LcArg> {
    if FindVariable(alloc, symbol).Some? then Some(Index(FindVariable(alloc, symbol).value.index))
    else if FindConstant(constants, symbol).Some? then Some(ConstantEntry(FindConstant(constants, symbol).value))
    else None
  }

  function ResolveLcArgs<S(==)>(alloc: seq<Variable<S>>, constants: seq<S>, symbols: seq<S>): (r: Option<seq<LcArg>>)
    ensures r.Some? ==> |r.value| == |symbols|
    ensures r.Some? <==> forall i :: 0 <= i < |symbols| ==> ResolveLcArg(alloc, constants, symbols[i]).Some?
    ensures r.Some? ==> forall i :: 0 <= i < |symbols| ==>
      r.value[i] == ResolveLcArg(alloc, constants, symbols[i]).value
    decreases |symbols|
  {
    if symbols == [] then Some([])
    else
      var init := ResolveLcArgs(alloc, constants, symbols[..|symbols| - 1]);
      var last := ResolveLcArg(alloc, constants, symbols[|symbols| - 1]);
      if init.None? || last.None? then None else Some(init.value + [last.value])
  }

  /** `symbols_list_to_lcargs` */
  method SymbolsToLcArgs<S(==)>(alloc: seq<Variable<S>>, constants: seq<S>, symbols: seq<S>)
    returns (r: Option<seq<LcArg>>)
    ensures r == ResolveLcArgs(alloc, constants, symbols)
  {
    var lcargs: seq<LcArg> := [];
    for i := 0 to |symbols|
      invariant |lcargs| == i
      invariant forall k :: 0 <= k < i ==> ResolveLcArg(alloc, constants, symbols[k]) == Some(lcargs[k])
    {
      var arg := ResolveLcArg(alloc, constants, symbols[i]);
      if arg.None? {
        return None;
      }
      lcargs := lcargs + [arg.value];
    }
    assert lcargs == ResolveLcArgs(alloc, constants, symbols).value;
    r := Some(lcargs);
  }

  function CompileConstraint<S(==)>(alloc: seq<Variable<S>>, constants: seq<S>,
                                    line: Line<S>): Option<seq<ConstraintLine<S>>> {
    if !line.command.Constrain? then Some([])
    else if |line.args| != Arity(line.command) then None
    else
      var args := ResolveLcArgs(alloc, constants, line.args);
      if args.None? then None else Some([ConstraintLine(line.command.constraint, args.value, line)])
  }

  function ConstraintsTable<S(==)>(alloc: seq<Variable<S>>, constants: seq<S>, lines: seq<Line<S>>,
                                   n: nat): Option<seq<ConstraintLine<S>>>
    requires n <= |lines|
  {
    if n == 0 then Some([])
    else
      var before := ConstraintsTable(alloc, constants, lines, n - 1);
      var next := CompileConstraint(alloc, constants, lines[n - 1]);
      if before.None? || next.None? then None else Some(before.value + next.value)
  }

  lemma {:induction false} NoConstraintsStay<S>(alloc: seq<Variable<S>>, constants: seq<S>, lines: seq<Line<S>>, m: nat,
                                                n: nat)
    requires m <= n <= |lines| && ConstraintsTable(alloc, constants, lines, m).None?
    ensures ConstraintsTable(alloc, constants, lines, n).None?
    decreases n
  {
    if m < n { NoConstraintsStay(alloc, constants, lines, m, n - 1); }
  }

  method GenerateConstraintsTable<S(==)>(lines: seq<Line<S>>, alloc: seq<Variable<S>>, constants: seq<S>)
    returns (r: Option<seq<ConstraintLine<S>>>)
    ensures r == ConstraintsTable(alloc, constants, lines, |lines|)
  {
    var out: seq<ConstraintLine<S>> := [];
    for n := 0 to |lines|
      invariant ConstraintsTable(alloc, constants, lines, n) == Some(out)
    {
      var line := lines[n];
      if line.command.Constrain? {
        if |line.args| != Arity(line.command) {
          NoConstraintsStay(alloc, constants, lines, n + 1, |lines|);
          return None;
        }
        var lcargs := SymbolsToLcArgs(alloc, constants, line.args);
        if lcargs.None? {
          NoConstraintsStay(alloc, constants, lines, n + 1, |lines|);
          return None;
        }
        out := out + [ConstraintLine(line.command.constraint, lcargs.value, line)];
      } else {
        assert out + [] == out;
      }
    }
    r := Some(out);
  }

  /* ----- contracts ----- */

  datatype Contract<+S> = Contract(constants: seq<S>, alloc: seq<Variable<S>>, ops: seq<Operation<S>>,
                                   constraints: seq<ConstraintLine<S>>)

  function Compiled<S(==)>(lines: seq<Line<S>>, constants: seq<S>): Option<Contract<S>> {
    var alloc := AllocTable(lines, |lines|);
    if alloc.None? then None
    else
      var ops := OpsTable(Scope(alloc.value, map[], constants), lines, |lines|);
      var constraints := ConstraintsTable(alloc.value, constants, lines, |lines|);
      if ops.None? || constraints.None? then None
      else Some(Contract(constants, alloc.value, ops.value.1, constraints.value))
  }

  method Compile<S(==)>(lines: seq<Line<S>>, constants: seq<S>) returns (r: Option<Contract<S>>)
    ensures r == Compiled(lines, constants)
  {
    var alloc := GenerateAllocTable(lines);
    if alloc.None? {
      return None;
    }
    var ops := GenerateOpsTable(lines, alloc.value, constants);
    if ops.None? {
      return None;
    }
    var constraints := GenerateConstraintsTable(lines, alloc.value, constants);
    if constraints.None? {
      return None;
    }
    r := Some(Contract(constants, alloc.value, ops.value, constraints.value));
  }
}
