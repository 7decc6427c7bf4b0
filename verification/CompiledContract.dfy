/** Compiling, exporting, decoding and running: what the machine is given is what the source says. */
module CompiledContract {
  import opened Wrappers
  import opened Bytes
  import opened Endian
  import opened Utf8
  import opened Serial
  import opened Field
  import opened Assembly
  import opened Compiler
  import opened Simulation
  import opened LocalSlots
  import opened CompilerCorrect
  import opened ContractFormat
  import opened ContractExporter
  import opened ContractRoundTrip
  import C = Circuit
  import Vm

  const INDICES: nat := 0x1_0000_0000

  predicate IsText(s: Name) { ValidUtf8(s) && |s| < U64 }

  /** Source texts that the format has room for: every line and every constant can be numbered in 32 bits. */
  ghost predicate Moderate(lines: seq<Line<Name>>, constants: seq<Name>) {
    && |lines| <= INDICES && |constants| <= INDICES
    && (forall n :: 0 <= n < |lines| ==> IsText(lines[n].text))
    && (forall n, i :: 0 <= n < |lines| && 0 <= i < |lines[n].args| ==> IsText(lines[n].args[i]))
  }

  /* ----- every number fits ----- */

  lemma {:induction false} TableFits(lines: seq<Line<Name>>, n: nat)
    requires n <= |lines| && AllocTable(lines, n).Some?
    requires forall n, i :: 0 <= n < |lines| && 0 <= i < |lines[n].args| ==> IsText(lines[n].args[i])
    ensures var t := AllocTable(lines, n).value; |t| <= n && forall i :: 0 <= i < |t| ==> IsText(t[i].symbol)
  {
    hide ValidUtf8, FindVariable;
    if n > 0 { TableFits(lines, n - 1); }
  }

  lemma {:induction false} ConstantFits(constants: seq<Name>, s: Name)
    ensures FindConstant(constants, s).Some? ==> FindConstant(constants, s).value < |constants|
  {
    FindConstantInRange(constants, s);
  }

  /** Every symbol of the scope has a small index. */
  ghost predicate SmallScope(scope: Scope<Name>, n: nat) {
    && |scope.constants| <= INDICES && |scope.alloc| <= INDICES && WellFormedTable(scope.alloc)
    && |scope.locals| <= n && forall s :: s in scope.locals ==> scope.locals[s] < n
  }

  lemma {:induction false} ResolvedFits(scope: Scope<Name>, s: Name, n: nat)
    requires SmallScope(scope, n) && n <= INDICES
    ensures Resolve(scope, s).Some? ==> Fits(Resolve(scope, s).value.index)
  {
    hide FindVariable, FindConstant;
    FindIsPosition(scope.alloc, s);
    ConstantFits(scope.constants, s);
  }

  /** Slots stay below the number of lines. */
  lemma {:induction false} ScopeStaysSmall(scope: Scope<Name>, line: Line<Name>, n: nat)
    requires SmallScope(scope, n) && n < INDICES && CompileOp(scope, line).Some? && IsText(line.text)
    ensures var (next, ops) := CompileOp(scope, line).value;
            SmallScope(next, n + 1) && |ops| <= 1 && forall i :: 0 <= i < |ops| ==> OpFits(ops[i])
  {
    hide Resolve, ValidUtf8;
    if line.command.Op? && line.command.op == Local { DeclareSize(scope.locals, line.args[0]); }
    forall i | 0 <= i < |line.args| ensures Resolve(scope, line.args[i]).Some? ==>
      Fits(Resolve(scope, line.args[i]).value.index) {
      ResolvedFits(scope, line.args[i], n);
    }
  }

  lemma {:induction false} OpsFit(scope: Scope<Name>, lines: seq<Line<Name>>, n: nat)
    requires n <= |lines| <= INDICES && SmallScope(scope, 0) && OpsTable(scope, lines, n).Some?
    requires forall n :: 0 <= n < |lines| ==> IsText(lines[n].text)
    ensures var (next, ops) := OpsTable(scope, lines, n).value;
            SmallScope(next, n) && |ops| <= n && forall i :: 0 <= i < |ops| ==> OpFits(ops[i])
  {
    hide SmallScope, CompileOp, OpFits, IsText;
    if n > 0 {
      OpsFit(scope, lines, n - 1);
      ScopeStaysSmall(OpsTable(scope, lines, n - 1).value.0, lines[n - 1], n - 1);
    }
  }

  predicate LcArgFits(a: LcArg) {
    match a
    case Index(i) => Fits(i)
    case ConstantEntry(k) => Fits(k)
  }

  lemma {:induction false} ConstraintsFit(alloc: seq<Variable<Name>>, constants: seq<Name>, lines: seq<Line<Name>>,
                                          n: nat)
    requires n <= |lines| && ConstraintsTable(alloc, constants, lines, n).Some?
    requires WellFormedTable(alloc) && |alloc| <= INDICES && |constants| <= INDICES
    ensures var ks := ConstraintsTable(alloc, constants, lines, n).value;
            |ks| <= n && forall i, j :: 0 <= i < |ks| && 0 <= j < |ks[i].args| ==> LcArgFits(ks[i].args[j])
  {
    hide FindVariable, FindConstant;
    if n > 0 {
      ConstraintsFit(alloc, constants, lines, n - 1);
      forall s ensures ResolveLcArg(alloc, constants, s).Some? ==> LcArgFits(ResolveLcArg(alloc, constants, s).value) {
        FindIsPosition(alloc, s);
        ConstantFits(constants, s);
      }
    }
  }

  lemma {:induction false} LoweredFits(k: ConstraintLine<Name>, c: C.ConstraintInstruction)
    requires LowerConstraint(k) == Some(c) && forall j :: 0 <= j < |k.args| ==> LcArgFits(k.args[j])
    ensures ConstraintFits(c)
  {
    hide LowerConstraint, ConstraintArgs, ConstraintIdent, ConstraintTag;
    LoweredConstraint(k, c);
    forall i | 0 <= i < |ConstraintArgs(c)| ensures Fits(ConstraintArgs(c)[i]) { assert LcArgFits(k.args[i]); }
  }

  /* ----- compiled contracts can be exported ----- */

  /** What a compiled contract is exported as. */
  function ExportOf(c: Contract<Name>, values: seq<Fp>): Export
    requires LowerOps(c.ops).Some? && LowerConstraints(c.constraints).Some?
  {
    Export(values, c.alloc, LowerOps(c.ops).value, LowerConstraints(c.constraints).value)
  }

  /** The contract compiles, and every line of it has an instruction. */
  predicate Lowerable(lines: seq<Line<Name>>, constants: seq<Name>, c: Contract<Name>) {
    Compiled(lines, constants) == Some(c) && LowerOps(c.ops).Some? && LowerConstraints(c.constraints).Some?
  }

  /** Everything a moderate contract is compiled to fits its field of the format. */
  lemma {:induction false} CompiledIsExportable(name: Name, lines: seq<Line<Name>>, constants: seq<Name>,
                                                c: Contract<Name>, values: seq<Fp>)
    requires Lowerable(lines, constants, c) && Moderate(lines, constants) && IsText(name)
    requires |values| == |constants| && MODULUS <= Pow256(32)
    ensures Exportable(name, ExportOf(c, values)) && Lowers(c, values, ExportOf(c, values))
    ensures Reduced(ExportOf(c, values).values)
  {
    hide ValidUtf8, Pow256, Compiler.CompileConstraint, Compiler.CompileOp, LowerOp, LowerConstraint, Encodable,
         ConstraintFits, OpFits, LcArgFits, WellFormedTable;
    var n, x := |lines|, ExportOf(c, values);
    TableFits(lines, n);
    TableIsWellFormed(lines, n);
    IndicesFit(c.alloc, n);
    OpsFit(Scope(c.alloc, map[], constants), lines, n);
    ConstraintsFit(c.alloc, constants, lines, n);
    forall i | 0 <= i < |x.ops| ensures Encodable(x.ops[i]) { FittingIsEncodable(c.ops[i], x.ops[i]); }
    forall i | 0 <= i < |x.constraints| ensures ConstraintFits(x.constraints[i]) {
      LoweredFits(c.constraints[i], x.constraints[i]);
    }
    forall i | 0 <= i < |x.values| ensures x.values[i] < Pow256(32) && x.values[i] < MODULUS {
      assert x.values[i] == values[i];
    }
  }

  lemma {:induction false} IndicesFit(alloc: seq<Variable<Name>>, n: nat)
    requires WellFormedTable(alloc) && |alloc| <= n <= INDICES
    requires forall i :: 0 <= i < |alloc| ==> IsText(alloc[i].symbol)
    ensures forall i :: 0 <= i < |alloc| ==> PairFits((alloc[i].symbol, alloc[i].index))
  {
    hide ValidUtf8;
  }

  lemma {:induction false} AsciiIsText(s: Name)
    requires IsAscii(s)
    ensures ValidUtf8(s)
  {
    if s != [] { AsciiIsText(s[1..]); }
  }

  /* ----- from the source to the machine ----- */

  /** The decoder gives the machine the contract that was compiled. */
  lemma {:induction false} CompiledIsDecoded(name: Name, lines: seq<Line<Name>>, constants: seq<Name>,
                                             c: Contract<Name>, values: seq<Fp>, tail: seq<byte>)
    requires Lowerable(lines, constants, c) && Moderate(lines, constants) && IsAscii(name) && |name| < U64
    requires |values| == |constants| && MODULUS <= Pow256(32)
    ensures ValidUtf8(name) && ContractWritten(name, c, values).Some?
    ensures ParseContract(ContractWritten(name, c, values).value + tail)
         == Parsed(Imported(name, ExportOf(c, values)), tail)
  {
    hide ValidUtf8, Pow256, Exportable, Lowers, Imported, ContractWritten, ParseContract, ContractBytes, Moderate,
         IsAscii, Lowerable, ExportOf;
    AsciiIsText(name);
    Lowering(lines, constants, c, values);
    var x := ExportOf(c, values);
    CompiledIsExportable(name, lines, constants, c, values);
    ExportIsContractBytes(name, c, values, x);
    ExportThenDecode(name, x, tail);
  }

  lemma {:induction false} Lowering(lines: seq<Line<Name>>, constants: seq<Name>, c: Contract<Name>, values: seq<Fp>)
    requires Lowerable(lines, constants, c)
    ensures LowerOps(c.ops).Some? && LowerConstraints(c.constraints).Some?
    ensures Compiled(lines, constants) == Some(c)
    ensures var x := ExportOf(c, values);
            && x.values == values && x.alloc == c.alloc
            && x.ops == LowerOps(c.ops).value && x.constraints == LowerConstraints(c.constraints).value
  {}

  /** The line declares this symbol, with `public` or with `param`, as the i-th variable. */
  predicate Declares(lines: seq<Line<Name>>, k: nat, public: bool, s: Name, i: nat) {
    k < |lines| && lines[k].command == Alloc(if public then AllocCommand.Public else Param) && lines[k].args == [s]
    && AllocCount(lines, k) == i
  }

  /** The maps of the exported names hold what `param` and `public` lines declare, and nothing else. */
  lemma {:induction false} NamesAreDeclared(lines: seq<Line<Name>>, constants: seq<Name>, c: Contract<Name>,
                                            public: bool, s: Name, i: nat)
    requires Compiled(lines, constants) == Some(c)
    ensures HasVariable(c.alloc, public, s, i)
       <==> exists k: nat :: Declares(lines, k, public, s, i)
  {
    hide Compiler.OpsTable, Compiler.ConstraintsTable, AllocTable;
    var n := |lines|;
    TableFollowsLines(lines, n);
    if HasVariable(c.alloc, public, s, i) {
      var j :| 0 <= j < |c.alloc| && Selected(c.alloc[j], public) && c.alloc[j].symbol == s && c.alloc[j].index == i;
      var k := EntryHasLine(lines, n, j);
      assert lines[k].args == [s];
      assert Declares(lines, k, public, s, i);
    }
    if k: nat :| Declares(lines, k, public, s, i) {
      assert Selected(c.alloc[i], public) && c.alloc[i].symbol == s && c.alloc[i].index == i;
    }
  }

  /** A decoded contract does what the source of the exported one says: it has a slot for each variable,
      of its kind and under its name, its operations run as the lines do, and its constraints hold when
      the constraints of the lines do. */
  ghost predicate DoesAsSource(z: ZkContract, lines: seq<Line<Name>>, constants: seq<Name>, alloc: seq<Variable<Name>>,
                               values: seq<Fp>) {
    && z.alloc == Allocs(alloc) && z.constants == values
    && IsNameMap(z.paramsMap, alloc, false) && IsNameMap(z.publicMap, alloc, true)
    && (forall aux: seq<Fp> :: |aux| == |alloc| ==>
         RelatedOutcome(alloc, SrcRun(alloc, constants, values, InitialEnv(alloc, aux), lines, |lines|),
                        Vm.Run(z.ops, z.constants, Vm.State(aux, []))))
    && C.AllExist(z.constraints, |alloc|, z.constants)
    && (forall w: seq<Fp> :: |w| == |alloc| ==>
         (C.Satisfied(C.Denotation(z.constraints, z.constants), w)
          <==> SrcChecks(lines, 0, constants, values, VarsOf(alloc, w), C.FRESH_SIDES)))
  }

  lemma {:induction false} ImportedDoesAsSource(name: Name, lines: seq<Line<Name>>, constants: seq<Name>,
                                                c: Contract<Name>, values: seq<Fp>)
    requires Lowerable(lines, constants, c) && |values| == |constants| && NoClash(LocalNames(lines, |lines|))
    requires Reduced(ExportOf(c, values).values)
    ensures DoesAsSource(Imported(name, ExportOf(c, values)), lines, constants, c.alloc, values)
  {
    hide SrcRun, SrcChecks, Vm.Run, Related, C.Satisfied, C.Denotation, IsNameMap, CollectMap, CollectBiMap, Pairs,
         InitialEnv, VarsOf, NoClash, LocalNames, Compiled, LowerOps, LowerConstraints, WellFormedTable, RelatedOutcome;
    var z := Imported(name, ExportOf(c, values));
    forall aux: seq<Fp> | |aux| == |c.alloc|
      ensures RelatedOutcome(c.alloc, SrcRun(c.alloc, constants, values, InitialEnv(c.alloc, aux), lines, |lines|),
                             Vm.Run(z.ops, z.constants, Vm.State(aux, [])))
    {
      CompiledRunsAsSource(lines, constants, c, values, aux);
    }
    CompiledConstrainsAsSource(lines, constants, c, values, seq(|c.alloc|, _ => ZERO));
    forall w: seq<Fp> | |w| == |c.alloc|
      ensures C.Satisfied(C.Denotation(z.constraints, z.constants), w)
         <==> SrcChecks(lines, 0, constants, values, VarsOf(c.alloc, w), C.FRESH_SIDES)
    {
      CompiledConstrainsAsSource(lines, constants, c, values, w);
    }
    CompiledTable(lines, constants, c);
    MapsOfNames(c.alloc, false);
    MapsOfNames(c.alloc, true);
  }

  lemma {:induction false} CompiledTable(lines: seq<Line<Name>>, constants: seq<Name>, c: Contract<Name>)
    requires Compiled(lines, constants) == Some(c)
    ensures WellFormedTable(c.alloc)
  {
    TableIsWellFormed(lines, |lines|);
  }

  /** The bytes of a compiled contract, decoded, are a contract that does what the source says. */
  lemma {:induction false} DecodedDoesAsSource(name: Name, lines: seq<Line<Name>>, constants: seq<Name>,
                                               c: Contract<Name>, values: seq<Fp>, tail: seq<byte>)
    requires Lowerable(lines, constants, c) && Moderate(lines, constants) && IsAscii(name) && |name| < U64
    requires |values| == |constants| && NoClash(LocalNames(lines, |lines|)) && MODULUS <= Pow256(32)
    ensures ValidUtf8(name) && ContractWritten(name, c, values).Some?
    ensures var z := ParseContract(ContractWritten(name, c, values).value + tail);
            z.Parsed? && z.rest == tail && z.value.name == name
            && DoesAsSource(z.value, lines, constants, c.alloc, values)
  {
    hide ValidUtf8, Pow256, Exportable, Lowers, ContractWritten, ParseContract, Moderate, IsAscii, DoesAsSource,
         NoClash, LocalNames, Lowerable, ExportOf;
    AsciiIsText(name);
    Lowering(lines, constants, c, values);
    CompiledIsExportable(name, lines, constants, c, values);
    CompiledIsDecoded(name, lines, constants, c, values, tail);
    ImportedDoesAsSource(name, lines, constants, c, values);
  }
}
