/** From a compiled contract through its bytes to the machine. */
module ContractRoundTrip {
  import opened Wrappers
  import opened Bytes
  import opened Endian
  import opened Utf8
  import opened Serial
  import opened Assembly
  import opened Compiler
  import opened Simulation
  import opened CompilerCorrect
  import opened ContractFormat
  import opened ContractExporter
  import C = Circuit
  import Vm

  /* ----- operations ----- */

  lemma {:induction false} ArgsAreRefs(load: bool, args: seq<Ref>, kind: Option<byte>, refs: seq<Vm.VariableRef>,
                                       n: nat)
    requires n <= |refs| <= |args| && (load ==> |refs| <= 1)
    requires forall i :: 0 <= i < |refs| ==> LowerRef(args[i]) == Some(refs[i]) && Fits(refs[i].index)
    ensures ArgsWritten(load, args, kind, n).Some?
    ensures ArgsWritten(load, args, kind, n).value.0 == Joined(RefBytes, refs[..n])
  {
    hide LeBytes;
    if n > 0 {
      ArgsAreRefs(load, args, kind, refs, n - 1);
      assert LowerRef(args[n - 1]) == Some(refs[n - 1]);
      JoinedGrows(RefBytes, refs[..n - 1], refs[n - 1]);
      assert refs[..n] == refs[..n - 1] + [refs[n - 1]];
    }
  }

  /** An operation that lowers is written as the bytes of its instruction, whatever the kind before it. */
  lemma {:induction false} LoweredIsWritten(o: Operation<Name>, op: Vm.CryptoOperation, kind: Option<byte>)
    requires LowerOp(o) == Some(op) && Encodable(op)
    ensures OpWritten(o, kind).Some? && OpWritten(o, kind).value.0 == OpBytes(op)
  {
    hide LowerOp, OpTag, OpIdent, RefsOf, LeBytes, VarIntBytes, ValidUtf8, Joined;
    LoweredOp(o, op);
    var refs := RefsOf(op);
    ArgsAreRefs(o.command == Load, o.args, kind, refs, |refs|);
    assert refs[..|refs|] == refs;
    if o.command == Load {
      assert ArgsWritten(true, o.args, kind, 2).value.0 == Joined(RefBytes, refs) + LeBytes(op.const_, 4);
    } else {
      assert Joined(RefBytes, refs) + [] == Joined(RefBytes, refs);
    }
    assert [OpTag(op)] + (if op.Debug? then BytesBytes(op.text)
                          else []) + (Joined(RefBytes, refs) + (if op.Load? then LeBytes(op.const_, 4) else []))
        == OpBytes(op);
  }

  /** A load into constant i is written as a load into the variable or the local number i, by the kind of
      the last reference before it; if there is none it is an exception. */
  lemma {:induction false} LoadIntoConstantWritten(o: Operation<Name>, kind: Option<byte>, i: nat, j: nat,
                                                   tail: seq<byte>)
    requires o.command == Load && o.args == [ConstRef(i), ConstRef(j)] && Fits(i) && Fits(j)
    requires kind.Some? ==> kind.value <= 1
    ensures match kind
            case None => OpWritten(o, kind) == None
            case Some(k) =>
              var op := Vm.Load(if k == 0 then Vm.Aux(i) else Vm.Local(i), j);
              OpWritten(o, kind) == Some((OpBytes(op), kind)) && ParseOp(OpBytes(op) + tail) == Parsed(op, tail)
  {
    hide LeBytes, ParseOp;
    var args := o.args;
    if kind.None? {
      assert ArgsWritten(true, args, kind, 1) == None;
      NoArgsAfterFailure(true, args, kind, 1, 2);
    } else {
      var op := Vm.Load(if kind.value == 0 then Vm.Aux(i) else Vm.Local(i), j);
      assert ArgsWritten(true, args, kind, 1) == Some(([] + [kind.value] + LeBytes(i, 4), kind));
      assert ArgsWritten(true, args, kind, 2) == Some(([] + [kind.value] + LeBytes(i, 4) + LeBytes(j, 4), kind));
      OneRef(op.dst);
      assert OpBytes(op) == [10] + [] + ([] + [kind.value] + LeBytes(i, 4) + LeBytes(j, 4));
      OpRoundTrip(op, tail);
    }
  }

  lemma OneRef(r: Vm.VariableRef)
    ensures Joined(RefBytes, [r]) == RefBytes(r)
  {
    assert [r][1..] == [];
    assert RefBytes(r) + [] == RefBytes(r);
  }

  /** Every number of the operation fits its field, and its text is a string. */
  predicate OpFits(o: Operation<Name>) {
    (forall i :: 0 <= i < |o.args| ==> Fits(o.args[i].index)) && ValidUtf8(o.line.text) && |o.line.text| < U64
  }

  lemma {:induction false} FittingIsEncodable(o: Operation<Name>, op: Vm.CryptoOperation)
    requires OpFits(o) && LowerOp(o) == Some(op)
    ensures Encodable(op)
  {
    hide LowerOp, RefsOf, OpIdent, OpTag, ValidUtf8;
    LoweredOp(o, op);
    forall i | 0 <= i < |RefsOf(op)| ensures Fits(RefsOf(op)[i].index) {
      assert LowerRef(o.args[i]) == Some(RefsOf(op)[i]);
    }
    assert op.Load? ==> op.const_ == o.args[1].index;
  }

  /** The references of the instruction are those of the symbols of the line. */
  predicate RefersAs(scope: Scope<Name>, line: Line<Name>, op: Vm.CryptoOperation) {
    |RefsOf(op)| <= |line.args| && forall i :: 0 <= i < |RefsOf(op)| ==>
      match Resolve(scope, line.args[i])
      case Some(AuxRef(k)) => RefsOf(op)[i] == Vm.Aux(k)
      case Some(LocalRef(k)) => RefsOf(op)[i] == Vm.Local(k)
      case _ => false
  }

  /** The bytes of the operation are read back as an instruction that refers to what the line names. */
  ghost predicate WrittenRight(scope: Scope<Name>, line: Line<Name>, o: Operation<Name>, kind: Option<byte>,
                               tail: seq<byte>) {
    && OpWritten(o, kind).Some?
    && var p := ParseOp(OpWritten(o, kind).value.0 + tail);
      p.Parsed? && p.rest == tail && RefersAs(scope, line, p.value)
  }

  /** An operation line is exported right exactly when it is no load into a constant: the compiler
      checks the second argument of a load but not its first. */
  lemma {:induction false} WrittenRightIffTargetNotConstant(scope: Scope<Name>, line: Line<Name>, kind: Option<byte>,
                                                            tail: seq<byte>)
    requires line.command.Op? && CompileOp(scope, line).Some? && OpFits(CompileOp(scope, line).value.1[0])
    requires kind.Some? ==> kind.value <= 1
    ensures WrittenRight(scope, line, CompileOp(scope, line).value.1[0], kind, tail)
       <==> !(line.command.op == Load && Resolve(scope, line.args[0]).value.ConstRef?)
  {
    hide Resolve, LowerOp, OpWritten, ParseOp, OpBytes, Encodable, ValidUtf8, RefsOf;
    var o := CompileOp(scope, line).value.1[0];
    EncodableIffTargetNotConstant(scope, line);
    if LowerOp(o).Some? {
      var op := LowerOp(o).value;
      FittingIsEncodable(o, op);
      LoweredIsWritten(o, op, kind);
      OpRoundTrip(op, tail);
      LoweredRefers(scope, line, op);
    } else {
      var (i, j) := (o.args[0].index, o.args[1].index);
      assert o.args == [ConstRef(i), ConstRef(j)];
      LoadIntoConstantWritten(o, kind, i, j, tail);
      if kind.Some? {
        LoadRefers(Vm.Load(if kind.value == 0 then Vm.Aux(i) else Vm.Local(i), j));
      }
    }
  }

  lemma LoadRefers(op: Vm.CryptoOperation)
    requires op.Load?
    ensures RefsOf(op) == [op.dst]
  {}

  lemma {:induction false} LoweredRefers(scope: Scope<Name>, line: Line<Name>, op: Vm.CryptoOperation)
    requires line.command.Op? && CompileOp(scope, line).Some? && LowerOp(CompileOp(scope, line).value.1[0]) == Some(op)
    ensures RefersAs(scope, line, op)
  {
    hide Resolve, LowerOp, RefsOf, OpIdent, OpTag;
    var o := CompileOp(scope, line).value.1[0];
    LoweredOp(o, op);
    forall i | 0 <= i < |RefsOf(op)|
      ensures match Resolve(scope, line.args[i])
              case Some(AuxRef(k)) => RefsOf(op)[i] == Vm.Aux(k)
              case Some(LocalRef(k)) => RefsOf(op)[i] == Vm.Local(k)
              case _ => false
    {
      assert LowerRef(o.args[i]) == Some(RefsOf(op)[i]);
      assert o.args[i] == Resolve(scope, line.args[i]).value;
    }
  }

  /** The kind of a reference is 0 or 1 where there is one. */
  lemma {:induction false} KindsAreKinds(ops: seq<Operation<Name>>, n: nat)
    requires n <= |ops| && OpsWritten(ops, n).Some?
    ensures var k := OpsWritten(ops, n).value.1; k.Some? ==> k.value <= 1
  {
    if n > 0 {
      KindsAreKinds(ops, n - 1);
      var o, kind := ops[n - 1], OpsWritten(ops, n - 1).value.1;
      ArgKinds(o.command == Load, o.args, kind, |o.args|);
    }
  }

  lemma {:induction false} ArgKinds(load: bool, args: seq<Ref>, kind: Option<byte>, n: nat)
    requires n <= |args| && ArgsWritten(load, args, kind, n).Some? && (kind.Some? ==> kind.value <= 1)
    ensures var k := ArgsWritten(load, args, kind, n).value.1; k.Some? ==> k.value <= 1
  {
    if n > 0 { ArgKinds(load, args, kind, n - 1); }
  }

  /** A constraint is written exactly when it has an instruction and its numbers fit. */
  lemma {:induction false} ConstraintWrittenIffLowers(alloc: seq<Variable<Name>>, constants: seq<Name>,
                                                      line: Line<Name>)
    requires line.command.Constrain? && CompileConstraint(alloc, constants, line).Some?
    ensures var k := CompileConstraint(alloc, constants, line).value[0];
            ConstraintWritten(k).Some?
            <==> LowerConstraint(k).Some? && forall i :: 0 <= i < |k.args| ==>
                   Fits(if k.args[i].Index? then k.args[i].index else k.args[i].const_)
  {
    hide FindVariable, FindConstant, LeBytes;
    var k := CompileConstraint(alloc, constants, line).value[0];
    WrittenArgs(TakesConstant(k.command), k.args, |k.args|);
  }

  lemma {:induction false} WrittenArgs(constantFirst: bool, args: seq<LcArg>, n: nat)
    requires n <= |args|
    ensures LcArgsWritten(constantFirst, args, n).Some?
       <==> forall i :: 0 <= i < n ==>
              (args[i].ConstantEntry? <==> constantFirst && i == 0)
              && Fits(if args[i].Index? then args[i].index else args[i].const_)
  {
    hide LeBytes;
    if n > 0 { WrittenArgs(constantFirst, args, n - 1); }
  }

  /* ----- whole contracts ----- */

  lemma {:induction false} AllAreJoined<A, B>(f: A -> Option<seq<byte>>, e: B -> seq<byte>, xs: seq<A>, ys: seq<B>,
                                              n: nat)
    requires |xs| == |ys| && n <= |xs| && forall i :: 0 <= i < |xs| ==> f(xs[i]) == Some(e(ys[i]))
    ensures AllWritten(f, xs, n) == Some(Joined(e, ys[..n]))
  {
    if n > 0 {
      AllAreJoined(f, e, xs, ys, n - 1);
      assert f(xs[n - 1]) == Some(e(ys[n - 1]));
      JoinedGrows(e, ys[..n - 1], ys[n - 1]);
      assert ys[..n] == ys[..n - 1] + [ys[n - 1]];
    }
  }

  lemma {:induction false} VecIsWritten<A, B>(f: A -> Option<seq<byte>>, e: B -> seq<byte>, xs: seq<A>, ys: seq<B>)
    requires |xs| == |ys| < U64 && forall i :: 0 <= i < |xs| ==> f(xs[i]) == Some(e(ys[i]))
    ensures VecWritten(f, xs) == Some(VecBytes(e, ys))
  {
    AllAreJoined(f, e, xs, ys, |xs|);
    assert ys[..|ys|] == ys;
  }

  lemma {:induction false} OpsAreWritten(ops: seq<Operation<Name>>, lowered: seq<Vm.CryptoOperation>, n: nat)
    requires n <= |ops| && LowerOps(ops) == Some(lowered) && forall i :: 0 <= i < |lowered| ==> Encodable(lowered[i])
    ensures OpsWritten(ops, n).Some? && OpsWritten(ops, n).value.0 == Joined(OpBytes, lowered[..n])
  {
    hide LowerOp, OpWritten, OpBytes, Encodable;
    if n > 0 {
      OpsAreWritten(ops, lowered, n - 1);
      assert lowered[n - 1] == LowerOp(ops[n - 1]).value;
      LoweredIsWritten(ops[n - 1], lowered[n - 1], OpsWritten(ops, n - 1).value.1);
      JoinedGrows(OpBytes, lowered[..n - 1], lowered[n - 1]);
      assert lowered[..n] == lowered[..n - 1] + [lowered[n - 1]];
    }
  }

  lemma {:induction false} LcArgsAreIndices(k: ConstraintLine<Name>, c: C.ConstraintInstruction, n: nat)
    requires LowerConstraint(k) == Some(c) && ConstraintFits(c) && n <= |k.args|
    ensures |ConstraintArgs(c)| == |k.args|
    ensures LcArgsWritten(TakesConstant(k.command), k.args, n) == Some(Joined(IndexBytes, ConstraintArgs(c)[..n]))
  {
    hide LowerConstraint, ConstraintArgs, LeBytes;
    LoweredConstraint(k, c);
    if n > 0 {
      LcArgsAreIndices(k, c, n - 1);
      var all := ConstraintArgs(c);
      JoinedGrows(IndexBytes, all[..n - 1], all[n - 1]);
      assert all[..n] == all[..n - 1] + [all[n - 1]];
    }
  }

  lemma {:induction false} ConstraintIsWritten(k: ConstraintLine<Name>, c: C.ConstraintInstruction)
    requires LowerConstraint(k) == Some(c) && ConstraintFits(c)
    ensures ConstraintWritten(k) == Some(ConstraintBytes(c))
  {
    hide LowerConstraint, ConstraintArgs, LcArgsWritten;
    LoweredConstraint(k, c);
    LcArgsAreIndices(k, c, |k.args|);
    assert ConstraintArgs(c)[..|k.args|] == ConstraintArgs(c);
  }

  /** What is exported of a compiled contract that lowers. */
  ghost predicate Lowers(c: Contract<Name>, values: seq<nat>, x: Export) {
    && LowerOps(c.ops) == Some(x.ops) && LowerConstraints(c.constraints) == Some(x.constraints)
    && x.alloc == c.alloc && x.values == values
  }

  /** The exporter writes the bytes of the format. */
  lemma {:induction false} ExportIsContractBytes(name: Name, c: Contract<Name>, values: seq<nat>, x: Export)
    requires Exportable(name, x) && Lowers(c, values, x)
    ensures ContractWritten(name, c, values) == Some(ContractBytes(name, x))
  {
    hide ValidUtf8, CharCount, VarIntBytes, VecBytes, LowerOps, LowerConstraints, Pairs, Pow256, Encodable,
         ConstraintFits, WellFormedTable, VecWritten, OpsWritten, ScalarBytes, ConstraintWritten, ConstraintBytes,
         IsAscii;
    CountIsLengthIffAscii(name);
    VecIsWritten(ConstantWritten, ScalarBytes, values, values);
    forall i | 0 <= i < |c.alloc| ensures VariableWritten(c.alloc[i]) == Some(AllocBytes(Allocs(c.alloc)[i])) {
      assert PairFits((x.alloc[i].symbol, x.alloc[i].index));
    }
    VecIsWritten(VariableWritten, AllocBytes, c.alloc, Allocs(c.alloc));
    OpsAreWritten(c.ops, x.ops, |c.ops|);
    WholeOps(c.ops, x.ops);
    forall i | 0 <= i < |c.constraints| ensures ConstraintWritten(c.constraints[i])
      == Some(ConstraintBytes(x.constraints[i])) {
      LoweredAt(c, x, i);
      ConstraintIsWritten(c.constraints[i], x.constraints[i]);
    }
    LoweredLength(c, x);
    VecIsWritten(ConstraintWritten, ConstraintBytes, c.constraints, x.constraints);
    PairsFit(x, false);
    PairsFit(x, true);
    VecIsWritten(PairWritten, PairBytes, Pairs(c.alloc, false), Pairs(c.alloc, false));
    VecIsWritten(PairWritten, PairBytes, Pairs(c.alloc, true), Pairs(c.alloc, true));
    Grouped(VarIntBytes(CharCount(name)) + name + VecBytes(ScalarBytes, x.values),
            VecBytes(AllocBytes, Allocs(x.alloc)),
            VecBytes(OpBytes, x.ops), VecBytes(ConstraintBytes, x.constraints),
              VecBytes(PairBytes, Pairs(c.alloc, false)),
            VecBytes(PairBytes, Pairs(c.alloc, true)));
  }

  lemma {:induction false} LoweredAt(c: Contract<Name>, x: Export, i: nat)
    requires LowerConstraints(c.constraints) == Some(x.constraints) && i < |c.constraints|
    ensures |x.constraints| == |c.constraints| && LowerConstraint(c.constraints[i]) == Some(x.constraints[i])
  {}

  lemma {:induction false} LoweredLength(c: Contract<Name>, x: Export)
    requires LowerConstraints(c.constraints) == Some(x.constraints)
    ensures |x.constraints| == |c.constraints|
  {}

  lemma {:induction false} WholeOps(ops: seq<Operation<Name>>, lowered: seq<Vm.CryptoOperation>)
    requires LowerOps(ops) == Some(lowered) && OpsWritten(ops, |ops|).Some?
    requires OpsWritten(ops, |ops|).value.0 == Joined(OpBytes, lowered[..|ops|])
    ensures |lowered| == |ops| && VarIntBytes(|ops|) + OpsWritten(ops, |ops|).value.0 == VecBytes(OpBytes, lowered)
  {
    assert lowered[..|ops|] == lowered;
  }

  lemma {:induction false} Grouped(a: seq<byte>, b: seq<byte>, c: seq<byte>, d: seq<byte>, e: seq<byte>, f: seq<byte>)
    ensures a + (b + c + d) + (e + f) == a + b + c + d + e + f
  {}
}
