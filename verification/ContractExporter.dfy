/** compile_export_supervisor.py: writing a compiled contract. */
module ContractExporter {
  import opened Wrappers
  import opened Bytes
  import opened Endian
  import opened Utf8
  import opened Serial
  import opened Assembly
  import opened Compiler
  import opened Simulation
  import opened CompilerCorrect
  import opened ContractFormat
  import C = Circuit
  import Vm

  /** `ops_table` and `constraint_ident_map` */
  function OpIdent(c: OpCommand): byte {
    match c
    case Set => 0 case Mul => 1 case Add => 2 case Sub => 3 case Divide => 4
    case Double => 5 case Square => 6 case Invert => 7 case UnpackBits => 8
    case Local => 9 case Load => 10 case Debug => 11 case DumpAlloc => 12 case DumpLocal => 13
  }

  function ConstraintIdent(c: ConstraintCommand): byte {
    match c
    case Add(s) => SideTag(s)
    case Sub(s) => 3 + SideTag(s)
    case AddOne(s) => 6 + SideTag(s)
    case SubOne(s) => 9 + SideTag(s)
    case AddCoeff(s) => 12 + SideTag(s)
    case AddConstant(s) => 15 + SideTag(s)
    case Enforce => 18
    case CoeffReset => 19
    case CoeffDouble => 20
  }

  /** How an operation lowers, as far as its bytes are concerned. */
  lemma {:induction false} LoweredOp(o: Operation<Name>, op: Vm.CryptoOperation)
    requires LowerOp(o) == Some(op)
    ensures OpIdent(o.command) == OpTag(op) && (o.command == Debug <==> op.Debug?) && (o.command == Load <==> op.Load?)
    ensures op.Debug? ==> op.text == o.line.text
    ensures |o.args| == (if o.command == Local then 0 else Arity(Op(o.command)))
    ensures |o.args| == |RefsOf(op)| + (if op.Load? then 1 else 0)
    ensures (op.Load? ==> op.const_ == o.args[1].index && |RefsOf(op)| == 1)
    ensures forall i :: 0 <= i < |RefsOf(op)| ==> LowerRef(o.args[i]) == Some(RefsOf(op)[i])
  {}

  lemma {:induction false} LoweredConstraint(k: ConstraintLine<Name>, c: C.ConstraintInstruction)
    requires LowerConstraint(k) == Some(c)
    ensures ConstraintIdent(k.command) == ConstraintTag(c) && |k.args| == |ConstraintArgs(c)|
    ensures forall i :: 0 <= i < |k.args| ==>
      ConstraintArgs(c)[i] == (if TakesConstant(k.command) && i == 0 then k.args[i].const_ else k.args[i].index)
    ensures forall i :: 0 <= i < |k.args| ==> (k.args[i].ConstantEntry? <==> TakesConstant(k.command) && i == 0)
  {}

  /* ----- what is written, for every contract ----- */

  /* None stands for an exception: an assertion, a number that does not fit its field, a missing kind. */

  /** The parts of the first n elements, one after the other. */
  function AllWritten<T>(f: T -> Option<seq<byte>>, xs: seq<T>, n: nat): Option<seq<byte>>
    requires n <= |xs|
  {
    if n == 0 then Some([])
    else
      var before, here := AllWritten(f, xs, n - 1), f(xs[n - 1]);
      if before.None? || here.None? then None else Some(before.value + here.value)
  }

  function VecWritten<T>(f: T -> Option<seq<byte>>, xs: seq<T>): Option<seq<byte>> {
    var all := AllWritten(f, xs, |xs|);
    if |xs| >= U64 || all.None? then None else Some(VarIntBytes(|xs|) + all.value)
  }

  /** A constant is no kind of reference: the kind of the reference before it lives on, across operations. */
  function KindOf(r: Ref, kind: Option<byte>): Option<byte> {
    match r
    case AuxRef(_) => Some(0)
    case LocalRef(_) => Some(1)
    case ConstRef(_) => kind
  }

  /** The first n arguments of an operation, and the kind afterwards. The second argument of a load is an
      index, every other argument a reference. */
  function ArgsWritten(load: bool, args: seq<Ref>, kind: Option<byte>, n: nat): Option<(seq<byte>, Option<byte>)>
    requires n <= |args|
  {
    if n == 0 then Some(([], kind))
    else
      match ArgsWritten(load, args, kind, n - 1)
      case None => None
      case Some((before, last)) =>
        var arg, k := args[n - 1], KindOf(args[n - 1], last);
        if !Fits(arg.index) then None
        else if load && n == 2 then Some((before + LeBytes(arg.index, 4), k))
        else if k.None? then None
        else Some((before + [k.value] + LeBytes(arg.index, 4), k))
  }

  /** One operation; a debug line writes its text first. */
  function OpWritten(o: Operation<Name>, kind: Option<byte>): Option<(seq<byte>, Option<byte>)> {
    if |o.args| != (if o.command == Local then 0 else Arity(Op(o.command)))
      || (o.command == Debug && |o.line.text| >= U64) then None
    else
      match ArgsWritten(o.command == Load, o.args, kind, |o.args|)
      case None => None
      case Some((args, last)) =>
        Some(([OpIdent(o.command)] + (if o.command == Debug then BytesBytes(o.line.text) else []) + args, last))
  }

  function OpsWritten(ops: seq<Operation<Name>>, n: nat): Option<(seq<byte>, Option<byte>)>
    requires n <= |ops|
  {
    if n == 0 then Some(([], None))
    else
      match OpsWritten(ops, n - 1)
      case None => None
      case Some((before, kind)) =>
        match OpWritten(ops[n - 1], kind)
        case None => None
        case Some((here, last)) => Some((before + here, last))
  }

  /** A constant of a constraint is written as its index, which is asked of the first argument of the
      constant forms and of no other. */
  function LcArgWritten(constantFirst: bool, args: seq<LcArg>, i: nat): Option<seq<byte>>
    requires i < |args|
  {
    if args[i].ConstantEntry? != (constantFirst && i == 0) then None
    else
      var index: nat := if args[i].ConstantEntry? then args[i].const_ else args[i].index;
      if Fits(index) then Some(LeBytes(index, 4)) else None
  }

  function LcArgsWritten(constantFirst: bool, args: seq<LcArg>, n: nat): Option<seq<byte>>
    requires n <= |args|
  {
    if n == 0 then Some([])
    else
      var before, here := LcArgsWritten(constantFirst, args, n - 1), LcArgWritten(constantFirst, args, n - 1);
      if before.None? || here.None? then None else Some(before.value + here.value)
  }

  function ConstraintWritten(k: ConstraintLine<Name>): Option<seq<byte>> {
    match LcArgsWritten(TakesConstant(k.command), k.args, |k.args|)
    case None => None
    case Some(args) => Some([ConstraintIdent(k.command)] + args)
  }

  function ConstantWritten(value: nat): Option<seq<byte>> {
    if value < Pow256(32) then Some(ScalarBytes(value)) else None
  }

  function VariableWritten(v: Variable<Name>): Option<seq<byte>> {
    if Fits(v.index) then Some(AllocBytes((v.kind, v.index))) else None
  }

  function PairWritten(p: (Name, nat)): Option<seq<byte>> {
    if |p.0| < U64 && Fits(p.1) then Some(PairBytes(p)) else None
  }

  function ContractWritten(name: Name, c: Contract<Name>, values: seq<nat>): Option<seq<byte>>
    requires ValidUtf8(name)
  {
    var constants, alloc, ops := VecWritten(ConstantWritten, values), VecWritten(VariableWritten, c.alloc),
      OpsWritten(c.ops, |c.ops|);
    var constraints := VecWritten(ConstraintWritten, c.constraints);
    var params, publics := VecWritten(PairWritten, Pairs(c.alloc, false)),
      VecWritten(PairWritten, Pairs(c.alloc, true));
    if CharCount(name) >= U64 || constants.None? || alloc.None? || |c.ops| >= U64 || ops.None? || constraints.None?
      || params.None? || publics.None? then None
    else
      Some(VarIntBytes(CharCount(name)) + name + constants.value + alloc.value + (VarIntBytes(|c.ops|) + ops.value.0)
           + constraints.value + params.value + publics.value)
  }

  lemma {:induction false} NothingAfterFailure<T>(f: T -> Option<seq<byte>>, xs: seq<T>, m: nat, n: nat)
    requires m <= n <= |xs| && AllWritten(f, xs, m).None?
    ensures AllWritten(f, xs, n).None?
    decreases n
  {
    if m < n { NothingAfterFailure(f, xs, m, n - 1); }
  }

  lemma {:induction false} NoArgsAfterFailure(load: bool, args: seq<Ref>, kind: Option<byte>, m: nat, n: nat)
    requires m <= n <= |args| && ArgsWritten(load, args, kind, m).None?
    ensures ArgsWritten(load, args, kind, n).None?
    decreases n
  {
    if m < n { NoArgsAfterFailure(load, args, kind, m, n - 1); }
  }

  lemma {:induction false} NoOpsAfterFailure(ops: seq<Operation<Name>>, m: nat, n: nat)
    requires m <= n <= |ops| && OpsWritten(ops, m).None?
    ensures OpsWritten(ops, n).None?
    decreases n
  {
    if m < n { NoOpsAfterFailure(ops, m, n - 1); }
  }

  lemma {:induction false} NoLcArgsAfterFailure(constantFirst: bool, args: seq<LcArg>, m: nat, n: nat)
    requires m <= n <= |args| && LcArgsWritten(constantFirst, args, m).None?
    ensures LcArgsWritten(constantFirst, args, n).None?
    decreases n
  {
    if m < n { NoLcArgsAfterFailure(constantFirst, args, m, n - 1); }
  }

  /* ----- the exporter ----- */

  method ExportArgs(w: Writer, load: bool, args: seq<Ref>, kind: Option<byte>) returns (ok: bool, last: Option<byte>)
    modifies w
    ensures match ArgsWritten(load, args, kind, |args|)
            case None => !ok
            case Some((bytes, k)) => ok && last == k && w.output == old(w.output) + bytes
  {
    hide LeBytes;
    last := kind;
    for i := 0 to |args|
      invariant ArgsWritten(load, args, kind, i).Some?
      invariant last == ArgsWritten(load, args, kind, i).value.1
      invariant w.output == old(w.output) + ArgsWritten(load, args, kind, i).value.0
    {
      if args[i].AuxRef? {
        last := Some(0);
      } else if args[i].LocalRef? {
        last := Some(1);
      }
      if !Fits(args[i].index) || (!(load && i == 1) && last.None?) {
        NoArgsAfterFailure(load, args, kind, i + 1, |args|);
        return false, last;
      }
      if !(load && i == 1) {
        w.WriteSlice([last.value]);
      }
      w.WriteLe(args[i].index, 4);
    }
    ok := true;
  }

  method ExportOp(w: Writer, o: Operation<Name>, kind: Option<byte>) returns (ok: bool, last: Option<byte>)
    modifies w
    ensures match OpWritten(o, kind)
            case None => !ok
            case Some((bytes, k)) => ok && last == k && w.output == old(w.output) + bytes
  {
    hide ArgsWritten, OpIdent, VarIntBytes;
    last := kind;
    w.WriteSlice([OpIdent(o.command)]);
    if o.command == Debug {
      if |o.args| != 1 || |o.line.text| >= U64 {
        return false, last;
      }
      var _ := w.EncodeVarInt(|o.line.text|);
      w.WriteSlice(o.line.text);
    }
    if |o.args| != (if o.command == Local then 0 else Arity(Op(o.command))) {
      return false, last;
    }
    assert w.output
         == old(w.output) + ([OpIdent(o.command)] + (if o.command == Debug then BytesBytes(o.line.text) else []));
    ok, last := ExportArgs(w, o.command == Load, o.args, last);
  }

  method ExportOps(w: Writer, ops: seq<Operation<Name>>) returns (ok: bool)
    requires |ops| < U64
    modifies w
    ensures match OpsWritten(ops, |ops|)
            case None => !ok
            case Some((bytes, _)) => ok && w.output == old(w.output) + (VarIntBytes(|ops|) + bytes)
  {
    hide OpWritten, VarIntBytes;
    var _ := w.EncodeVarInt(|ops|);
    ghost var start := w.output;
    var kind: Option<byte> := None;
    for i := 0 to |ops|
      invariant OpsWritten(ops, i).Some? && kind == OpsWritten(ops, i).value.1
      invariant w.output == start + OpsWritten(ops, i).value.0
    {
      var written;
      written, kind := ExportOp(w, ops[i], kind);
      if !written {
        NoOpsAfterFailure(ops, i + 1, |ops|);
        return false;
      }
    }
    ok := true;
  }

  method ExportConstraint(w: Writer, k: ConstraintLine<Name>) returns (ok: bool)
    modifies w
    ensures match ConstraintWritten(k)
            case None => !ok
            case Some(bytes) => ok && w.output == old(w.output) + bytes
  {
    hide LeBytes, ConstraintIdent;
    var constantFirst := TakesConstant(k.command);
    w.WriteSlice([ConstraintIdent(k.command)]);
    ghost var start := w.output;
    for i := 0 to |k.args|
      invariant LcArgsWritten(constantFirst, k.args, i).Some?
      invariant w.output == start + LcArgsWritten(constantFirst, k.args, i).value
    {
      var arg: nat := if k.args[i].ConstantEntry? then k.args[i].const_ else k.args[i].index;
      if k.args[i].ConstantEntry? != (constantFirst && i == 0) || !Fits(arg) {
        NoLcArgsAfterFailure(constantFirst, k.args, i + 1, |k.args|);
        return false;
      }
      w.WriteLe(arg, 4);
    }
    ok := true;
  }

  method ExportConstraints(w: Writer, ks: seq<ConstraintLine<Name>>) returns (ok: bool)
    requires |ks| < U64
    modifies w
    ensures match VecWritten(ConstraintWritten, ks)
            case None => !ok
            case Some(bytes) => ok && w.output == old(w.output) + bytes
  {
    hide ConstraintWritten, VarIntBytes;
    var _ := w.EncodeVarInt(|ks|);
    ghost var start := w.output;
    for i := 0 to |ks|
      invariant AllWritten(ConstraintWritten, ks, i).Some?
      invariant w.output == start + AllWritten(ConstraintWritten, ks, i).value
    {
      var written := ExportConstraint(w, ks[i]);
      if !written {
        NothingAfterFailure(ConstraintWritten, ks, i + 1, |ks|);
        return false;
      }
    }
    ok := true;
  }

  method ExportConstants(w: Writer, values: seq<nat>) returns (ok: bool)
    requires |values| < U64
    modifies w
    ensures match VecWritten(ConstantWritten, values)
            case None => !ok
            case Some(bytes) => ok && w.output == old(w.output) + bytes
  {
    hide LeBytes, VarIntBytes, Pow256;
    var _ := w.EncodeVarInt(|values|);
    ghost var start := w.output;
    for i := 0 to |values|
      invariant AllWritten(ConstantWritten, values, i).Some?
      invariant w.output == start + AllWritten(ConstantWritten, values, i).value
    {
      if values[i] >= Pow256(32) {
        NothingAfterFailure(ConstantWritten, values, i + 1, |values|);
        return false;
      }
      w.WriteLe(values[i], 32);
    }
    ok := true;
  }

  method ExportAlloc(w: Writer, alloc: seq<Variable<Name>>) returns (ok: bool)
    requires |alloc| < U64
    modifies w
    ensures match VecWritten(VariableWritten, alloc)
            case None => !ok
            case Some(bytes) => ok && w.output == old(w.output) + bytes
  {
    hide LeBytes, VarIntBytes;
    var _ := w.EncodeVarInt(|alloc|);
    ghost var start := w.output;
    for i := 0 to |alloc|
      invariant AllWritten(VariableWritten, alloc, i).Some?
      invariant w.output == start + AllWritten(VariableWritten, alloc, i).value
    {
      if !Fits(alloc[i].index) {
        NothingAfterFailure(VariableWritten, alloc, i + 1, |alloc|);
        return false;
      }
      w.WriteSlice([if alloc[i].kind == Vm.Private then 0 else 1]);
      w.WriteLe(alloc[i].index, 4);
    }
    ok := true;
  }

  /** The list comprehension that selects the parameters or the public variables. */
  method SelectPairs(alloc: seq<Variable<Name>>, public: bool) returns (r: seq<(Name, nat)>)
    ensures r == Pairs(alloc, public)
  {
    hide Selected;
    r := [];
    for i := 0 to |alloc|
      invariant r == Pairs(alloc[..i], public)
    {
      assert alloc[..i + 1] == alloc[..i] + [alloc[i]];
      PairsGrow(alloc[..i], alloc[i], public);
      if Selected(alloc[i], public) {
        r := r + [(alloc[i].symbol, alloc[i].index)];
      }
    }
    assert alloc[..|alloc|] == alloc;
  }

  method ExportNames(w: Writer, pairs: seq<(Name, nat)>) returns (ok: bool)
    requires |pairs| < U64
    modifies w
    ensures match VecWritten(PairWritten, pairs)
            case None => !ok
            case Some(bytes) => ok && w.output == old(w.output) + bytes
  {
    hide LeBytes, VarIntBytes;
    var _ := w.EncodeVarInt(|pairs|);
    ghost var start := w.output;
    for i := 0 to |pairs|
      invariant AllWritten(PairWritten, pairs, i).Some? && w.output == start + AllWritten(PairWritten, pairs, i).value
    {
      if |pairs[i].0| >= U64 || !Fits(pairs[i].1) {
        NothingAfterFailure(PairWritten, pairs, i + 1, |pairs|);
        return false;
      }
      var _ := w.EncodeVarInt(|pairs[i].0|);
      w.WriteSlice(pairs[i].0);
      w.WriteLe(pairs[i].1, 4);
    }
    ok := true;
  }

  /** The whole exporter; None is an exception. */
  method ExportContract(name: Name, c: Contract<Name>, values: seq<nat>) returns (r: Option<seq<byte>>)
    requires ValidUtf8(name)
    ensures r == ContractWritten(name, c, values)
  {
    hide ValidUtf8, CharCount, VarIntBytes, AllWritten, OpsWritten, Pairs;
    if CharCount(name) >= U64 || |values| >= U64 || |c.alloc| >= U64 || |c.ops| >= U64 || |c.constraints| >= U64 {
      return None;
    }
    var w := new Writer();
    assert [] + VarIntBytes(CharCount(name)) == VarIntBytes(CharCount(name));
    var _ := w.EncodeVarInt(CharCount(name));
    w.WriteSlice(name);
    var ok := ExportConstants(w, values);
    if !ok { return None; }
    ok := ExportAlloc(w, c.alloc);
    if !ok { return None; }
    ok := ExportOps(w, c.ops);
    if !ok { return None; }
    ok := ExportConstraints(w, c.constraints);
    if !ok { return None; }
    var params := SelectPairs(c.alloc, false);
    ok := ExportNames(w, params);
    if !ok { return None; }
    var publics := SelectPairs(c.alloc, true);
    ok := ExportNames(w, publics);
    if !ok { return None; }
    r := Some(w.output);
  }
}
