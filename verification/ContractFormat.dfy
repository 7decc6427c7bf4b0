/** The binary format of contracts: what compile_export_supervisor.py writes and vm_serial.rs reads. */
module ContractFormat {
  import opened Bytes
  import opened Endian
  import opened Utf8
  import opened Serial
  import opened Field
  import opened Compiler
  import C = Circuit
  import Vm

  type Name = seq<byte>

  /** A decoded contract. The second map is kept one-to-one. */
  datatype ZkContract = ZkContract(name: Name, constants: seq<Fp>, alloc: seq<(Vm.AllocType, nat)>,
                                   ops: seq<Vm.CryptoOperation>,
                                   constraints: seq<C.ConstraintInstruction>, paramsMap: map<Name, nat>,
                                   publicMap: map<Name, nat>)

  /* ----- scalars, allocations and references ----- */

  function ScalarBytes(v: nat): seq<byte> { LeBytes(v, 32) }

  /** `Scalar::from_bytes` refuses what is not below the modulus. */
  function ParseScalar(b: seq<byte>): Parsed<Fp> {
    match ParseLe(32, b)
    case Failure(e) => Failure(e)
    case Parsed(v, rest) => if v < MODULUS then Parsed(v, rest) else Failure(ParseFailed)
  }

  function AllocBytes(a: (Vm.AllocType, nat)): seq<byte> { [if a.0 == Vm.Private then 0 else 1] + LeBytes(a.1, 4) }

  function ParseAlloc(b: seq<byte>): Parsed<(Vm.AllocType, nat)> {
    if b == [] then Failure(UnexpectedEof)
    else if b[0] > 1 then Failure(Panicked)
    else
      match ParseLe(4, b[1..])
      case Failure(e) => Failure(e)
      case Parsed(i, rest) => Parsed((if b[0] == 0 then Vm.Private else Vm.Public, i), rest)
  }

  function RefBytes(r: Vm.VariableRef): seq<byte> { [if r.Aux? then 0 else 1] + LeBytes(r.index, 4) }

  function ParseRef(b: seq<byte>): Parsed<Vm.VariableRef> {
    if b == [] then Failure(UnexpectedEof)
    else if b[0] > 1 then Failure(BadVariableRefType)
    else
      match ParseLe(4, b[1..])
      case Failure(e) => Failure(e)
      case Parsed(i, rest) => Parsed(if b[0] == 0 then Vm.Aux(i) else Vm.Local(i), rest)
  }

  predicate Fits(i: nat) { i < 0x1_0000_0000 }

  lemma {:induction false} IndexRoundTrip(i: nat, tail: seq<byte>)
    requires Fits(i)
    ensures ParseLe(4, LeBytes(i, 4) + tail) == Parsed(i, tail)
  {
    LeRoundTrip(i, 4, tail);
    Widths();
  }

  lemma {:induction false} AllocRoundTrip(a: (Vm.AllocType, nat), tail: seq<byte>)
    requires Fits(a.1)
    ensures ParseAlloc(AllocBytes(a) + tail) == Parsed(a, tail)
  {
    hide LeBytes, ParseLe;
    IndexRoundTrip(a.1, tail);
    assert (AllocBytes(a) + tail)[1..] == LeBytes(a.1, 4) + tail;
  }

  lemma {:induction false} RefRoundTrip(r: Vm.VariableRef, tail: seq<byte>)
    requires Fits(r.index)
    ensures ParseRef(RefBytes(r) + tail) == Parsed(r, tail)
  {
    hide LeBytes, ParseLe;
    IndexRoundTrip(r.index, tail);
    assert (RefBytes(r) + tail)[1..] == LeBytes(r.index, 4) + tail;
  }

  /* ----- operations ----- */

  function OpTag(op: Vm.CryptoOperation): byte {
    match op
    case Set(_, _) => 0 case Mul(_, _) => 1 case Add(_, _) => 2 case Sub(_, _) => 3 case Divide(_, _) => 4
    case Double(_) => 5 case Square(_) => 6 case Invert(_) => 7 case UnpackBits(_, _, _) => 8
    case LocalDecl => 9 case Load(_, _) => 10 case Debug(_, _) => 11 case DumpAlloc => 12 case DumpLocal => 13
  }

  /** The variables that an operation refers to, in order. */
  function RefsOf(op: Vm.CryptoOperation): seq<Vm.VariableRef> {
    match op
    case Set(a, b) => [a, b] case Mul(a, b) => [a, b] case Add(a, b) => [a, b] case Sub(a, b) =>
      [a, b] case Divide(a, b) => [a, b]
    case Double(a) => [a] case Square(a) => [a] case Invert(a) => [a]
    case UnpackBits(a, b, c) => [a, b, c]
    case Load(a, _) => [a] case Debug(_, a) => [a]
    case LocalDecl => [] case DumpAlloc => [] case DumpLocal => []
  }

  /** Before the references a text, after them an index. */
  function OpBytes(op: Vm.CryptoOperation): seq<byte> {
    [OpTag(op)] + (if op.Debug? then BytesBytes(op.text) else []) + Joined(RefBytes, RefsOf(op))
    + (if op.Load? then LeBytes(op.const_, 4) else [])
  }

  function RefCount(tag: byte): nat
    requires tag <= 13
  {
    if tag <= 4 then 2 else if tag <= 7 then 1 else if tag == 8 then 3 else if tag == 10 || tag == 11 then 1 else 0
  }

  function MakeOp(tag: byte, text: seq<byte>, a: seq<Vm.VariableRef>, index: nat): Vm.CryptoOperation
    requires tag <= 13 && |a| == RefCount(tag)
  {
    match tag
    case 0 => Vm.Set(a[0], a[1])
    case 1 => Vm.Mul(a[0], a[1])
    case 2 => Vm.Add(a[0], a[1])
    case 3 => Vm.Sub(a[0], a[1])
    case 4 => Vm.Divide(a[0], a[1])
    case 5 => Vm.Double(a[0])
    case 6 => Vm.Square(a[0])
    case 7 => Vm.Invert(a[0])
    case 8 => Vm.UnpackBits(a[0], a[1], a[2])
    case 9 => Vm.LocalDecl
    case 10 => Vm.Load(a[0], index)
    case 11 => Vm.Debug(text, a[0])
    case 12 => Vm.DumpAlloc
    case _ => Vm.DumpLocal
  }

  function ParseOp(b: seq<byte>): Parsed<Vm.CryptoOperation> {
    if b == [] then Failure(UnexpectedEof)
    else if b[0] > 13 then Failure(BadOperationType)
    else
      match (if b[0] == 11 then ParseString(b[1..]) else Parsed([], b[1..]))
      case Failure(e) => Failure(e)
      case Parsed(text, b1) =>
        match ParseMany(ParseRef, RefCount(b[0]), b1)
        case Failure(e) => Failure(e)
        case Parsed(refs, b2) =>
          match (if b[0] == 10 then ParseLe(4, b2) else Parsed(0, b2))
          case Failure(e) => Failure(e)
          case Parsed(index, b3) => Parsed(MakeOp(b[0], text, refs, index), b3)
  }

  /** Every operation with small indices, byte by byte: its number, and for every reference 0 for a variable or
      1 for a local and the index. */
  lemma TwoRefsLayout(i: nat, j: nat)
    requires i < 0x100 && j < 0x100
    ensures OpBytes(Vm.Set(Vm.Aux(i), Vm.Local(j))) == [0, 0, i, 0, 0, 0, 1, j, 0, 0, 0]
    ensures OpBytes(Vm.Mul(Vm.Aux(i), Vm.Local(j))) == [1, 0, i, 0, 0, 0, 1, j, 0, 0, 0]
    ensures OpBytes(Vm.Add(Vm.Aux(i), Vm.Local(j))) == [2, 0, i, 0, 0, 0, 1, j, 0, 0, 0]
    ensures OpBytes(Vm.Sub(Vm.Aux(i), Vm.Local(j))) == [3, 0, i, 0, 0, 0, 1, j, 0, 0, 0]
    ensures OpBytes(Vm.Divide(Vm.Aux(i), Vm.Local(j))) == [4, 0, i, 0, 0, 0, 1, j, 0, 0, 0]
  {
    hide LeBytes, RefBytes, Joined;
    JoinedThree(RefBytes, Vm.Aux(i), Vm.Local(j), Vm.Local(j));
    RefLayout(i);
    RefLayout(j);
  }

  lemma OneRefLayout(i: nat)
    requires i < 0x100
    ensures OpBytes(Vm.Double(Vm.Aux(i))) == [5, 0, i, 0, 0, 0]
    ensures OpBytes(Vm.Square(Vm.Aux(i))) == [6, 0, i, 0, 0, 0]
    ensures OpBytes(Vm.Invert(Vm.Aux(i))) == [7, 0, i, 0, 0, 0]
  {
    hide LeBytes, RefBytes, Joined;
    JoinedThree(RefBytes, Vm.Aux(i), Vm.Aux(i), Vm.Aux(i));
    RefLayout(i);
  }

  lemma OtherLayout(i: nat, j: nat, k: nat)
    requires i < 0x100 && j < 0x100 && k < 0x100
    ensures OpBytes(Vm.UnpackBits(Vm.Aux(i), Vm.Local(j), Vm.Local(k)))
         == [8, 0, i, 0, 0, 0, 1, j, 0, 0, 0, 1, k, 0, 0, 0]
    ensures OpBytes(Vm.LocalDecl) == [9] && OpBytes(Vm.DumpAlloc) == [12] && OpBytes(Vm.DumpLocal) == [13]
    ensures OpBytes(Vm.Load(Vm.Local(i), j)) == [10, 1, i, 0, 0, 0, j, 0, 0, 0]
    ensures OpBytes(Vm.Debug([k], Vm.Aux(i))) == [11, 1, k, 0, i, 0, 0, 0]
  {
    hide LeBytes, RefBytes, Joined;
    JoinedThree(RefBytes, Vm.Aux(i), Vm.Local(j), Vm.Local(k));
    JoinedThree(RefBytes, Vm.Local(i), Vm.Aux(i), Vm.Aux(i));
    NoneJoined(RefBytes);
    RefLayout(i);
    RefLayout(j);
    RefLayout(k);
  }

  lemma RefLayout(i: nat)
    requires i < 0x100
    ensures LeBytes(i, 4) == [i, 0, 0, 0]
    ensures RefBytes(Vm.Aux(i)) == [0, i, 0, 0, 0] && RefBytes(Vm.Local(i)) == [1, i, 0, 0, 0]
  {
    hide LeBytes;
    LeFour(i);
  }

  lemma {:induction false} NoneJoined<T>(e: T -> seq<byte>)
    ensures Joined(e, []) == []
  {}

  lemma {:induction false} JoinedThree<T>(e: T -> seq<byte>, x: T, y: T, z: T)
    ensures Joined(e, [x]) == e(x) && Joined(e, [x, y]) == e(x) + e(y) && Joined(e, [x, y, z]) == e(x) + e(y) + e(z)
  {
    assert [x, y, z][1..] == [y, z] && [y, z][1..] == [z] && [z][1..] == [] && [x, y][1..] == [y] && [x][1..] == [];
    assert [y][1..] == [];
    assert Joined(e, [z]) == e(z) + [] && Joined(e, [y]) == e(y) + [] && Joined(e, [x]) == e(x) + [];
    assert Joined(e, [y, z]) == e(y) + Joined(e, [z]);
    assert Joined(e, [x, y, z]) == e(x) + Joined(e, [y, z]);
  }

  /** Indices fit into 32 bits, and texts are strings. */
  predicate Encodable(op: Vm.CryptoOperation) {
    && (forall i :: 0 <= i < |RefsOf(op)| ==> Fits(RefsOf(op)[i].index))
    && (op.Load? ==> Fits(op.const_))
    && (op.Debug? ==> ValidUtf8(op.text) && |op.text| < U64)
  }

  lemma Remade(op: Vm.CryptoOperation)
    ensures OpTag(op) <= 13 && |RefsOf(op)| == RefCount(OpTag(op))
    ensures OpTag(op) == 11 <==> op.Debug?
    ensures OpTag(op) == 10 <==> op.Load?
    ensures MakeOp(OpTag(op), if op.Debug? then op.text else [], RefsOf(op), if op.Load? then op.const_ else 0) == op
  {}

  lemma {:induction false} OpRoundTrip(op: Vm.CryptoOperation, tail: seq<byte>)
    requires Encodable(op)
    ensures ParseOp(OpBytes(op) + tail) == Parsed(op, tail)
  {
    hide OpTag, RefsOf, MakeOp, RefCount, RefBytes, ParseRef, LeBytes, BytesBytes, ParseString, Joined, ParseMany,
         ParseLe, ValidUtf8;
    Remade(op);
    var refs := RefsOf(op);
    var last := if op.Load? then LeBytes(op.const_, 4) else [];
    var text := if op.Debug? then BytesBytes(op.text) else [];
    var afterText := Joined(RefBytes, refs) + (last + tail);
    assert (OpBytes(op) + tail)[1..] == text + afterText;
    if op.Debug? { BytesRoundTrip(op.text, afterText); } else { assert text + afterText == afterText; }
    forall i | 0 <= i < |refs| ensures ReadsBack(ParseRef, RefBytes, refs[i]) {
      forall more: seq<byte> ensures ParseRef(RefBytes(refs[i]) + more) == Parsed(refs[i], more) {
        RefRoundTrip(refs[i], more);
      }
    }
    ManyRoundTrip(ParseRef, RefBytes, refs, last + tail);
    if op.Load? { IndexRoundTrip(op.const_, tail); } else { assert last + tail == tail; }
  }

  /* ----- constraints ----- */

  function SideTag(s: C.Side): byte {
    match s
    case Lc0 => 0 case Lc1 => 1 case Lc2 => 2
  }

  function SideAt(n: nat): C.Side { if n == 0 then C.Lc0 else if n == 1 then C.Lc1 else C.Lc2 }

  function ConstraintTag(k: C.ConstraintInstruction): byte {
    match k
    case LcAdd(s, _) => SideTag(s)
    case LcSub(s, _) => 3 + SideTag(s)
    case LcAddOne(s) => 6 + SideTag(s)
    case LcSubOne(s) => 9 + SideTag(s)
    case LcAddCoeff(s, _, _) => 12 + SideTag(s)
    case LcAddConstant(s, _) => 15 + SideTag(s)
    case Enforce => 18
    case LcCoeffReset => 19
    case LcCoeffDouble => 20
  }

  function ConstraintArgs(k: C.ConstraintInstruction): seq<nat> {
    match k
    case LcAdd(_, i) => [i]
    case LcSub(_, i) => [i]
    case LcAddCoeff(_, c, i) => [c, i]
    case LcAddConstant(_, c) => [c]
    case _ => []
  }

  function IndexBytes(i: nat): seq<byte> { LeBytes(i, 4) }

  function ParseIndex(b: seq<byte>): Parsed<nat> { ParseLe(4, b) }

  function ConstraintBytes(k: C.ConstraintInstruction): seq<byte> {
    [ConstraintTag(k)] + Joined(IndexBytes, ConstraintArgs(k))
  }

  function ArgCount(tag: byte): nat {
    if tag < 6 then 1 else if tag < 12 then 0 else if tag < 15 then 2 else if tag < 18 then 1 else 0
  }

  function MakeConstraint(tag: byte, a: seq<nat>): C.ConstraintInstruction
    requires tag <= 20 && |a| == ArgCount(tag)
  {
    if tag < 3 then C.LcAdd(SideAt(tag), a[0])
    else if tag < 6 then C.LcSub(SideAt(tag - 3), a[0])
    else if tag < 9 then C.LcAddOne(SideAt(tag - 6))
    else if tag < 12 then C.LcSubOne(SideAt(tag - 9))
    else if tag < 15 then C.LcAddCoeff(SideAt(tag - 12), a[0], a[1])
    else if tag < 18 then C.LcAddConstant(SideAt(tag - 15), a[0])
    else if tag == 18 then C.Enforce
    else if tag == 19 then C.LcCoeffReset
    else C.LcCoeffDouble
  }

  function ParseConstraint(b: seq<byte>): Parsed<C.ConstraintInstruction> {
    if b == [] then Failure(UnexpectedEof)
    else if b[0] > 20 then Failure(BadConstraintType)
    else
      match ParseMany(ParseIndex, ArgCount(b[0]), b[1..])
      case Failure(e) => Failure(e)
      case Parsed(args, rest) => Parsed(MakeConstraint(b[0], args), rest)
  }

  /** Every constraint instruction with small indices, byte by byte; the side is added to the number. */
  lemma ConstraintLayout(s: C.Side, i: nat, k: nat)
    requires i < 0x100 && k < 0x100
    ensures var side := if s == C.Lc0 then 0 else if s == C.Lc1 then 1 else 2;
            && ConstraintBytes(C.LcAdd(s, i)) == [0 + side, i, 0, 0, 0]
            && ConstraintBytes(C.LcSub(s, i)) == [3 + side, i, 0, 0, 0]
            && ConstraintBytes(C.LcAddOne(s)) == [6 + side] && ConstraintBytes(C.LcSubOne(s)) == [9 + side]
            && ConstraintBytes(C.LcAddCoeff(s, k, i)) == [12 + side, k, 0, 0, 0, i, 0, 0, 0]
            && ConstraintBytes(C.LcAddConstant(s, k)) == [15 + side, k, 0, 0, 0]
    ensures ConstraintBytes(C.Enforce) == [18] && ConstraintBytes(C.LcCoeffReset) == [19]
    ensures ConstraintBytes(C.LcCoeffDouble) == [20]
  {
    hide LeBytes;
    LeFour(i);
    LeFour(k);
    JoinedThree(IndexBytes, i, k, i);
    JoinedThree(IndexBytes, k, i, i);
  }

  predicate ConstraintFits(k: C.ConstraintInstruction) {
    forall i :: 0 <= i < |ConstraintArgs(k)| ==> Fits(ConstraintArgs(k)[i])
  }

  lemma ConstraintRemade(k: C.ConstraintInstruction)
    ensures ConstraintTag(k) <= 20 && |ConstraintArgs(k)| == ArgCount(ConstraintTag(k))
    ensures MakeConstraint(ConstraintTag(k), ConstraintArgs(k)) == k
  {}

  lemma {:induction false} ConstraintRoundTrip(k: C.ConstraintInstruction, tail: seq<byte>)
    requires ConstraintFits(k)
    ensures ParseConstraint(ConstraintBytes(k) + tail) == Parsed(k, tail)
  {
    hide ConstraintTag, ConstraintArgs, MakeConstraint, ArgCount, LeBytes, ParseLe, Joined, ParseMany;
    ConstraintRemade(k);
    var args := ConstraintArgs(k);
    assert (ConstraintBytes(k) + tail)[1..] == Joined(IndexBytes, args) + tail;
    forall i | 0 <= i < |args| ensures ReadsBack(ParseIndex, IndexBytes, args[i]) {
      forall more: seq<byte> ensures ParseIndex(IndexBytes(args[i]) + more) == Parsed(args[i], more) {
        IndexRoundTrip(args[i], more);
      }
    }
    ManyRoundTrip(ParseIndex, IndexBytes, args, tail);
  }

  /* ----- names ----- */

  function PairBytes(p: (Name, nat)): seq<byte> { BytesBytes(p.0) + LeBytes(p.1, 4) }

  function ParsePair(b: seq<byte>): Parsed<(Name, nat)> {
    match ParseString(b)
    case Failure(e) => Failure(e)
    case Parsed(name, b1) =>
      match ParseLe(4, b1)
      case Failure(e) => Failure(e)
      case Parsed(index, b2) => Parsed((name, index), b2)
  }

  predicate PairFits(p: (Name, nat)) { ValidUtf8(p.0) && |p.0| < U64 && Fits(p.1) }

  lemma {:induction false} PairRoundTrip(p: (Name, nat), tail: seq<byte>)
    requires PairFits(p)
    ensures ParsePair(PairBytes(p) + tail) == Parsed(p, tail)
  {
    hide BytesBytes, ParseString, LeBytes, ParseLe, ValidUtf8;
    BytesRoundTrip(p.0, LeBytes(p.1, 4) + tail);
    assert PairBytes(p) + tail == BytesBytes(p.0) + (LeBytes(p.1, 4) + tail);
    IndexRoundTrip(p.1, tail);
  }

  /* ----- maps of names ----- */

  /** The variables that one of the two maps is about: parameters, or public variables. */
  predicate Selected<S>(v: Variable<S>, public: bool) { if public then v.kind == Vm.Public else v.isParam }

  function Pairs(alloc: seq<Variable<Name>>, public: bool): (r: seq<(Name, nat)>)
    ensures |r| <= |alloc|
    ensures forall i :: 0 <= i < |r| ==> exists k :: 0 <= k < |alloc| && r[i] == (alloc[k].symbol, alloc[k].index)
    decreases |alloc|
  {
    if alloc == [] then []
    else
      var init, last := Pairs(alloc[..|alloc| - 1], public), alloc[|alloc| - 1];
      assert forall i :: 0 <= i < |init| ==>
        exists k :: 0 <= k < |alloc| - 1 && init[i] == (alloc[..|alloc| - 1][k].symbol, alloc[k].index);
      if Selected(last, public) then init + [(last.symbol, last.index)] else init
  }

  /** Collecting into a hash map: later pairs replace earlier ones with the same name. */
  function CollectMap(pairs: seq<(Name, nat)>): map<Name, nat>
    decreases |pairs|
  {
    if pairs == [] then map[]
    else CollectMap(pairs[..|pairs| - 1])[pairs[|pairs| - 1].0 := pairs[|pairs| - 1].1]
  }

  /** Collecting into a one-to-one map: later pairs also replace those with the same index. */
  function CollectBiMap(pairs: seq<(Name, nat)>): map<Name, nat>
    decreases |pairs|
  {
    if pairs == [] then map[]
    else
      var before, last := CollectBiMap(pairs[..|pairs| - 1]), pairs[|pairs| - 1];
      (map s | s in before && before[s] != last.1 :: before[s])[last.0 := last.1]
  }

  /** Of several pairs with one name the last is kept. */
  lemma {:induction false} LastPairKept(pairs: seq<(Name, nat)>)
    ensures forall k :: 0 <= k < |pairs| && (forall j :: k < j < |pairs| ==> pairs[j].0 != pairs[k].0) ==>
      pairs[k].0 in CollectMap(pairs) && CollectMap(pairs)[pairs[k].0] == pairs[k].1
    ensures forall s :: s in CollectMap(pairs) ==> (s, CollectMap(pairs)[s]) in pairs
    decreases |pairs|
  {
    if pairs != [] {
      var init, last := pairs[..|pairs| - 1], pairs[|pairs| - 1];
      LastPairKept(init);
      assert pairs == init + [last];
      forall k | 0 <= k < |init| && (forall j :: k < j < |pairs| ==> pairs[j].0 != pairs[k].0)
        ensures pairs[k].0 in CollectMap(pairs) && CollectMap(pairs)[pairs[k].0] == pairs[k].1
      {
        assert init[k] == pairs[k] && pairs[|init|].0 != pairs[k].0;
        assert forall j :: k < j < |init| ==> init[j] == pairs[j];
      }
    }
  }

  /** The other kind of map never has two names for one index, and of several pairs with one index the last is
      kept. */
  lemma {:induction false} OneNamePerIndex(pairs: seq<(Name, nat)>)
    ensures var m := CollectBiMap(pairs);
            && (forall s, t :: s in m && t in m && m[s] == m[t] ==> s == t)
            && (forall s :: s in m ==> (s, m[s]) in pairs)
            && (pairs != [] ==> var last := pairs[|pairs| - 1]; last.0 in m && m[last.0] == last.1)
    decreases |pairs|
  {
    if pairs != [] {
      OneNamePerIndex(pairs[..|pairs| - 1]);
      assert pairs == pairs[..|pairs| - 1] + [pairs[|pairs| - 1]];
    }
  }

  /** The table has a selected variable of this name and index. */
  ghost predicate HasVariable(alloc: seq<Variable<Name>>, public: bool, s: Name, index: nat) {
    exists k :: 0 <= k < |alloc| && Selected(alloc[k], public) && alloc[k].symbol == s && alloc[k].index == index
  }

  /** The indices of the selected variables, by name. */
  ghost predicate IsNameMap(m: map<Name, nat>, alloc: seq<Variable<Name>>, public: bool) {
    forall s, i :: s in m && m[s] == i <==> HasVariable(alloc, public, s, i)
  }

  /** The map of names is what the table says, whichever kind of map it is collected into. */
  lemma {:induction false} MapsOfNames(alloc: seq<Variable<Name>>, public: bool)
    requires WellFormedTable(alloc)
    ensures IsNameMap(CollectMap(Pairs(alloc, public)), alloc, public)
    ensures CollectBiMap(Pairs(alloc, public)) == CollectMap(Pairs(alloc, public))
    decreases |alloc|
  {
    hide CollectMap, CollectBiMap, Pairs, WellFormedTable, IsNameMap, Selected;
    if alloc == [] {
      NoNames(public);
    } else {
      var init, last := alloc[..|alloc| - 1], alloc[|alloc| - 1];
      assert alloc == init + [last];
      TableShrinks(init, last);
      MapsOfNames(init, public);
      PairsGrow(init, last, public);
      MapGrows(CollectMap(Pairs(init, public)), init, last, public);
      CollectGrows(Pairs(init, public), (last.symbol, last.index));
    }
  }

  lemma {:induction false} NoNames(public: bool)
    ensures IsNameMap(CollectMap(Pairs([], public)), [], public)
    ensures CollectBiMap(Pairs([], public)) == CollectMap(Pairs([], public))
  {}

  lemma {:induction false} TableShrinks(init: seq<Variable<Name>>, last: Variable<Name>)
    requires WellFormedTable(init + [last])
    ensures WellFormedTable(init)
  {
    assert forall i :: 0 <= i < |init| ==> init[i] == (init + [last])[i];
  }

  lemma {:induction false} PairsGrow(init: seq<Variable<Name>>, last: Variable<Name>, public: bool)
    ensures Pairs(init + [last], public)
         == if Selected(last, public) then Pairs(init, public) + [(last.symbol, last.index)] else Pairs(init, public)
  {
    assert (init + [last])[..|init|] == init;
  }

  lemma {:induction false} CollectGrows(pairs: seq<(Name, nat)>, p: (Name, nat))
    ensures CollectMap(pairs + [p]) == CollectMap(pairs)[p.0 := p.1]
    ensures var m := CollectBiMap(pairs);
      CollectBiMap(pairs + [p]) == (map s | s in m && m[s] != p.1 :: m[s])[p.0 := p.1]
  {
    assert (pairs + [p])[..|pairs|] == pairs;
  }

  lemma {:induction false} HasMore(init: seq<Variable<Name>>, last: Variable<Name>, public: bool, s: Name, i: nat)
    ensures HasVariable(init + [last], public, s, i)
       <==> HasVariable(init, public, s, i) || (Selected(last, public) && last.symbol == s && last.index == i)
  {
    hide Selected;
    var alloc := init + [last];
    assert alloc[|init|] == last;
    if HasVariable(init, public, s, i) {
      var k :| 0 <= k < |init| && Selected(init[k], public) && init[k].symbol == s && init[k].index == i;
      assert alloc[k] == init[k];
    }
  }

  lemma {:induction false} NewName(init: seq<Variable<Name>>, last: Variable<Name>, public: bool, s: Name, i: nat)
    requires WellFormedTable(init + [last]) && HasVariable(init, public, s, i)
    ensures s != last.symbol && i != last.index
  {
    var alloc := init + [last];
    var k :| 0 <= k < |init| && Selected(init[k], public) && init[k].symbol == s && init[k].index == i;
    assert alloc[k] == init[k] && alloc[|init|] == last;
  }

  lemma {:induction false} MapGrows(m: map<Name, nat>, init: seq<Variable<Name>>, last: Variable<Name>, public: bool)
    requires WellFormedTable(init + [last]) && IsNameMap(m, init, public)
    ensures IsNameMap(if Selected(last, public) then m[last.symbol := last.index] else m, init + [last], public)
    ensures (map s | s in m && m[s] != last.index :: m[s]) == m
  {
    hide WellFormedTable, Selected, HasVariable;
    var after := if Selected(last, public) then m[last.symbol := last.index] else m;
    forall s | s in m ensures m[s] != last.index && s != last.symbol { NewName(init, last, public, s, m[s]); }
    forall s, i ensures s in after && after[s] == i <==> HasVariable(init + [last], public, s, i) {
      HasMore(init, last, public, s, i);
    }
  }

  /* ----- the whole contract ----- */

  /** What the exporter writes of a contract, after lowering. */
  datatype Export = Export(values: seq<nat>, alloc: seq<Variable<Name>>, ops: seq<Vm.CryptoOperation>,
                           constraints: seq<C.ConstraintInstruction>)

  function Allocs(alloc: seq<Variable<Name>>): (r: seq<(Vm.AllocType, nat)>)
    ensures |r| == |alloc| && forall i :: 0 <= i < |r| ==> r[i] == (alloc[i].kind, alloc[i].index)
  {
    seq(|alloc|, i requires 0 <= i < |alloc| => (alloc[i].kind, alloc[i].index))
  }

  function MapsBytes(x: Export): seq<byte> {
    VecBytes(PairBytes, Pairs(x.alloc, false)) + VecBytes(PairBytes, Pairs(x.alloc, true))
  }

  function TablesBytes(x: Export): seq<byte> {
    VecBytes(AllocBytes, Allocs(x.alloc)) + VecBytes(OpBytes, x.ops) + VecBytes(ConstraintBytes, x.constraints)
  }

  /** The length of the name is counted in characters, that of every other string in bytes. */
  function ContractBytes(name: Name, x: Export): seq<byte>
    requires ValidUtf8(name)
  {
    VarIntBytes(CharCount(name)) + name + VecBytes(ScalarBytes, x.values) + TablesBytes(x) + MapsBytes(x)
  }

  function ParseMaps(b: seq<byte>): Parsed<(map<Name, nat>, map<Name, nat>)> {
    match ParseVec(ParsePair, b)
    case Failure(e) => Failure(e)
    case Parsed(params, b1) =>
      match ParseVec(ParsePair, b1)
      case Failure(e) => Failure(e)
      case Parsed(publics, b2) => Parsed((CollectMap(params), CollectBiMap(publics)), b2)
  }

  function ParseTables(b: seq<byte>): Parsed<(seq<(Vm.AllocType, nat)>, seq<Vm.CryptoOperation>,
                                              seq<C.ConstraintInstruction>)> {
    match ParseVec(ParseAlloc, b)
    case Failure(e) => Failure(e)
    case Parsed(alloc, b1) =>
      match ParseVec(ParseOp, b1)
      case Failure(e) => Failure(e)
      case Parsed(ops, b2) =>
        match ParseVec(ParseConstraint, b2)
        case Failure(e) => Failure(e)
        case Parsed(constraints, b3) => Parsed((alloc, ops, constraints), b3)
  }

  function ParseContract(b: seq<byte>): Parsed<ZkContract> {
    match ParseString(b)
    case Failure(e) => Failure(e)
    case Parsed(name, b1) =>
      match ParseVec(ParseScalar, b1)
      case Failure(e) => Failure(e)
      case Parsed(constants, b2) =>
        match ParseTables(b2)
        case Failure(e) => Failure(e)
        case Parsed(tables, b3) =>
          match ParseMaps(b3)
          case Failure(e) => Failure(e)
          case Parsed(maps, b4) =>
            Parsed(ZkContract(name, constants, tables.0, tables.1, tables.2, maps.0, maps.1), b4)
  }

  /** Everything fits its field of the format. */
  ghost predicate Exportable(name: Name, x: Export) {
    && ValidUtf8(name) && |name| < U64 && |x.values| < U64 && |x.alloc| < U64 && |x.ops| < U64 && |x.constraints| < U64
    && WellFormedTable(x.alloc)
    && (forall i :: 0 <= i < |x.values| ==> x.values[i] < Pow256(32))
    && (forall i :: 0 <= i < |x.alloc| ==> PairFits((x.alloc[i].symbol, x.alloc[i].index)))
    && (forall i :: 0 <= i < |x.ops| ==> Encodable(x.ops[i]))
    && (forall i :: 0 <= i < |x.constraints| ==> ConstraintFits(x.constraints[i]))
  }

  predicate Reduced(values: seq<nat>) { forall i :: 0 <= i < |values| ==> values[i] < MODULUS }

  /** Constants are read back exactly when all are below the modulus. */
  lemma {:induction false} ScalarsRead(values: seq<nat>, tail: seq<byte>)
    requires forall i :: 0 <= i < |values| ==> values[i] < Pow256(32)
    ensures ParseMany(ParseScalar, |values|, Joined(ScalarBytes, values) + tail)
         == if Reduced(values) then Parsed(values, tail) else Failure(ParseFailed)
  {
    hide LeBytes, ParseLe, Pow256;
    if values == [] {
      assert [] + tail == tail;
    } else {
      ScalarsRead(values[1..], tail);
      var more := Joined(ScalarBytes, values[1..]) + tail;
      assert Joined(ScalarBytes, values) + tail == ScalarBytes(values[0]) + more;
      LeRoundTrip(values[0], 32, more);
      SmallRemainder(values[0], Pow256(32));
      assert values == [values[0]] + values[1..];
      assert Reduced(values) <==> values[0] < MODULUS && Reduced(values[1..]);
    }
  }

  lemma SmallRemainder(v: nat, m: nat)
    requires v < m
    ensures v % m == v
  {}

  lemma {:induction false} TablesRoundTrip(name: Name, x: Export, tail: seq<byte>)
    requires Exportable(name, x)
    ensures ParseTables(TablesBytes(x) + tail) == Parsed((Allocs(x.alloc), x.ops, x.constraints), tail)
  {
    hide VecBytes, ParseVec, AllocBytes, OpBytes, ConstraintBytes, ParseAlloc, ParseOp, ParseConstraint, Encodable,
         ConstraintFits, ValidUtf8, Pow256;
    var constraints := VecBytes(ConstraintBytes, x.constraints) + tail;
    var ops := VecBytes(OpBytes, x.ops) + constraints;
    assert TablesBytes(x) + tail == VecBytes(AllocBytes, Allocs(x.alloc)) + ops;
    forall i | 0 <= i < |x.alloc| ensures ReadsBack(ParseAlloc, AllocBytes, Allocs(x.alloc)[i]) {
      forall t: seq<byte> ensures ParseAlloc(AllocBytes(Allocs(x.alloc)[i]) + t) == Parsed(Allocs(x.alloc)[i], t) {
        assert PairFits((x.alloc[i].symbol, x.alloc[i].index));
        AllocRoundTrip(Allocs(x.alloc)[i], t);
      }
    }
    forall i | 0 <= i < |x.ops| ensures ReadsBack(ParseOp, OpBytes, x.ops[i]) {
      forall t: seq<byte> ensures ParseOp(OpBytes(x.ops[i]) + t) == Parsed(x.ops[i], t) { OpRoundTrip(x.ops[i], t); }
    }
    forall i | 0 <= i < |x.constraints| ensures ReadsBack(ParseConstraint, ConstraintBytes, x.constraints[i]) {
      forall t: seq<byte> ensures ParseConstraint(ConstraintBytes(x.constraints[i]) + t)
        == Parsed(x.constraints[i], t) {
        ConstraintRoundTrip(x.constraints[i], t);
      }
    }
    VecRoundTrip(ParseAlloc, AllocBytes, Allocs(x.alloc), ops);
    VecRoundTrip(ParseOp, OpBytes, x.ops, constraints);
    VecRoundTrip(ParseConstraint, ConstraintBytes, x.constraints, tail);
  }

  lemma PairsFit(x: Export, public: bool)
    requires forall i :: 0 <= i < |x.alloc| ==> PairFits((x.alloc[i].symbol, x.alloc[i].index))
    ensures forall i :: 0 <= i < |Pairs(x.alloc, public)| ==> PairFits(Pairs(x.alloc, public)[i])
  {}

  lemma {:induction false} PairsRead(x: Export, public: bool, tail: seq<byte>)
    requires |x.alloc| < U64 && forall i :: 0 <= i < |x.alloc| ==> PairFits((x.alloc[i].symbol, x.alloc[i].index))
    ensures ParseVec(ParsePair, VecBytes(PairBytes, Pairs(x.alloc, public)) + tail)
         == Parsed(Pairs(x.alloc, public), tail)
  {
    hide VecBytes, ParseVec, PairBytes, ParsePair, PairFits;
    PairsFit(x, public);
    var pairs := Pairs(x.alloc, public);
    forall i | 0 <= i < |pairs| ensures ReadsBack(ParsePair, PairBytes, pairs[i]) {
      forall t: seq<byte> ensures ParsePair(PairBytes(pairs[i]) + t) == Parsed(pairs[i], t) {
        PairRoundTrip(pairs[i], t);
      }
    }
    VecRoundTrip(ParsePair, PairBytes, pairs, tail);
  }

  lemma {:induction false} MapsRoundTrip(name: Name, x: Export, tail: seq<byte>)
    requires Exportable(name, x)
    ensures ParseMaps(MapsBytes(x) + tail)
         == Parsed((CollectMap(Pairs(x.alloc, false)), CollectMap(Pairs(x.alloc, true))), tail)
  {
    hide VecBytes, ParseVec, PairBytes, ParsePair, PairFits, CollectMap, CollectBiMap, Pairs, ValidUtf8, Pow256;
    var publics := VecBytes(PairBytes, Pairs(x.alloc, true)) + tail;
    assert MapsBytes(x) + tail == VecBytes(PairBytes, Pairs(x.alloc, false)) + publics;
    PairsRead(x, false, publics);
    PairsRead(x, true, tail);
    MapsOfNames(x.alloc, true);
  }

  /** The contract that should come back. */
  function Imported(name: Name, x: Export): ZkContract
    requires Reduced(x.values)
  {
    ZkContract(name, x.values, Allocs(x.alloc), x.ops, x.constraints, CollectMap(Pairs(x.alloc, false)),
               CollectMap(Pairs(x.alloc, true)))
  }

  /** What follows the name is read back, unless a constant is not reduced. */
  lemma {:induction false} BodyRead(name: Name, x: Export, tail: seq<byte>)
    requires Exportable(name, x)
    ensures var b := VecBytes(ScalarBytes, x.values) + TablesBytes(x) + MapsBytes(x) + tail;
            var tables := TablesBytes(x) + (MapsBytes(x) + tail);
            ParseVec(ParseScalar, b) == if Reduced(x.values) then Parsed(x.values, tables) else Failure(ParseFailed)
  {
    hide TablesBytes, MapsBytes, ParseScalar, ScalarBytes, Reduced, ValidUtf8, Pow256, VarIntBytes, ParseVarInt;
    var rest := TablesBytes(x) + (MapsBytes(x) + tail);
    VarIntRoundTrip(|x.values|, Joined(ScalarBytes, x.values) + rest);
    ScalarsRead(x.values, rest);
    assert VecBytes(ScalarBytes, x.values) + TablesBytes(x) + MapsBytes(x) + tail
        == VarIntBytes(|x.values|) + (Joined(ScalarBytes, x.values) + rest);
  }

  /** The bytes of a contract decode to that contract, and nothing after them is touched, exactly when
      its name is ASCII. With another name the decoder reads fewer bytes than the name has. A constant
      that is not below the modulus is refused. */
  lemma {:induction false} ExportThenDecode(name: Name, x: Export, tail: seq<byte>)
    requires Exportable(name, x)
    ensures IsAscii(name) ==>
      ParseContract(ContractBytes(name, x) + tail)
      == if Reduced(x.values) then Parsed(Imported(name, x), tail) else Failure(ParseFailed)
    ensures !IsAscii(name) ==>
      var r := ParseContract(ContractBytes(name, x) + tail);
      r.Parsed? ==> |r.value.name| < |name|
  {
    hide TablesBytes, MapsBytes, VecBytes, ParseVec, ParseScalar, ScalarBytes, Reduced, ValidUtf8, Pow256, VarIntBytes,
         ParseVarInt, ParseTables, ParseMaps, IsAscii, CharCount, Pairs, CollectMap, WellFormedTable;
    CountIsLengthIffAscii(name);
    var body := VecBytes(ScalarBytes, x.values) + TablesBytes(x) + MapsBytes(x) + tail;
    var tables := TablesBytes(x) + (MapsBytes(x) + tail);
    assert ContractBytes(name, x) + tail == VarIntBytes(CharCount(name)) + (name + body);
    VarIntRoundTrip(CharCount(name), name + body);
    if IsAscii(name) {
      assert (name + body)[..|name|] == name && (name + body)[|name|..] == body;
      BodyRead(name, x, tail);
      TablesRoundTrip(name, x, MapsBytes(x) + tail);
      MapsRoundTrip(name, x, tail);
    }
  }

  /** The name of one accented letter has two bytes, of which the decoder reads one. */
  lemma {:induction false} AccentedNameFails(x: Export, tail: seq<byte>)
    ensures var name := [0xC3, 0xA9];
      ValidUtf8(name) && CharCount(name) == 1 && ParseContract(ContractBytes(name, x) + tail) == Failure(ParseFailed)
  {
    hide TablesBytes, MapsBytes, VecBytes, ParseVec, ParseTables, ParseMaps, VarIntBytes, ParseVarInt;
    var name: Name := [0xC3, 0xA9];
    assert CharLength(name) == 2 && name[2..] == [];
    var body := VecBytes(ScalarBytes, x.values) + TablesBytes(x) + MapsBytes(x) + tail;
    assert ContractBytes(name, x) + tail == VarIntBytes(1) + (name + body);
    VarIntRoundTrip(1, name + body);
    assert (name + body)[..1] == [0xC3];
    assert CharLength([0xC3]) == 0;
  }
}
