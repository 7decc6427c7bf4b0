/** vm.rs: the witness interpreter `initialize`, and the constraint generator `synthesize`. */
module Vm {
  import opened Wrappers
  import opened Bytes
  import opened Field

  datatype VariableRef = Aux(index: nat) | Local(index: nat)

  datatype CryptoOperation =
    | Set(dst: VariableRef, src: VariableRef)
    | Mul(dst: VariableRef, src: VariableRef)
    | Add(dst: VariableRef, src: VariableRef)
    | Sub(dst: VariableRef, src: VariableRef)
    | Divide(dst: VariableRef, src: VariableRef)
    | Double(dst: VariableRef)
    | Square(dst: VariableRef)
    | Invert(dst: VariableRef)
    | UnpackBits(value: VariableRef, start: VariableRef, end: VariableRef)
    | LocalDecl
    | Load(dst: VariableRef, const_: nat)
    | Debug(text: seq<byte>, shown: VariableRef)
    | DumpAlloc
    | DumpLocal

  datatype AllocType = Private | Public

  datatype VmError = DivisionByZero | MalformedRange

  /** The values of the allocated variables, and the stack of locals. */
  datatype State = State(aux: seq<Fp>, locals: seq<Fp>)

  /** A run ends normally, with one of the source's errors, or by indexing outside a vector. */
  datatype Outcome = Done(s: State) | Failed(e: VmError, s: State) | Panicked

  /* ----- reading and writing through references ----- */

  predicate InRange(r: VariableRef, s: State) {
    match r
    case Aux(i) => i < |s.aux|
    case Local(i) => i < |s.locals|
  }

  function Read(r: VariableRef, s: State): Fp
    requires InRange(r, s)
  {
    match r
    case Aux(i) => s.aux[i]
    case Local(i) => s.locals[i]
  }

  function Write(r: VariableRef, s: State, v: Fp): (t: State)
    requires InRange(r, s)
    ensures |t.aux| == |s.aux| && |t.locals| == |s.locals|
  {
    match r
    case Aux(i) => s.(aux := s.aux[i := v])
    case Local(i) => s.(locals := s.locals[i := v])
  }

  /* ----- bits ----- */

  /** The number of bits of a scalar's representation. */
  const BITS: nat := 256

  /** The i-th bit of the representation, least significant first. */
  function BitOf(v: nat, i: nat): Fp {
    if i == 0 then (if v % 2 == 1 then ONE else ZERO) else BitOf(v / 2, i - 1)
  }

  function CellAfter(cells: seq<Fp>, start: nat, v: Fp, i: nat): Fp
    requires i < |cells|
  {
    if start <= i < start + BITS then BitOf(v, i - start) else cells[i]
  }

  /** The cells from `start` on, overwritten by the bits of v. */
  function WithBits(cells: seq<Fp>, start: nat, v: Fp): (r: seq<Fp>)
    ensures |r| == |cells|
  {
    seq(|cells|, i requires 0 <= i < |cells| => CellAfter(cells, start, v, i))
  }

  /** The range checks of `UnpackBits`. */
  predicate GoodRange(start: nat, end: nat, len: nat) {
    start <= end && end + 1 - start == BITS && end < len
  }

  /* ----- one operation ----- */

  ghost function Apply2(dst: VariableRef, src: VariableRef, s: State, f: (Fp, Fp) -> Fp): Outcome {
    if InRange(src, s) && InRange(dst, s) then Done(Write(dst, s, f(Read(dst, s), Read(src, s)))) else Panicked
  }

  ghost function Unpacked(value: VariableRef, start: VariableRef, end: VariableRef, s: State): Outcome {
    if !InRange(value, s) then Panicked
    else
      match (start, end)
      case (Aux(i), Aux(j)) =>
        if GoodRange(i, j, |s.aux|) then Done(s.(aux := WithBits(s.aux, i, Read(value, s))))
        else Failed(MalformedRange, s)
      case (Local(i), Local(j)) =>
        if GoodRange(i, j, |s.locals|) then Done(s.(locals := WithBits(s.locals, i, Read(value, s))))
        else Failed(MalformedRange, s)
      case _ => Failed(MalformedRange, s)
  }

  ghost function Step(op: CryptoOperation, constants: seq<Fp>, s: State): Outcome {
    match op
    case Set(dst, src) => Apply2(dst, src, s, (_, b) => b)
    case Mul(dst, src) => Apply2(dst, src, s, (a, b) => Field.Mul(a, b))
    case Add(dst, src) => Apply2(dst, src, s, (a, b) => Field.Add(a, b))
    case Sub(dst, src) => Apply2(dst, src, s, (a, b) => Field.Sub(a, b))
    case Divide(dst, src) =>
      if !(InRange(src, s) && InRange(dst, s)) then Panicked
      else if Read(src, s) == ZERO then Failed(DivisionByZero, s)
      else Done(Write(dst, s, Div(Read(dst, s), Read(src, s))))
    case Double(dst) => Apply2(dst, dst, s, (a, b) => Field.Add(a, b))
    case Square(dst) => Apply2(dst, dst, s, (a, b) => Field.Mul(a, b))
    case Invert(dst) =>
      if !InRange(dst, s) then Panicked
      else if Read(dst, s) == ZERO then Failed(DivisionByZero, s)
      else Done(Write(dst, s, Inv(Read(dst, s))))
    case UnpackBits(value, start, end) => Unpacked(value, start, end, s)
    case LocalDecl => Done(s.(locals := s.locals + [ZERO]))
    case Load(dst, c) =>
      if InRange(dst, s) && c < |constants| then Done(Write(dst, s, constants[c])) else Panicked
    case Debug(_, shown) => if InRange(shown, s) then Done(s) else Panicked
    case DumpAlloc => Done(s)
    case DumpLocal => Done(s)
  }

  /** A range is unpacked into exactly when both ends are variables, or both are locals, and it lies within
      them and has 256 cells; then these take the bits and everything else stays. Any other is an error. */
  lemma UnpackedIff(value: VariableRef, start: VariableRef, end: VariableRef, constants: seq<Fp>, s: State)
    requires InRange(value, s)
    ensures var o := Step(UnpackBits(value, start, end), constants, s);
            var cells := if start.Aux? then s.aux else s.locals;
            && (o.Done? <==> start.Aux? == end.Aux? && start.index <= end.index && end.index + 1 - start.index == 256
                             && end.index < |cells|)
            && (o.Done? ==>
                 var after := if start.Aux? then o.s.aux else o.s.locals;
                 && (if start.Aux? then o.s.locals == s.locals else o.s.aux == s.aux) && |after| == |cells|
                 && forall k :: 0 <= k < |cells| ==>
                      after[k] == if start.index <= k < start.index + 256 then BitOf(Read(value, s), k - start.index)
                                  else cells[k])
            && (!o.Done? ==> o == Failed(MalformedRange, s))
  {
    hide BitOf;
  }

  /** The variables that are looked up without a check; of an unpacked range both ends are checked. */
  function Touched(op: CryptoOperation): set<VariableRef> {
    match op
    case Set(a, b) => {a, b} case Mul(a, b) => {a, b} case Add(a, b) => {a, b} case Sub(a, b) => {a, b}
    case Divide(a, b) => {a, b} case Double(a) => {a} case Square(a) => {a} case Invert(a) => {a}
    case UnpackBits(value, _, _) => {value} case Load(a, _) => {a} case Debug(_, a) => {a}
    case _ => {}
  }

  /** An operation stops the program exactly when a variable or constant that it looks up does not exist. */
  lemma PanicsIff(op: CryptoOperation, constants: seq<Fp>, s: State)
    ensures Step(op, constants, s).Panicked?
       <==> (exists r :: r in Touched(op) && !InRange(r, s)) || (op.Load? && op.const_ >= |constants|)
  {
    hide BitOf, Residue, Div, Inv;
    var touched := Touched(op);
    match op {
      case Set(a, b) => assert a in touched && b in touched;
      case Mul(a, b) => assert a in touched && b in touched;
      case Add(a, b) => assert a in touched && b in touched;
      case Sub(a, b) => assert a in touched && b in touched;
      case Divide(a, b) => assert a in touched && b in touched;
      case Double(a) => assert a in touched;
      case Square(a) => assert a in touched;
      case Invert(a) => assert a in touched;
      case UnpackBits(a, _, _) => assert a in touched;
      case Load(a, _) => assert a in touched;
      case Debug(_, a) => assert a in touched;
      case _ =>
    }
  }

  /** The variable that an operation writes. */
  function Target(op: CryptoOperation): Option<VariableRef> {
    match op
    case Set(dst, _) => Some(dst) case Mul(dst, _) => Some(dst) case Add(dst, _) => Some(dst)
    case Sub(dst, _) => Some(dst) case Divide(dst, _) => Some(dst) case Double(dst) => Some(dst)
    case Square(dst) => Some(dst) case Invert(dst) => Some(dst) case Load(dst, _) => Some(dst)
    case _ => None
  }

  /** What the written variable is afterwards, as an equation; nothing else changes. Subtraction, division
      and inversion are solved for by their inverse operations. */
  lemma TargetSolves(op: CryptoOperation, constants: seq<Fp>, s: State, t: State)
    requires Step(op, constants, s) == Done(t) && Target(op).Some?
    ensures var dst := Target(op).value;
            && InRange(dst, s) && InRange(dst, t)
            && (forall r :: InRange(r, s) && r != dst ==> InRange(r, t) && Read(r, t) == Read(r, s))
            && |t.aux| == |s.aux| && |t.locals| == |s.locals|
            && var (x, y) := (Read(dst, s), Read(dst, t));
               match op
               case Set(_, src) => y == Read(src, s)
               case Mul(_, src) => y == Residue(x * Read(src, s))
               case Add(_, src) => y == Residue(x + Read(src, s))
               case Sub(_, src) => Residue(y + Read(src, s)) == x
               case Divide(_, src) => Residue(y * Read(src, s)) == x && Read(src, s) != 0
               case Double(_) => y == Residue(2 * x)
               case Square(_) => y == Residue(x * x)
               case Invert(_) => Residue(y * x) == 1
               case Load(_, c) => c < |constants| && y == constants[c]
  {
    hide Residue, Field.Mul, Field.Add, Field.Sub, Div, Inv;
    match op {
      case Sub(dst, src) => SubAdds(Read(dst, s), Read(src, s));
      case Divide(dst, src) => DivMul(Read(dst, s), Read(src, s)); ProductIsMul(Read(dst, t), Read(src, s));
      case Invert(dst) => InverseSolves(Read(dst, s));
      case Mul(dst, src) => ProductIsMul(Read(dst, s), Read(src, s));
      case Square(dst) => ProductIsMul(Read(dst, s), Read(dst, s));
      case Add(dst, src) => SumIsAdd(Read(dst, s), Read(src, s));
      case Double(dst) => SumIsAdd(Read(dst, s), Read(dst, s));
      case _ =>
    }
  }

  lemma ProductIsMul(a: Fp, b: Fp)
    ensures Field.Mul(a, b) == Residue(a * b)
  {}

  lemma SumIsAdd(a: Fp, b: Fp)
    ensures Field.Add(a, b) == Residue(a + b)
  {}

  lemma SubAdds(a: Fp, b: Fp)
    ensures Residue(Field.Sub(a, b) + b) == a
  {
    ResidueAdd(a - b, b);
    ResidueId(a);
    ResidueId(b);
    assert a - b + b == a;
  }

  lemma InverseSolves(a: Fp)
    requires a != ZERO
    ensures Residue(Inv(a) * a) == 1
  {
    hide Residue, Field.Mul;
    MulComm(a, Inv(a));
    ProductIsMul(Inv(a), a);
  }

  /** All operations in order, up to the first that fails. */
  ghost function Run(ops: seq<CryptoOperation>, constants: seq<Fp>, s: State): Outcome {
    if ops == [] then Done(s)
    else
      var o := Step(ops[0], constants, s);
      if o.Done? then Run(ops[1..], constants, o.s) else o
  }

  /** The parameters, written one after the other into the zeroed variables. */
  function SetParams(aux: seq<Fp>, params: seq<(nat, Fp)>): Option<seq<Fp>>
    decreases |params|
  {
    if params == [] then Some(aux)
    else if params[0].0 >= |aux| then None
    else SetParams(aux[params[0].0 := params[0].1], params[1..])
  }

  ghost function Initialized(count: nat, ops: seq<CryptoOperation>, constants: seq<Fp>,
                             params: seq<(nat, Fp)>): Outcome {
    match SetParams(seq(count, _ => ZERO), params)
    case None => Panicked
    case Some(aux) => Run(ops, constants, State(aux, []))
  }

  datatype RunResult = RunOk | RunErr(e: VmError) | RunPanic

  class ZkVirtualMachine {
    const constants: seq<Fp>
    const alloc: seq<(AllocType, nat)>
    const ops: seq<CryptoOperation>
    var aux: seq<Fp>

    constructor (constants: seq<Fp>, alloc: seq<(AllocType, nat)>, ops: seq<CryptoOperation>)
      ensures this.constants == constants && this.alloc == alloc && this.ops == ops && aux == []
    {
      this.constants := constants;
      this.alloc := alloc;
      this.ops := ops;
      aux := [];
    }

    /** Computes all variables from the parameters. Where the source panics the result says so, and
        nothing is promised about the variables. */
    method Initialize(params: seq<(nat, Fp)>) returns (r: RunResult)
      modifies this
      ensures match Initialized(|alloc|, ops, constants, params)
              case Done(s) => r == RunOk && aux == s.aux
              case Failed(e, s) => r == RunErr(e) && aux == s.aux
              case Panicked => r == RunPanic
    {
      aux := seq(|alloc|, _ => ZERO);
      ghost var goal := SetParams(aux, params);
      for i := 0 to |params|
        invariant SetParams(aux, params[i..]) == goal
      {
        if params[i].0 >= |aux| {
          return RunPanic;
        }
        assert params[i..][1..] == params[i + 1..];
        aux := aux[params[i].0 := params[i].1];
      }

      var s := State(aux, []);
      ghost var end := Run(ops, constants, s);
      assert ops[0..] == ops;
      for i := 0 to |ops|
        invariant Run(ops[i..], constants, s) == end
      {
        assert ops[i..][1..] == ops[i + 1..];
        r, s := Execute(ops[i], s);
        if r != RunOk {
          aux := s.aux;
          return;
        }
      }
      aux := s.aux;
      r := RunOk;
    }

    /** One iteration of the loop. */
    method Execute(op: CryptoOperation, s: State) returns (r: RunResult, t: State)
      ensures match Step(op, constants, s)
              case Done(u) => r == RunOk && t == u
              case Failed(e, u) => r == RunErr(e) && t == u
              case Panicked => r == RunPanic
    {
      hide Residue, Field.Add, Field.Mul, Field.Sub;
      r, t := RunOk, s;
      match op {
        case Set(dst, src) =>
          if !InRange(src, s) || !InRange(dst, s) { return RunPanic, s; }
          t := Write(dst, s, Read(src, s));
        case Mul(dst, src) =>
          if !InRange(src, s) || !InRange(dst, s) { return RunPanic, s; }
          t := Write(dst, s, Field.Mul(Read(dst, s), Read(src, s)));
        case Add(dst, src) =>
          if !InRange(src, s) || !InRange(dst, s) { return RunPanic, s; }
          t := Write(dst, s, Field.Add(Read(dst, s), Read(src, s)));
        case Sub(dst, src) =>
          if !InRange(src, s) || !InRange(dst, s) { return RunPanic, s; }
          t := Write(dst, s, Field.Sub(Read(dst, s), Read(src, s)));
        case Divide(dst, src) =>
          if !InRange(src, s) || !InRange(dst, s) { return RunPanic, s; }
          var inv := Inverse(Read(src, s));
          if inv.None? { return RunErr(DivisionByZero), s; }
          InverseUnique(Read(src, s), inv.value);
          t := Write(dst, s, Field.Mul(Read(dst, s), inv.value));
        case Double(dst) =>
          if !InRange(dst, s) { return RunPanic, s; }
          t := Write(dst, s, Field.Add(Read(dst, s), Read(dst, s)));
        case Square(dst) =>
          if !InRange(dst, s) { return RunPanic, s; }
          t := Write(dst, s, Field.Mul(Read(dst, s), Read(dst, s)));
        case Invert(dst) =>
          if !InRange(dst, s) { return RunPanic, s; }
          var inv := Inverse(Read(dst, s));
          if inv.None? { return RunErr(DivisionByZero), s; }
          InverseUnique(Read(dst, s), inv.value);
          t := Write(dst, s, inv.value);
        case UnpackBits(value, start, end) =>
          if !InRange(value, s) { return RunPanic, s; }
          var cells := if start.Aux? then s.aux else s.locals;
          if start.Aux? != end.Aux? || start.index > end.index || (end.index + 1) - start.index != BITS
             || end.index >= |cells| {
            return RunErr(MalformedRange), s;
          }
          cells := Unpack(cells, start.index, Read(value, s));
          t := if start.Aux? then s.(aux := cells) else s.(locals := cells);
        case LocalDecl =>
          t := s.(locals := s.locals + [ZERO]);
        case Load(dst, c) =>
          if !InRange(dst, s) || c >= |constants| { return RunPanic, s; }
          t := Write(dst, s, constants[c]);
        case Debug(_, shown) =>
          if !InRange(shown, s) { return RunPanic, s; }
        case DumpAlloc =>
        case DumpLocal =>
      }
    }

    /** The bit loop of `UnpackBits`. */
    method Unpack(cells: seq<Fp>, start: nat, value: Fp) returns (r: seq<Fp>)
      requires start + BITS <= |cells|
      ensures r == WithBits(cells, start, value)
    {
      r := cells;
      for i := 0 to BITS
        invariant |r| == |cells|
        invariant forall k :: 0 <= k < |cells| ==>
          r[k] == if start <= k < start + i then BitOf(value, k - start) else cells[k]
      {
        r := r[start + i := BitOf(value, i)];
      }
    }

    /** The public variables and their values, in the order of allocation; None if an allocated
        index is outside the variables. */
    method PublicValues() returns (r: Option<seq<(nat, Fp)>>)
      ensures r == Publics(alloc, aux)
    {
      var publics: seq<(nat, Fp)> := [];
      PublicsEnds(alloc, aux, publics);
      for i := 0 to |alloc|
        invariant Publics(alloc, aux) == Prepend(publics, Publics(alloc[i..], aux))
      {
        PublicsStep(alloc, i, aux, publics);
        var (kind, index) := alloc[i];
        if kind == Public {
          if index >= |aux| {
            return None;
          }
          publics := publics + [(index, aux[index])];
        }
      }
      PublicsEnds(alloc, aux, publics);
      r := Some(publics);
    }
  }

  function Prepend<T>(s: seq<T>, rest: Option<seq<T>>): Option<seq<T>> {
    match rest
    case None => None
    case Some(r) => Some(s + r)
  }

  lemma {:induction false} PublicsStep(alloc: seq<(AllocType, nat)>, i: nat, aux: seq<Fp>, found: seq<(nat, Fp)>)
    requires i < |alloc|
    ensures Prepend(found, Publics(alloc[i..], aux))
         == if alloc[i].0 == Private then Prepend(found, Publics(alloc[i + 1..], aux))
            else if alloc[i].1 >= |aux| then None
            else Prepend(found + [(alloc[i].1, aux[alloc[i].1])], Publics(alloc[i + 1..], aux))
  {
    assert alloc[i..][1..] == alloc[i + 1..];
    match Publics(alloc[i + 1..], aux)
    case None =>
    case Some(rest) =>
      if alloc[i].0 == Public && alloc[i].1 < |aux| {
        var here: (nat, Fp) := (alloc[i].1, aux[alloc[i].1]);
        assert found + ([here] + rest) == found + [here] + rest;
      }
  }

  lemma {:induction false} PublicsEnds(alloc: seq<(AllocType, nat)>, aux: seq<Fp>, found: seq<(nat, Fp)>)
    ensures Prepend([], Publics(alloc[0..], aux)) == Publics(alloc, aux)
    ensures Prepend(found, Publics(alloc[|alloc|..], aux)) == Some(found)
  {
    assert alloc[0..] == alloc && found + [] == found;
    match Publics(alloc, aux)
    case None =>
    case Some(rest) => assert [] + rest == rest;
  }

  function Publics(alloc: seq<(AllocType, nat)>, aux: seq<Fp>): Option<seq<(nat, Fp)>>
    decreases |alloc|
  {
    if alloc == [] then Some([])
    else if alloc[0].0 == Private then Publics(alloc[1..], aux)
    else if alloc[0].1 >= |aux| then None
    else Prepend([(alloc[0].1, aux[alloc[0].1])], Publics(alloc[1..], aux))
  }
}
