/** vm.rs `synthesize`: constraint instructions turned into rank-1 constraints. */
module Circuit {
  import opened Wrappers
  import opened Field
  import Vm

  /** Which of the three linear combinations of a constraint. */
  datatype Side = Lc0 | Lc1 | Lc2

  datatype ConstraintInstruction =
    | LcAdd(side: Side, index: nat)
    | LcSub(side: Side, index: nat)
    | LcAddOne(side: Side)
    | LcSubOne(side: Side)
    | LcAddCoeff(side: Side, const_: nat, index: nat)
    | LcAddConstant(side: Side, const_: nat)
    | Enforce
    | LcCoeffReset
    | LcCoeffDouble

  /** The constant one, or the variable allocated at the given place. */
  datatype Variable = CsOne | Allocated(place: nat)

  datatype Term = Term(coeff: Fp, variable: Variable)

  type LinearCombination = seq<Term>

  datatype Constraint = Constraint(a: LinearCombination, b: LinearCombination, c: LinearCombination)

  /* ----- the declarative meaning of an instruction list ----- */

  /** The place after the last enforce before i. */
  function SegmentStart(cs: seq<ConstraintInstruction>, i: nat): (r: nat)
    requires i <= |cs|
    ensures r <= i
  {
    if i == 0 then 0 else if cs[i - 1].Enforce? then i else SegmentStart(cs, i - 1)
  }

  /** The number of doublings before i, since the last reset or enforce. */
  function Doublings(cs: seq<ConstraintInstruction>, i: nat): nat
    requires i <= |cs|
  {
    if i == 0 || cs[i - 1].Enforce? || cs[i - 1].LcCoeffReset? then 0
    else Doublings(cs, i - 1) + (if cs[i - 1].LcCoeffDouble? then 1 else 0)
  }

  function Weight(doublings: nat): Fp {
    if doublings == 0 then ONE else var w := Weight(doublings - 1); Add(w, w)
  }

  function SideOf(c: ConstraintInstruction): Option<Side> {
    if c.Enforce? || c.LcCoeffReset? || c.LcCoeffDouble? then None else Some(c.side)
  }

  /** Every variable and every constant the instruction names exists. */
  predicate VariableExists(c: ConstraintInstruction, variables: nat) {
    c.LcAdd? || c.LcSub? || c.LcAddCoeff? ==> c.index < variables
  }

  predicate ConstantExists(c: ConstraintInstruction, constants: seq<Fp>) {
    c.LcAddCoeff? || c.LcAddConstant? ==> c.const_ < |constants|
  }

  predicate AllConstantsExist(cs: seq<ConstraintInstruction>, constants: seq<Fp>) {
    forall i :: 0 <= i < |cs| ==> ConstantExists(cs[i], constants)
  }

  predicate AllExist(cs: seq<ConstraintInstruction>, variables: nat, constants: seq<Fp>) {
    AllConstantsExist(cs, constants) && forall i :: 0 <= i < |cs| ==> VariableExists(cs[i], variables)
  }

  /** What an instruction adds to its side: plus or minus a variable, weighted by the doublings; or
      plus or minus one, a constant multiple of a variable, or a constant, all unweighted. */
  function TermOf(c: ConstraintInstruction, doublings: nat, constants: seq<Fp>): Term
    requires SideOf(c).Some? && ConstantExists(c, constants)
  {
    match c
    case LcAdd(_, i) => Term(Weight(doublings), Allocated(i))
    case LcSub(_, i) => Term(Neg(Weight(doublings)), Allocated(i))
    case LcAddOne(_) => Term(ONE, CsOne)
    case LcSubOne(_) => Term(Neg(ONE), CsOne)
    case LcAddCoeff(_, k, i) => Term(constants[k], Allocated(i))
    case LcAddConstant(_, k) => Term(constants[k], CsOne)
  }

  /** The terms that the instructions from `start` to `end` add to one side. */
  function Terms(cs: seq<ConstraintInstruction>, constants: seq<Fp>, start: nat, end: nat,
                 side: Side): LinearCombination
    requires start <= end <= |cs| && AllConstantsExist(cs, constants)
    decreases end
  {
    if start == end then []
    else
      var here := if SideOf(cs[end - 1]) == Some(side) then [TermOf(cs[end - 1], Doublings(cs, end - 1), constants)]
        else [];
      Terms(cs, constants, start, end - 1, side) + here
  }

  function ConstraintAt(cs: seq<ConstraintInstruction>, constants: seq<Fp>, i: nat): Constraint
    requires i <= |cs| && AllConstantsExist(cs, constants)
  {
    var start := SegmentStart(cs, i);
    Constraint(Terms(cs, constants, start, i, Lc0), Terms(cs, constants, start, i, Lc1),
               Terms(cs, constants, start, i, Lc2))
  }

  /** One constraint for every enforce among the first n instructions: the segment before it. What
      comes after the last enforce constrains nothing. */
  function Denote(cs: seq<ConstraintInstruction>, constants: seq<Fp>, n: nat): seq<Constraint>
    requires n <= |cs| && AllConstantsExist(cs, constants)
  {
    if n == 0 then []
    else Denote(cs, constants, n - 1) + (if cs[n - 1].Enforce? then [ConstraintAt(cs, constants, n - 1)] else [])
  }

  function Denotation(cs: seq<ConstraintInstruction>, constants: seq<Fp>): seq<Constraint>
    requires AllConstantsExist(cs, constants)
  {
    Denote(cs, constants, |cs|)
  }

  /* ----- the generator ----- */

  /** The numbers of inputs and of private variables, and their values in order of allocation where the
      constraint system asks for values. */
  datatype Allocation = Counted(inputs: nat, privates: nat) | Valued(inputValues: seq<Fp>, privateValues: seq<Fp>)

  datatype Synthesized = Synthesized(variables: Allocation, constraints: seq<Constraint>)

  predicate InTable(alloc: seq<(Vm.AllocType, nat)>, aux: seq<Fp>) {
    forall i :: 0 <= i < |alloc| ==> alloc[i].1 < |aux|
  }

  function Values(kind: Vm.AllocType, alloc: seq<(Vm.AllocType, nat)>, aux: seq<Fp>): seq<Fp>
    requires InTable(alloc, aux)
    decreases |alloc|
  {
    if alloc == [] then []
    else
      assert forall i :: 0 <= i < |alloc| - 1 ==> alloc[1..][i] == alloc[i + 1];
      (if alloc[0].0 == kind then [aux[alloc[0].1]] else []) + Values(kind, alloc[1..], aux)
  }

  /** The number of variables of a kind among the first n. */
  function Count(kind: Vm.AllocType, alloc: seq<(Vm.AllocType, nat)>, n: nat): nat
    requires n <= |alloc|
  {
    if n == 0 then 0 else Count(kind, alloc, n - 1) + (if alloc[n - 1].0 == kind then 1 else 0)
  }

  /** The values found before entry k, then those from there on. */
  predicate Collected(kind: Vm.AllocType, alloc: seq<(Vm.AllocType, nat)>, aux: seq<Fp>, k: nat, found: seq<Fp>)
    requires InTable(alloc, aux) && k <= |alloc|
  {
    found + Values(kind, alloc[k..], aux) == Values(kind, alloc, aux)
  }

  lemma {:induction false} CollectedStep(kind: Vm.AllocType, alloc: seq<(Vm.AllocType, nat)>, aux: seq<Fp>, k: nat,
                                         found: seq<Fp>)
    requires InTable(alloc, aux) && k < |alloc| && Collected(kind, alloc, aux, k, found)
    ensures Collected(kind, alloc, aux, k + 1, if alloc[k].0 == kind then found + [aux[alloc[k].1]] else found)
  {
    assert alloc[k..][1..] == alloc[k + 1..];
  }

  lemma {:induction false} CollectedEnds(kind: Vm.AllocType, alloc: seq<(Vm.AllocType, nat)>, aux: seq<Fp>,
                                         found: seq<Fp>)
    requires InTable(alloc, aux)
    ensures Collected(kind, alloc, aux, 0, [])
    ensures Collected(kind, alloc, aux, |alloc|, found) ==> found == Values(kind, alloc, aux)
  {
    assert alloc[0..] == alloc && found + [] == found;
  }

  /** What is allocated with these values; setup has none, and asks for none. */
  function AllocationOf(alloc: seq<(Vm.AllocType, nat)>, aux: Option<seq<Fp>>): Allocation
    requires aux.Some? ==> InTable(alloc, aux.value)
  {
    match aux
    case None => Counted(Count(Vm.Public, alloc, |alloc|), Count(Vm.Private, alloc, |alloc|))
    case Some(values) => Valued(Values(Vm.Public, alloc, values), Values(Vm.Private, alloc, values))
  }

  /** What was allocated holds these values: the value of entry k stands in the list of its kind, after those
      of the entries of its kind before it. */
  ghost predicate HoldsValues(alloc: seq<(Vm.AllocType, nat)>, aux: seq<Fp>, a: Allocation) {
    && a.Valued?
    && |a.inputValues| == Count(Vm.Public, alloc, |alloc|) && |a.privateValues| == Count(Vm.Private, alloc, |alloc|)
    && forall k :: 0 <= k < |alloc| ==>
         var values := if alloc[k].0 == Vm.Public then a.inputValues else a.privateValues;
         var place := Count(alloc[k].0, alloc, k);
         place < |values| && alloc[k].1 < |aux| && values[place] == aux[alloc[k].1]
  }

  lemma {:induction false} ValueAt(kind: Vm.AllocType, alloc: seq<(Vm.AllocType, nat)>, aux: seq<Fp>, k: nat)
    requires InTable(alloc, aux) && k < |alloc| && alloc[k].0 == kind
    ensures Count(kind, alloc, k) < |Values(kind, alloc, aux)|
    ensures Values(kind, alloc, aux)[Count(kind, alloc, k)] == aux[alloc[k].1]
    decreases |alloc|
  {
    if k > 0 {
      assert alloc[1..][k - 1] == alloc[k];
      assert forall i :: 0 <= i < |alloc[1..]| ==> alloc[1..][i] == alloc[i + 1];
      ValueAt(kind, alloc[1..], aux, k - 1);
      CountFirst(kind, alloc, k - 1);
    }
  }

  lemma {:induction false} AllocationHoldsValues(alloc: seq<(Vm.AllocType, nat)>, aux: seq<Fp>)
    requires InTable(alloc, aux)
    ensures HoldsValues(alloc, aux, AllocationOf(alloc, Some(aux)))
  {
    hide Values, Count;
    ValuesCount(Vm.Public, alloc, aux);
    ValuesCount(Vm.Private, alloc, aux);
    forall k | 0 <= k < |alloc|
      ensures Count(alloc[k].0, alloc, k) < |Values(alloc[k].0, alloc, aux)|
      ensures Values(alloc[k].0, alloc, aux)[Count(alloc[k].0, alloc, k)] == aux[alloc[k].1]
    {
      ValueAt(alloc[k].0, alloc, aux, k);
    }
  }

  /** The first loop: one variable for every entry of the table. A value is looked up only if there are values. */
  method Allocate(alloc: seq<(Vm.AllocType, nat)>, aux: Option<seq<Fp>>) returns (r: Option<(Allocation, nat)>)
    ensures r.Some? <==> (aux.Some? ==> InTable(alloc, aux.value))
    ensures r.Some? ==> r.value == (AllocationOf(alloc, aux), |alloc|)
    ensures r.Some? && aux.Some? ==> HoldsValues(alloc, aux.value, r.value.0)
  {
    hide Collected, Values, HoldsValues;
    var values := if aux.Some? then aux.value else [];
    var inputs: seq<Fp>, privates: seq<Fp> := [], [];
    var inputCount, privateCount, variables := 0, 0, 0;
    ghost var ok := aux.Some? && InTable(alloc, values);
    if ok {
      CollectedEnds(Vm.Public, alloc, values, []);
      CollectedEnds(Vm.Private, alloc, values, []);
    }
    for k := 0 to |alloc|
      invariant aux.Some? ==> forall i :: 0 <= i < k ==> alloc[i].1 < |values|
      invariant variables == k
      invariant inputCount == Count(Vm.Public, alloc, k) && privateCount == Count(Vm.Private, alloc, k)
      invariant ok ==>
        Collected(Vm.Public, alloc, values, k, inputs) && Collected(Vm.Private, alloc, values, k, privates)
    {
      var (kind, index) := alloc[k];
      if aux.Some? && index >= |values| {
        return None;
      }
      if ok {
        CollectedStep(Vm.Public, alloc, values, k, inputs);
        CollectedStep(Vm.Private, alloc, values, k, privates);
      }
      if kind == Vm.Private {
        privates := if aux.Some? then privates + [values[index]] else [];
        privateCount := privateCount + 1;
      } else {
        inputs := if aux.Some? then inputs + [values[index]] else [];
        inputCount := inputCount + 1;
      }
      variables := variables + 1;
    }
    if aux.None? {
      return Some((Counted(inputCount, privateCount), variables));
    }
    CollectedEnds(Vm.Public, alloc, values, inputs);
    CollectedEnds(Vm.Private, alloc, values, privates);
    AllocationHoldsValues(alloc, values);
    r := Some((Valued(inputs, privates), variables));
  }

  /** The second loop. None is an index outside the variables or the constants. */
  method Generate(variables: nat, cs: seq<ConstraintInstruction>, constants: seq<Fp>)
    returns (r: Option<seq<Constraint>>)
    ensures r.Some? <==> AllExist(cs, variables, constants)
    ensures r.Some? ==> r.value == Denotation(cs, constants)
  {
    hide Residue, Add, Neg;
    ghost var ok := AllConstantsExist(cs, constants);
    var coeff := ONE;
    var lc0: LinearCombination, lc1: LinearCombination, lc2: LinearCombination := [], [], [];
    var out: seq<Constraint> := [];
    for i := 0 to |cs|
      invariant forall k :: 0 <= k < i ==> ConstantExists(cs[k], constants) && VariableExists(cs[k], variables)
      invariant coeff == Weight(Doublings(cs, i))
      invariant ok ==> Constraint(lc0, lc1, lc2) == ConstraintAt(cs, constants, i)
      invariant ok ==> out == Denote(cs, constants, i)
    {
      var c := cs[i];
      if !VariableExists(c, variables) || !ConstantExists(c, constants) {
        return None;
      }
      if SideOf(c).Some? {
        var term := match c {
          case LcAdd(_, index) => Term(coeff, Allocated(index))
          case LcSub(_, index) => Term(Neg(coeff), Allocated(index))
          case LcAddOne(_) => Term(ONE, CsOne)
          case LcSubOne(_) => Term(Neg(ONE), CsOne)
          case LcAddCoeff(_, const_, index) => Term(constants[const_], Allocated(index))
          case LcAddConstant(_, const_) => Term(constants[const_], CsOne)
        };
        match c.side {
          case Lc0 => lc0 := lc0 + [term];
          case Lc1 => lc1 := lc1 + [term];
          case Lc2 => lc2 := lc2 + [term];
        }
      } else if c.Enforce? {
        out := out + [Constraint(lc0, lc1, lc2)];
        coeff := ONE;
        lc0, lc1, lc2 := [], [], [];
      } else if c.LcCoeffReset? {
        coeff := ONE;
      } else {
        coeff := Add(coeff, coeff);
      }
    }
    r := Some(out);
  }

  /** `synthesize` with the values of a prover, or for setup without values. */
  method Synthesize(alloc: seq<(Vm.AllocType, nat)>, aux: Option<seq<Fp>>, cs: seq<ConstraintInstruction>,
                    constants: seq<Fp>)
    returns (r: Option<Synthesized>)
    ensures r.Some? <==> (aux.Some? ==> InTable(alloc, aux.value)) && AllExist(cs, |alloc|, constants)
    ensures r.Some? ==> r.value == Synthesized(AllocationOf(alloc, aux), Denotation(cs, constants))
    ensures r.Some? && aux.Some? ==> HoldsValues(alloc, aux.value, r.value.variables)
  {
    var made := Allocate(alloc, aux);
    if made.None? {
      return None;
    }
    var constraints := Generate(made.value.1, cs, constants);
    if constraints.None? {
      return None;
    }
    r := Some(Synthesized(made.value.0, constraints.value));
  }

  lemma {:induction false} CountFirst(kind: Vm.AllocType, alloc: seq<(Vm.AllocType, nat)>, n: nat)
    requires n < |alloc|
    ensures Count(kind, alloc, n + 1) == (if alloc[0].0 == kind then 1 else 0) + Count(kind, alloc[1..], n)
  {
    if n > 0 { CountFirst(kind, alloc, n - 1); }
  }

  lemma {:induction false} ValuesCount(kind: Vm.AllocType, alloc: seq<(Vm.AllocType, nat)>, aux: seq<Fp>)
    requires InTable(alloc, aux)
    ensures |Values(kind, alloc, aux)| == Count(kind, alloc, |alloc|)
    decreases |alloc|
  {
    if alloc != [] {
      assert forall i :: 0 <= i < |alloc[1..]| ==> alloc[1..][i] == alloc[i + 1];
      ValuesCount(kind, alloc[1..], aux);
      CountFirst(kind, alloc, |alloc| - 1);
    }
  }

  /** Setup and prover allocate the same numbers of variables; their constraints are the same anyway. */
  lemma {:induction false} SetupAllocatesAsProver(alloc: seq<(Vm.AllocType, nat)>, aux: seq<Fp>)
    requires InTable(alloc, aux)
    ensures AllocationOf(alloc, None)
         == Counted(|AllocationOf(alloc, Some(aux)).inputValues|, |AllocationOf(alloc, Some(aux)).privateValues|)
  {
    ValuesCount(Vm.Public, alloc, aux);
    ValuesCount(Vm.Private, alloc, aux);
  }

  /** The assignment that the proof system is given: the value allocated for every variable, in the order of
      the table, which is how the constraints refer to them. */
  function Assignment(alloc: seq<(Vm.AllocType, nat)>, a: Allocation): (w: seq<Fp>)
    requires a.Valued?
    ensures |w| == |alloc|
  {
    seq(|alloc|, k requires 0 <= k < |alloc| =>
      var values := if alloc[k].0 == Vm.Public then a.inputValues else a.privateValues;
      var place := Count(alloc[k].0, alloc, k);
      if place < |values| then values[place] else ZERO)
  }

  /** It gives every entry of the table the value of its index. */
  lemma {:induction false} AssignmentIsAux(alloc: seq<(Vm.AllocType, nat)>, aux: seq<Fp>)
    requires InTable(alloc, aux)
    ensures AllocationOf(alloc, Some(aux)).Valued?
    ensures forall k :: 0 <= k < |alloc| ==> Assignment(alloc, AllocationOf(alloc, Some(aux)))[k] == aux[alloc[k].1]
  {
    hide Count, Values;
    AllocationHoldsValues(alloc, aux);
  }

  /* ----- satisfaction ----- */

  /** w gives the value of every allocated variable; outside it, as a convention, zero. */
  function ValueOf(v: Variable, w: seq<Fp>): Fp {
    match v
    case CsOne => ONE
    case Allocated(i) => if i < |w| then w[i] else ZERO
  }

  function EvalLc(lc: LinearCombination, w: seq<Fp>): Fp {
    if lc == [] then ZERO
    else Add(EvalLc(lc[..|lc| - 1], w), Mul(lc[|lc| - 1].coeff, ValueOf(lc[|lc| - 1].variable, w)))
  }

  predicate Holds(c: Constraint, w: seq<Fp>) {
    Mul(EvalLc(c.a, w), EvalLc(c.b, w)) == EvalLc(c.c, w)
  }

  predicate Satisfied(constraints: seq<Constraint>, w: seq<Fp>) {
    forall i :: 0 <= i < |constraints| ==> Holds(constraints[i], w)
  }

  /** The running values of the three sides and the running coefficient. */
  datatype Sides = Sides(a: Fp, b: Fp, c: Fp, coeff: Fp)

  const FRESH_SIDES := Sides(ZERO, ZERO, ZERO, ONE)

  function AddTo(s: Sides, side: Side, v: Fp): Sides {
    match side
    case Lc0 => s.(a := Add(s.a, v))
    case Lc1 => s.(b := Add(s.b, v))
    case Lc2 => s.(c := Add(s.c, v))
  }

  function Contribution(c: ConstraintInstruction, coeff: Fp, constants: seq<Fp>, w: seq<Fp>): Fp
    requires SideOf(c).Some? && ConstantExists(c, constants)
  {
    match c
    case LcAdd(_, i) => Mul(coeff, ValueOf(Allocated(i), w))
    case LcSub(_, i) => Mul(Neg(coeff), ValueOf(Allocated(i), w))
    case LcAddOne(_) => Mul(ONE, ONE)
    case LcSubOne(_) => Mul(Neg(ONE), ONE)
    case LcAddCoeff(_, k, i) => Mul(constants[k], ValueOf(Allocated(i), w))
    case LcAddConstant(_, k) => Mul(constants[k], ONE)
  }

  /** Executes the instructions on values instead of terms, checking at every enforce. */
  predicate Checks(cs: seq<ConstraintInstruction>, constants: seq<Fp>, w: seq<Fp>, s: Sides)
    requires AllConstantsExist(cs, constants)
    decreases |cs|
  {
    if cs == [] then true
    else
      var c := cs[0];
      if SideOf(c).Some? then Checks(cs[1..], constants, w, AddTo(s, c.side, Contribution(c, s.coeff, constants, w)))
      else if c.Enforce? then Mul(s.a, s.b) == s.c && Checks(cs[1..], constants, w, FRESH_SIDES)
      else if c.LcCoeffReset? then Checks(cs[1..], constants, w, s.(coeff := ONE))
      else Checks(cs[1..], constants, w, s.(coeff := Add(s.coeff, s.coeff)))
  }

  /** The sides after an instruction, and what it demands of them. */
  function After(c: ConstraintInstruction, s: Sides, constants: seq<Fp>, w: seq<Fp>): Sides
    requires ConstantExists(c, constants)
  {
    if SideOf(c).Some? then AddTo(s, c.side, Contribution(c, s.coeff, constants, w))
    else if c.Enforce? then FRESH_SIDES
    else if c.LcCoeffReset? then s.(coeff := ONE)
    else s.(coeff := Add(s.coeff, s.coeff))
  }

  predicate Demand(c: ConstraintInstruction, s: Sides) {
    c.Enforce? ==> Mul(s.a, s.b) == s.c
  }

  lemma {:induction false} ChecksStep(cs: seq<ConstraintInstruction>, constants: seq<Fp>, w: seq<Fp>, k: nat, s: Sides)
    requires k < |cs| && AllConstantsExist(cs, constants)
    ensures Checks(cs[k..], constants, w, s)
       <==> Demand(cs[k], s) && Checks(cs[k + 1..], constants, w, After(cs[k], s, constants, w))
  {
    hide Residue, Add, Mul, Neg, Contribution;
    assert cs[k..][1..] == cs[k + 1..];
  }

  /** The running values are those of the terms collected so far. */
  function SidesAt(cs: seq<ConstraintInstruction>, constants: seq<Fp>, w: seq<Fp>, i: nat): Sides
    requires i <= |cs| && AllConstantsExist(cs, constants)
  {
    var k := ConstraintAt(cs, constants, i);
    Sides(EvalLc(k.a, w), EvalLc(k.b, w), EvalLc(k.c, w), Weight(Doublings(cs, i)))
  }

  lemma {:induction false} TermAdds(lc: LinearCombination, t: Term, w: seq<Fp>)
    ensures EvalLc(lc + [t], w) == Add(EvalLc(lc, w), Mul(t.coeff, ValueOf(t.variable, w)))
  {
    hide Residue, Add, Mul;
    assert (lc + [t])[..|lc|] == lc;
  }

  lemma {:induction false} SidesStep(cs: seq<ConstraintInstruction>, constants: seq<Fp>, w: seq<Fp>, i: nat)
    requires i < |cs| && AllConstantsExist(cs, constants)
    ensures var c, s, t := cs[i], SidesAt(cs, constants, w, i), SidesAt(cs, constants, w, i + 1);
            if SideOf(c).Some? then t == AddTo(s, c.side, Contribution(c, s.coeff, constants, w))
            else if c.Enforce? then t == FRESH_SIDES
            else if c.LcCoeffReset? then t == s.(coeff := ONE)
            else t == s.(coeff := Add(s.coeff, s.coeff))
  {
    hide Residue, Add, Mul, Neg, EvalLc, Terms, TermOf, Contribution;
    if !cs[i].Enforce? {
      SideStep(cs, constants, w, i, Lc0);
      SideStep(cs, constants, w, i, Lc1);
      SideStep(cs, constants, w, i, Lc2);
    } else {
      NoTerms(cs, constants, w, i + 1);
    }
  }

  lemma {:induction false} NoTerms(cs: seq<ConstraintInstruction>, constants: seq<Fp>, w: seq<Fp>, i: nat)
    requires i <= |cs| && AllConstantsExist(cs, constants)
    ensures forall side :: EvalLc(Terms(cs, constants, i, i, side), w) == ZERO
  {}

  lemma {:induction false} SideStep(cs: seq<ConstraintInstruction>, constants: seq<Fp>, w: seq<Fp>, i: nat, side: Side)
    requires i < |cs| && AllConstantsExist(cs, constants)
    ensures var before := EvalLc(Terms(cs, constants, SegmentStart(cs, i), i, side), w);
            var after := EvalLc(Terms(cs, constants, SegmentStart(cs, i), i + 1, side), w);
            if SideOf(cs[i]) == Some(side)
              then after == Add(before, Contribution(cs[i], Weight(Doublings(cs, i)), constants, w))
            else after == before
  {
    hide Residue, Add, Mul, Neg;
    var lc := Terms(cs, constants, SegmentStart(cs, i), i, side);
    if SideOf(cs[i]) == Some(side) {
      TermAdds(lc, TermOf(cs[i], Doublings(cs, i), constants), w);
    } else {
      assert lc + [] == lc;
    }
  }

  lemma {:induction false} ChecksFrom(cs: seq<ConstraintInstruction>, constants: seq<Fp>, w: seq<Fp>, i: nat)
    requires i <= |cs| && AllConstantsExist(cs, constants)
    ensures |Denote(cs, constants, i)| <= |Denotation(cs, constants)|
    ensures Denotation(cs, constants)[..|Denote(cs, constants, i)|] == Denote(cs, constants, i)
    ensures Checks(cs[i..], constants, w, SidesAt(cs, constants, w, i))
       <==> Satisfied(Denotation(cs, constants)[|Denote(cs, constants, i)|..], w)
    decreases |cs| - i
  {
    hide Residue, Add, Mul, Neg, EvalLc, ConstraintAt;
    var all, n := Denotation(cs, constants), |Denote(cs, constants, i)|;
    if i < |cs| {
      ChecksFrom(cs, constants, w, i + 1);
      SidesStep(cs, constants, w, i);
      assert cs[i..][1..] == cs[i + 1..];
      if cs[i].Enforce? {
        assert all[..n + 1] == Denote(cs, constants, i) + [ConstraintAt(cs, constants, i)];
        assert all[n] == ConstraintAt(cs, constants, i);
        assert all[..n] == all[..n + 1][..n] == Denote(cs, constants, i);
        assert all[n..] == [all[n]] + all[n + 1..];
      }
    }
  }

  /** The generated constraints hold exactly when executing the instructions on values succeeds. */
  lemma {:induction false} SatisfiedIffChecks(cs: seq<ConstraintInstruction>, constants: seq<Fp>, w: seq<Fp>)
    requires AllConstantsExist(cs, constants)
    ensures Satisfied(Denotation(cs, constants), w) <==> Checks(cs, constants, w, FRESH_SIDES)
  {
    hide Residue, Add, Mul, Neg;
    ChecksFrom(cs, constants, w, 0);
    assert cs[0..] == cs && Denotation(cs, constants)[0..] == Denotation(cs, constants);
  }

  /** In one constraint: the coefficient weighs added and subtracted variables, is doubled, and is reset. */
  lemma {:induction false} CoefficientWeighs(i: nat, j: nat, constants: seq<Fp>, w: seq<Fp>)
    requires |constants| == 1 && i < |w| && j < |w|
    ensures var code := [LcCoeffDouble, LcSub(Lc0, i), LcCoeffReset, LcAdd(Lc1, j), LcAddConstant(Lc2, 0), Enforce];
            var (x: int, y: int) := (w[i], w[j]);
            Satisfied(Denotation(code, constants), w) <==> Residue(-2 * x * y) == constants[0]
  {
    hide Residue, Add, Mul, Neg, After, Checks, Satisfied, Denotation;
    var code := [LcCoeffDouble, LcSub(Lc0, i), LcCoeffReset, LcAdd(Lc1, j), LcAddConstant(Lc2, 0), Enforce];
    SatisfiedIffChecks(code, constants, w);
    var a, b := Mul(Neg(Add(ONE, ONE)), w[i]), Mul(ONE, w[j]);
    var s := FRESH_SIDES;
    var s1, s2 := s.(coeff := Add(ONE, ONE)), Sides(Add(ZERO, a), ZERO, ZERO, Add(ONE, ONE));
    var s3, s4 := s2.(coeff := ONE), Sides(Add(ZERO, a), Add(ZERO, b), ZERO, ONE);
    var s5 := s4.(c := Add(ZERO, Mul(constants[0], ONE)));
    AfterEach(code[0], s, constants, w);
    AfterEach(code[1], s1, constants, w);
    AfterEach(code[2], s2, constants, w);
    AfterEach(code[3], s3, constants, w);
    AfterEach(code[4], s4, constants, w);
    ChecksStep(code, constants, w, 0, s);
    ChecksStep(code, constants, w, 1, s1);
    ChecksStep(code, constants, w, 2, s2);
    ChecksStep(code, constants, w, 3, s3);
    ChecksStep(code, constants, w, 4, s4);
    ChecksStep(code, constants, w, 5, s5);
    NothingChecked(code, constants, w, After(code[5], s5, constants, w));
    assert code[0..] == code;
    Units(a);
    Units(b);
    Units(w[j]);
    Units(constants[0]);
    MinusTwice(w[i], w[j]);
  }

  /** After a constraint the coefficient is one again, and the sides are empty. */
  lemma {:induction false} EnforceStartsAgain(i: nat, w: seq<Fp>)
    requires i < |w|
    ensures var code := [LcCoeffDouble, Enforce, LcAdd(Lc1, i), LcAddOne(Lc0), LcSubOne(Lc2), Enforce];
            Satisfied(Denotation(code, []), w) <==> w[i] == Residue(-1)
  {
    hide Residue, Add, Mul, Neg, After, Checks, Satisfied, Denotation;
    var code := [LcCoeffDouble, Enforce, LcAdd(Lc1, i), LcAddOne(Lc0), LcSubOne(Lc2), Enforce];
    SatisfiedIffChecks(code, [], w);
    var s, b := FRESH_SIDES, Mul(ONE, w[i]);
    var s1, s3 := s.(coeff := Add(ONE, ONE)), s.(b := Add(ZERO, b));
    var s4 := s3.(a := Add(ZERO, Mul(ONE, ONE)));
    var s5 := s4.(c := Add(ZERO, Mul(Neg(ONE), ONE)));
    AfterEach(code[0], s, [], w);
    AfterEnforce(s1, [], w);
    AfterEach(code[2], s, [], w);
    AfterOnes(s3, [], w);
    AfterOnes(s4, [], w);
    ChecksStep(code, [], w, 0, s);
    ChecksStep(code, [], w, 1, s1);
    ChecksStep(code, [], w, 2, s);
    ChecksStep(code, [], w, 3, s3);
    ChecksStep(code, [], w, 4, s4);
    ChecksStep(code, [], w, 5, s5);
    NothingChecked(code, [], w, After(code[5], s5, [], w));
    assert code[0..] == code;
    Units(ONE);
    Units(ZERO);
    Units(b);
    Units(w[i]);
    Units(Neg(ONE));
    ResidueNeg(1);
    ResidueId(1);
  }

  lemma AfterEnforce(s: Sides, constants: seq<Fp>, w: seq<Fp>)
    ensures After(Enforce, s, constants, w) == FRESH_SIDES
  {}

  lemma AfterOnes(s: Sides, constants: seq<Fp>, w: seq<Fp>)
    ensures After(LcAddOne(Lc0), s, constants, w) == s.(a := Add(s.a, Mul(ONE, ONE)))
    ensures After(LcSubOne(Lc2), s, constants, w) == s.(c := Add(s.c, Mul(Neg(ONE), ONE)))
  {
    hide Residue, Add, Mul, Neg;
  }

  lemma AfterEach(c: ConstraintInstruction, s: Sides, constants: seq<Fp>, w: seq<Fp>)
    requires ConstantExists(c, constants)
    ensures c.LcCoeffDouble? ==> After(c, s, constants, w) == s.(coeff := Add(s.coeff, s.coeff))
    ensures c.LcCoeffReset? ==> After(c, s, constants, w) == s.(coeff := ONE)
    ensures c.LcSub? && c.side == Lc0 && c.index < |w| ==>
      After(c, s, constants, w) == s.(a := Add(s.a, Mul(Neg(s.coeff), w[c.index])))
    ensures c.LcAdd? && c.side == Lc1 && c.index < |w| ==>
      After(c, s, constants, w) == s.(b := Add(s.b, Mul(s.coeff, w[c.index])))
    ensures c.LcAddConstant? && c.side == Lc2 ==>
      After(c, s, constants, w) == s.(c := Add(s.c, Mul(constants[c.const_], ONE)))
  {
    hide Residue, Add, Mul, Neg;
  }

  lemma {:induction false} NothingChecked(cs: seq<ConstraintInstruction>, constants: seq<Fp>, w: seq<Fp>, s: Sides)
    requires AllConstantsExist(cs, constants)
    ensures Checks(cs[|cs|..], constants, w, s)
  {}

  lemma MinusTwice(x: Fp, y: Fp)
    ensures Mul(Mul(Neg(Add(ONE, ONE)), x), y) == Residue(-2 * x * y)
  {
    ResidueNeg(2);
    ResidueAdd(1, 1);
    ResidueMul(-2, x);
    ResidueMul(-2 * x, y);
    ResidueId(x);
    ResidueId(y);
    ResidueId(1);
  }
}
