/** From a contract's source to the proof system and back: what a decoded contract's prover shows of the
    source, and what its verifier rebuilds from it. */
module EndToEnd {
  import opened Wrappers
  import opened Bytes
  import opened Utf8
  import opened Serial
  import opened Field
  import opened Assembly
  import opened Compiler
  import opened Simulation
  import opened LocalSlots
  import opened CompilerCorrect
  import opened Endian
  import opened Lib
  import opened CompiledContract
  import E = ContractExporter
  import F = ContractFormat
  import C = Circuit
  import Vm

  /** The values before the run: the parameters, and zero elsewhere. */
  function StartOf(n: nat, params: map<nat, Fp>): (r: seq<Fp>)
    ensures |r| == n
  {
    seq(n, i => if i in params then params[i] else ZERO)
  }

  /** The run of the source's lines from these parameters. */
  ghost function SourceRun(lines: seq<Line<Name>>, constants: seq<Name>, alloc: seq<Variable<Name>>, values: seq<Fp>,
                           params: map<nat, Fp>): SrcOutcome<Name>
  {
    SrcRun(alloc, constants, values, InitialEnv(alloc, StartOf(|alloc|, params)), lines, |lines|)
  }

  /** The named values are those of the public variables. */
  ghost predicate ShowsPublics(named: map<Name, Fp>, alloc: seq<Variable<Name>>, vars: map<Name, Fp>) {
    && (forall s :: s in named <==> exists i: nat :: F.HasVariable(alloc, true, s, i))
    && forall s :: s in named ==> s in vars && named[s] == vars[s]
  }

  /** Whatever order the public values are iterated in, the vector rebuilt from them is that of the inputs
      that the constraint generator allocates. */
  ghost predicate Rebuilds(z: F.ZkContract, named: map<Name, Fp>, aux: seq<Fp>) {
    && C.InTable(z.alloc, aux)
    && forall entries: seq<(Name, Fp)> :: Enumerates(entries, named) ==>
         && IndexPublics(entries, z.publicMap).Some?
         && Seconds(SortByIndex(IndexPublics(entries, z.publicMap).value))
         == C.AllocationOf(z.alloc, Some(aux)).inputValues
  }

  /** What making a proof from these parameters comes to, in terms of the source: the same errors; else the
      public values by name, and the assignment that the constraint generator allocates satisfies the generated
      constraints exactly when the source's constraints hold of its own values. */
  ghost predicate ProofIsOfSource(z: F.ZkContract, names: map<nat, Name>, order: seq<(nat, Fp)>, lines: seq<Line<Name>>,
                                  constants: seq<Name>, alloc: seq<Variable<Name>>, values: seq<Fp>, params: map<nat,
                                  Fp>)
    requires C.AllConstantsExist(z.constraints, z.constants)
  {
    var o := Vm.Initialized(|z.alloc|, z.ops, z.constants, order);
    match SourceRun(lines, constants, alloc, values, params)
    case SrcStuck => false
    case SrcFailed(e, _) => o.Failed? && o.e == e
    case SrcDone(env) =>
      && o.Done?
      && C.InTable(z.alloc, o.s.aux)
      && (C.Satisfied(C.Denotation(z.constraints, z.constants),
                      C.Assignment(z.alloc, C.AllocationOf(z.alloc, Some(o.s.aux))))
          <==> SrcChecks(lines, 0, constants, values, env.vars, C.FRESH_SIDES))
      && var publics := Vm.Publics(z.alloc, o.s.aux);
      && publics.Some? && NamePublics(publics.value, names).Some?
      && var named := NamePublics(publics.value, names).value;
      && ShowsPublics(named, alloc, env.vars) && Rebuilds(z, named, o.s.aux)
  }

  /* ----- the start ----- */

  lemma {:induction false} ParamsStart(alloc: seq<Variable<Name>>, paramsMap: map<Name, nat>, params: map<nat, Fp>,
                                       order: seq<(nat, Fp)>)
    requires F.IsNameMap(paramsMap, alloc, false) && WellFormedTable(alloc)
    requires params.Keys == paramsMap.Values && Enumerates(order, params)
    ensures Vm.SetParams(seq(|alloc|, _ => ZERO), order) == Some(StartOf(|alloc|, params))
  {
    hide Vm.SetParams;
    var zeros: seq<Fp>, n := seq(|alloc|, _ => ZERO), |alloc|;
    ParamsSet(zeros, order);
    forall i | 0 <= i < |order| ensures order[i].0 < n && order[i].0 in params && params[order[i].0] == order[i].1 {
      assert order[i] in order;
      var s :| s in paramsMap && paramsMap[s] == order[i].0;
      assert F.HasVariable(alloc, false, s, order[i].0);
    }
    var aux := Vm.SetParams(zeros, order).value;
    forall k | 0 <= k < n ensures aux[k] == StartOf(n, params)[k] {
      if k in params {
        assert (k, params[k]) in order;
        var i :| 0 <= i < |order| && order[i] == (k, params[k]);
        assert aux[order[i].0] == order[i].1;
      }
    }
    assert aux == StartOf(n, params);
  }

  /* ----- the end ----- */

  /** The machine's variables are the source's values. */
  lemma {:induction false} VarsAreAux(alloc: seq<Variable<Name>>, env: Env<Name>, st: Vm.State)
    requires WellFormedTable(alloc) && Related(alloc, env, st)
    ensures env.vars == VarsOf(alloc, st.aux)
  {
    hide VarsOf, FindVariable, SlotOf;
    forall s
      ensures s in env.vars <==> s in VarsOf(alloc, st.aux)
      ensures s in env.vars ==> env.vars[s] == VarsOf(alloc, st.aux)[s]
    {
      VarsOfAt(alloc, st.aux, s);
    }
  }

  lemma {:induction false} PublicsShown(alloc: seq<Variable<Name>>, aux: seq<Fp>, publicMap: map<Name, nat>,
                                        names: map<nat, Name>)
    requires WellFormedTable(alloc) && |aux| == |alloc| && F.IsNameMap(publicMap, alloc, true)
    requires Lib.Inverse(publicMap, names)
    ensures Vm.Publics(F.Allocs(alloc), aux).Some?
    ensures var publics := Vm.Publics(F.Allocs(alloc), aux).value;
            NamePublics(publics, names).Some?
            && ShowsPublics(NamePublics(publics, names).value, alloc, VarsOf(alloc, aux))
  {
    hide NamePublics, VarsOf, Vm.Publics, FindVariable;
    PublicsAreNamed(alloc, aux, publicMap, names);
    PublicsFrom(alloc, aux, 0);
    assert F.Allocs(alloc)[0..] == F.Allocs(alloc);
    var publics := Vm.Publics(F.Allocs(alloc), aux).value;
    var named := NamePublics(publics, names).value;
    forall s ensures s in named ==> s in VarsOf(alloc, aux) && named[s] == VarsOf(alloc, aux)[s] {
      if s in named {
        var i := publicMap[s];
        assert F.HasVariable(alloc, true, s, i);
        assert (i, named[s]) in publics;
        VarsOfAt(alloc, aux, s);
        SlotOfEntry(alloc, s, i);
      }
    }
    forall s ensures s in named <==> exists i: nat :: F.HasVariable(alloc, true, s, i) {
      if s in named { assert F.HasVariable(alloc, true, s, publicMap[s]); }
      if i: nat :| F.HasVariable(alloc, true, s, i) {
        assert s in publicMap && publicMap[s] == i && names[i] == s;
        assert (i, aux[i]) in publics;
      }
    }
  }

  lemma {:induction false} SlotOfEntry(alloc: seq<Variable<Name>>, s: Name, i: nat)
    requires WellFormedTable(alloc) && F.HasVariable(alloc, true, s, i)
    ensures i < |alloc| && alloc[i].kind == Vm.Public && alloc[i].symbol == s
    ensures FindVariable(alloc, s).Some? && SlotOf(alloc, s) == i
  {
    hide FindVariable;
    FindIsPosition(alloc, s);
  }

  lemma {:induction false} InputsRebuilt(z: F.ZkContract, alloc: seq<Variable<Name>>, aux: seq<Fp>,
                                         names: map<nat, Name>)
    requires WellFormedTable(alloc) && |aux| == |alloc| && z.alloc == F.Allocs(alloc)
    requires F.IsNameMap(z.publicMap, alloc, true) && Lib.Inverse(z.publicMap, names)
    requires Vm.Publics(z.alloc, aux).Some? && NamePublics(Vm.Publics(z.alloc, aux).value, names).Some?
    ensures Rebuilds(z, NamePublics(Vm.Publics(z.alloc, aux).value, names).value, aux)
  {
    hide SortByIndex, NamePublics, Vm.Publics, C.Values, IndexPublics, Seconds, Lib.Inverse, F.IsNameMap,
         WellFormedTable, Enumerates;
    PublicsAreNamed(alloc, aux, z.publicMap, names);
    var named := NamePublics(Vm.Publics(z.alloc, aux).value, names).value;
    forall entries: seq<(Name, Fp)> | Enumerates(entries, named)
      ensures IndexPublics(entries, z.publicMap).Some?
      ensures Seconds(SortByIndex(IndexPublics(entries, z.publicMap).value)) == C.Values(Vm.Public, z.alloc, aux)
    {
      VerifierRebuildsInputs(alloc, aux, z.publicMap, names, named, entries);
    }
  }

  /* ----- the whole way ----- */

  /** A contract that does what its source says proves what its source says. */
  lemma {:induction false} SourceIsProved(z: F.ZkContract, names: map<nat, Name>, order: seq<(nat, Fp)>,
                                          lines: seq<Line<Name>>, constants: seq<Name>, alloc: seq<Variable<Name>>,
                                          values: seq<Fp>, params: map<nat, Fp>)
    requires WellFormedTable(alloc) && DoesAsSource(z, lines, constants, alloc, values)
    requires Lib.Inverse(z.publicMap, names)
    requires params.Keys == z.paramsMap.Values && Enumerates(order, params)
    ensures C.AllConstantsExist(z.constraints, z.constants)
    ensures ProofIsOfSource(z, names, order, lines, constants, alloc, values, params)
  {
    hide SrcRun, SrcChecks, Vm.Run, Vm.SetParams, C.Satisfied, C.Denotation, F.IsNameMap, InitialEnv, VarsOf,
         WellFormedTable, Related, Lib.Inverse, Enumerates, ShowsPublics, Rebuilds, NamePublics, Vm.Publics, StartOf;
    var aux := StartOf(|alloc|, params);
    ParamsStart(alloc, z.paramsMap, params, order);
    var src := SourceRun(lines, constants, alloc, values, params);
    assert RelatedOutcome(alloc, src, Vm.Run(z.ops, z.constants, Vm.State(aux, [])));
    if src.SrcDone? {
      var st := Vm.Run(z.ops, z.constants, Vm.State(aux, [])).s;
      AuxSize(alloc, src.env, st);
      VarsAreAux(alloc, src.env, st);
      PublicsShown(alloc, st.aux, z.publicMap, names);
      InputsRebuilt(z, alloc, st.aux, names);
      AllocatedIsAux(z, alloc, st.aux);
    }
  }

  lemma {:induction false} AllocatedIsAux(z: F.ZkContract, alloc: seq<Variable<Name>>, aux: seq<Fp>)
    requires WellFormedTable(alloc) && |aux| == |alloc| && z.alloc == F.Allocs(alloc)
    ensures C.InTable(z.alloc, aux) && C.AllocationOf(z.alloc, Some(aux)).Valued?
    ensures C.Assignment(z.alloc, C.AllocationOf(z.alloc, Some(aux))) == aux
  {
    hide C.AllocationOf, C.Assignment;
    C.AssignmentIsAux(z.alloc, aux);
  }

  lemma AuxSize(alloc: seq<Variable<Name>>, env: Env<Name>, st: Vm.State)
    requires Related(alloc, env, st)
    ensures |st.aux| == |alloc|
  {}

  /** Compile, export, decode, set all parameters, run, show the public values, and rebuild the inputs. */
  lemma {:induction false} CompiledIsProved(name: Name, lines: seq<Line<Name>>, constants: seq<Name>, c: Contract<Name>,
                                            values: seq<Fp>, tail: seq<byte>, names: map<nat, Name>, params: map<nat,
                                            Fp>, order: seq<(nat, Fp)>)
    requires Lowerable(lines, constants, c) && Moderate(lines, constants) && IsAscii(name) && |name| < U64
    requires |values| == |constants| && NoClash(LocalNames(lines, |lines|)) && MODULUS <= Pow256(32)
    requires Enumerates(order, params)
    ensures ValidUtf8(name) && E.ContractWritten(name, c, values).Some?
    ensures var z := F.ParseContract(E.ContractWritten(name, c, values).value + tail);
            && z.Parsed? && C.AllConstantsExist(z.value.constraints, z.value.constants)
            && (Lib.Inverse(z.value.publicMap, names) && params.Keys == z.value.paramsMap.Values ==>
                 ProofIsOfSource(z.value, names, order, lines, constants, c.alloc, values, params))
  {
    hide ValidUtf8, Pow256, E.ContractWritten, F.ParseContract, Moderate, IsAscii, DoesAsSource, NoClash, LocalNames,
         ExportOf, WellFormedTable, Lib.Inverse, Enumerates, ProofIsOfSource, Compiled, LowerOps, LowerConstraints;
    DecodedDoesAsSource(name, lines, constants, c, values, tail);
    CompiledTable(lines, constants, c);
    var z := F.ParseContract(E.ContractWritten(name, c, values).value + tail).value;
    ConstantsExist(z, lines, constants, c.alloc, values);
    if Lib.Inverse(z.publicMap, names) && params.Keys == z.paramsMap.Values {
      SourceIsProved(z, names, order, lines, constants, c.alloc, values, params);
    }
  }

  lemma ConstantsExist(z: F.ZkContract, lines: seq<Line<Name>>, constants: seq<Name>, alloc: seq<Variable<Name>>,
                       values: seq<Fp>)
    requires DoesAsSource(z, lines, constants, alloc, values)
    ensures C.AllConstantsExist(z.constraints, z.constants)
  {}
}
