/** lib.rs: the book-keeping of parameters and public values around a proof. */
module Lib {
  import opened Wrappers
  import opened Field
  import opened Compiler
  import F = ContractFormat
  import C = Circuit
  import Vm

  type Name = F.Name

  datatype ContractError = InvalidParamName | MissingParams | BadContract | VmFailed(e: Vm.VmError) | Panicked

  /* ----- lists of pairs ----- */

  /** The pairs are those of the map, each once, in some order: what iterating over a hash map gives. */
  ghost predicate Enumerates<K(!new), V(!new)>(pairs: seq<(K, V)>, m: map<K, V>) {
    && (forall i, j :: 0 <= i < j < |pairs| ==> pairs[i].0 != pairs[j].0)
    && (forall p :: p in pairs ==> p.0 in m && m[p.0] == p.1) && (forall k :: k in m ==> (k, m[k]) in pairs)
  }

  function Seconds<K, V>(pairs: seq<(K, V)>): (r: seq<V>)
    ensures |r| == |pairs| && forall i :: 0 <= i < |r| ==> r[i] == pairs[i].1
  {
    seq(|pairs|, i requires 0 <= i < |pairs| => pairs[i].1)
  }

  predicate Increasing(pairs: seq<(nat, Fp)>) { forall i, j :: 0 <= i < j < |pairs| ==> pairs[i].0 < pairs[j].0 }

  function Insert(p: (nat, Fp), sorted: seq<(nat, Fp)>): seq<(nat, Fp)>
    decreases |sorted|
  {
    if sorted == [] then [p]
    else if sorted[|sorted| - 1].0 <= p.0 then sorted + [p]
    else Insert(p, sorted[..|sorted| - 1]) + [sorted[|sorted| - 1]]
  }

  /** `sort_by` the index, keeping the order of equal indices. */
  function SortByIndex(pairs: seq<(nat, Fp)>): seq<(nat, Fp)>
    decreases |pairs|
  {
    if pairs == [] then [] else Insert(pairs[|pairs| - 1], SortByIndex(pairs[..|pairs| - 1]))
  }

  lemma {:induction false} InsertKeeps(p: (nat, Fp), sorted: seq<(nat, Fp)>)
    requires Increasing(sorted) && forall i :: 0 <= i < |sorted| ==> sorted[i].0 != p.0
    ensures Increasing(Insert(p, sorted))
    ensures forall q :: q in Insert(p, sorted) <==> q == p || q in sorted
    decreases |sorted|
  {
    if sorted != [] && sorted[|sorted| - 1].0 > p.0 {
      var init, last := sorted[..|sorted| - 1], sorted[|sorted| - 1];
      InsertKeeps(p, init);
      assert sorted == init + [last];
      var r := Insert(p, init);
      forall i | 0 <= i < |r| ensures r[i].0 < last.0 { assert r[i] in r; }
    }
  }

  /** With distinct indices, sorting gives the same pairs in increasing order. */
  lemma {:induction false} SortSorts(pairs: seq<(nat, Fp)>)
    requires forall i, j :: 0 <= i < j < |pairs| ==> pairs[i].0 != pairs[j].0
    ensures Increasing(SortByIndex(pairs))
    ensures forall q :: q in SortByIndex(pairs) <==> q in pairs
    decreases |pairs|
  {
    if pairs != [] {
      var init, last := pairs[..|pairs| - 1], pairs[|pairs| - 1];
      SortSorts(init);
      assert pairs == init + [last];
      var sorted := SortByIndex(init);
      forall i | 0 <= i < |sorted| ensures sorted[i].0 != last.0 {
        assert sorted[i] in init;
        var k :| 0 <= k < |init| && init[k] == sorted[i];
        assert pairs[k] == init[k];
      }
      InsertKeeps(last, sorted);
    }
  }

  /** There is only one increasing list of given pairs. */
  lemma {:induction false} IncreasingUnique(a: seq<(nat, Fp)>, b: seq<(nat, Fp)>)
    requires Increasing(a) && Increasing(b) && forall q :: q in a <==> q in b
    ensures a == b
    decreases |a|
  {
    hide Increasing;
    if a != [] { assert a[0] in b; }
    if b != [] { assert b[0] in a; }
    if a != [] {
      var x, y := a[|a| - 1], b[|b| - 1];
      LastIsGreatest(a, b);
      LastIsGreatest(b, a);
      var a', b' := a[..|a| - 1], b[..|b| - 1];
      assert a == a' + [x] && b == b' + [y];
      InitIncreasing(a', x);
      InitIncreasing(b', y);
      forall q ensures q in a' <==> q in b' { NotLast(a', x, q); NotLast(b', x, q); }
      IncreasingUnique(a', b');
    }
  }

  lemma {:induction false} InitIncreasing(init: seq<(nat, Fp)>, last: (nat, Fp))
    requires Increasing(init + [last])
    ensures Increasing(init)
  {
    assert forall i :: 0 <= i < |init| ==> init[i] == (init + [last])[i];
  }

  lemma {:induction false} LastIsGreatest(a: seq<(nat, Fp)>, b: seq<(nat, Fp)>)
    requires Increasing(a) && a != [] && b != [] && forall q :: q in a <==> q in b
    ensures a[|a| - 1].0 >= b[|b| - 1].0 && (a[|a| - 1].0 == b[|b| - 1].0 ==> a[|a| - 1] == b[|b| - 1])
  {
    var y := b[|b| - 1];
    assert y in b && y in a;
    var j :| 0 <= j < |a| && a[j] == y;
  }

  lemma {:induction false} NotLast(a: seq<(nat, Fp)>, x: (nat, Fp), q: (nat, Fp))
    requires Increasing(a + [x])
    ensures q in a <==> q in a + [x] && q != x
  {
    if q in a {
      var i :| 0 <= i < |a| && a[i] == q;
      assert (a + [x])[i] == q && (a + [x])[|a|] == x;
    }
  }

  /* ----- parameters ----- */

  /** Writing parameters with distinct indices: each has its value, and the rest is as before. */
  lemma {:induction false} ParamsSet(aux: seq<Fp>, params: seq<(nat, Fp)>)
    requires forall i, j :: 0 <= i < j < |params| ==> params[i].0 != params[j].0
    ensures Vm.SetParams(aux, params).None? <==> exists i :: 0 <= i < |params| && params[i].0 >= |aux|
    ensures match Vm.SetParams(aux, params)
            case None => true
            case Some(r) =>
              && |r| == |aux| && (forall i :: 0 <= i < |params| ==> r[params[i].0] == params[i].1)
              && (forall k :: 0 <= k < |aux| && (forall i :: 0 <= i < |params| ==> params[i].0 != k) ==> r[k] == aux[k])
    decreases |params|
  {
    if params != [] && params[0].0 < |aux| {
      var rest, next := params[1..], aux[params[0].0 := params[0].1];
      assert forall i :: 0 <= i < |rest| ==> rest[i] == params[i + 1];
      assert forall i :: 1 <= i < |params| ==> params[i] == rest[i - 1];
      ParamsSet(next, rest);
    }
  }

  /** The order in which a hash map of parameters is iterated over does not matter. */
  lemma {:induction false} ParamOrderIrrelevant(aux: seq<Fp>, params: map<nat, Fp>, p: seq<(nat, Fp)>,
                                                q: seq<(nat, Fp)>)
    requires Enumerates(p, params) && Enumerates(q, params)
    ensures Vm.SetParams(aux, p) == Vm.SetParams(aux, q)
  {
    hide Vm.SetParams;
    ParamsSet(aux, p);
    ParamsSet(aux, q);
    SameParams(params, p, q);
    SameParams(params, q, p);
    var a, b := Vm.SetParams(aux, p), Vm.SetParams(aux, q);
    if i :| 0 <= i < |p| && p[i].0 >= |aux| { assert p[i] in q; }
    if i :| 0 <= i < |q| && q[i].0 >= |aux| { assert q[i] in p; }
    if a.Some? {
      forall k | 0 <= k < |aux| ensures a.value[k] == b.value[k] {
        if i :| 0 <= i < |p| && p[i].0 == k {
          assert p[i] in q;
        } else {
          forall j | 0 <= j < |q| ensures q[j].0 != k { assert q[j] in p; }
        }
      }
      assert a.value == b.value;
    }
  }

  lemma {:induction false} SameParams(params: map<nat, Fp>, p: seq<(nat, Fp)>, q: seq<(nat, Fp)>)
    requires Enumerates(p, params) && Enumerates(q, params)
    ensures forall x :: x in p ==> x in q
  {
    forall x | x in p ensures x in q { assert x == (x.0, params[x.0]); }
  }

  /* ----- public values ----- */

  /** The public values by name, as `prove` returns them; None when an index has no name. */
  function NamePublics(publics: seq<(nat, Fp)>, names: map<nat, Name>): Option<map<Name, Fp>>
    decreases |publics|
  {
    if publics == [] then Some(map[])
    else
      var before, (index, value) := NamePublics(publics[..|publics| - 1], names), publics[|publics| - 1];
      if before.None? || index !in names then None else Some(before.value[names[index] := value])
  }

  /** The indices of named values, as `verify` looks them up; None when a name is unknown. */
  function IndexPublics(entries: seq<(Name, Fp)>, publicMap: map<Name, nat>): (r: Option<seq<(nat, Fp)>>)
    ensures r.Some? <==> forall i :: 0 <= i < |entries| ==> entries[i].0 in publicMap
    ensures r.Some? ==>
      |r.value| == |entries| && forall i :: 0 <= i < |entries| ==> r.value[i] == (publicMap[entries[i].0], entries[i].1)
    decreases |entries|
  {
    if entries == [] then Some([])
    else
      var before, (name, value) := IndexPublics(entries[..|entries| - 1], publicMap), entries[|entries| - 1];
      if before.None? || name !in publicMap then None else Some(before.value + [(publicMap[name], value)])
  }

  /** The two directions of a one-to-one map. */
  ghost predicate Inverse(publicMap: map<Name, nat>, names: map<nat, Name>) {
    forall s, i :: s in publicMap && publicMap[s] == i <==> i in names && names[i] == s
  }

  /** The named values are these public values, by name. */
  ghost predicate AreNamed(named: map<Name, Fp>, publics: seq<(nat, Fp)>, publicMap: map<Name, nat>,
                           names: map<nat, Name>) {
    && (forall s :: s in named ==> s in publicMap && (publicMap[s], named[s]) in publics)
    && (forall q :: q in publics ==> q.0 in names && names[q.0] in named && named[names[q.0]] == q.1)
  }

  lemma {:induction false} NamedValues(publics: seq<(nat, Fp)>, names: map<nat, Name>, publicMap: map<Name, nat>)
    requires Inverse(publicMap, names) && Increasing(publics) && forall q :: q in publics ==> q.0 in names
    ensures NamePublics(publics, names).Some? && AreNamed(NamePublics(publics, names).value, publics, publicMap, names)
    decreases |publics|
  {
    hide AreNamed, Increasing, Inverse;
    if publics == [] {
      NothingNamed(publicMap, names);
    } else {
      var init, last := publics[..|publics| - 1], publics[|publics| - 1];
      assert publics == init + [last];
      InitIncreasing(init, last);
      forall q | q in init ensures q in publics { }
      NamedValues(init, names, publicMap);
      assert last in publics;
      OneMoreNamed(NamePublics(init, names).value, init, last, publicMap, names);
    }
  }

  lemma {:induction false} NothingNamed(publicMap: map<Name, nat>, names: map<nat, Name>)
    ensures AreNamed(map[], [], publicMap, names)
  {}

  lemma {:induction false} OneMoreNamed(named: map<Name, Fp>, init: seq<(nat, Fp)>, last: (nat, Fp),
                                        publicMap: map<Name, nat>, names: map<nat, Name>)
    requires Inverse(publicMap, names) && Increasing(init + [last]) && last.0 in names
    requires AreNamed(named, init, publicMap, names)
    ensures AreNamed(named[names[last.0] := last.1], init + [last], publicMap, names)
  {
    var publics, name := init + [last], names[last.0];
    assert publicMap[name] == last.0 && publics[|init|] == last;
    forall q | q in init ensures q in publics && names[q.0] != name {
      var i :| 0 <= i < |init| && init[i] == q;
      assert publics[i] == q && publicMap[names[q.0]] == q.0;
    }
  }

  /** The public values of a compiled contract: those of its public variables, in order. */
  ghost predicate ArePublics(publics: seq<(nat, Fp)>, alloc: seq<Variable<Name>>, aux: seq<Fp>, k: nat)
    requires |aux| == |alloc|
  {
    && Increasing(publics)
    && (forall q :: q in publics ==> k <= q.0 < |alloc| && alloc[q.0].kind == Vm.Public && q.1 == aux[q.0])
    && (forall i :: k <= i < |alloc| && alloc[i].kind == Vm.Public ==> (i, aux[i]) in publics)
  }

  lemma {:induction false} PublicsFrom(alloc: seq<Variable<Name>>, aux: seq<Fp>, k: nat)
    requires WellFormedTable(alloc) && |aux| == |alloc| && k <= |alloc|
    ensures C.InTable(F.Allocs(alloc)[k..], aux)
    ensures var p := Vm.Publics(F.Allocs(alloc)[k..], aux);
            p.Some? && ArePublics(p.value, alloc, aux, k)
            && Seconds(p.value) == C.Values(Vm.Public, F.Allocs(alloc)[k..], aux)
    decreases |alloc| - k
  {
    hide ArePublics;
    var a := F.Allocs(alloc)[k..];
    if k == |alloc| {
      NoPublics(alloc, aux);
    } else {
      PublicsFrom(alloc, aux, k + 1);
      assert a[1..] == F.Allocs(alloc)[k + 1..] && a[0] == (alloc[k].kind, k);
      var rest := Vm.Publics(a[1..], aux).value;
      OnePublic(rest, alloc, aux, k);
      if alloc[k].kind == Vm.Public {
        assert Vm.Publics(a, aux) == Some([(k, aux[k])] + rest);
        assert Seconds([(k, aux[k])] + rest) == [aux[k]] + Seconds(rest);
      }
    }
  }

  lemma {:induction false} NoPublics(alloc: seq<Variable<Name>>, aux: seq<Fp>)
    requires |aux| == |alloc|
    ensures ArePublics([], alloc, aux, |alloc|)
  {}

  lemma {:induction false} OnePublic(rest: seq<(nat, Fp)>, alloc: seq<Variable<Name>>, aux: seq<Fp>, k: nat)
    requires |aux| == |alloc| && k < |alloc| && ArePublics(rest, alloc, aux, k + 1)
    ensures ArePublics(if alloc[k].kind == Vm.Public then [(k, aux[k])] + rest else rest, alloc, aux, k)
  {
    if alloc[k].kind == Vm.Public {
      var p: seq<(nat, Fp)> := [(k, aux[k])] + rest;
      forall i | 0 <= i < |rest| ensures rest[i].0 > k { assert rest[i] in rest; }
      forall i, j | 0 <= i < j < |p| ensures p[i].0 < p[j].0 {}
      assert p[0] == (k, aux[k]);
      forall i | k <= i < |alloc|
        && alloc[i].kind == Vm.Public ensures (i, aux[i]) in p { if i > k { assert (i, aux[i]) in rest; } }
    }
  }

  /** Every public variable has a name, so that `prove` finds all of them. */
  lemma {:induction false} PublicsAreNamed(alloc: seq<Variable<Name>>, aux: seq<Fp>, publicMap: map<Name, nat>,
                                           names: map<nat, Name>)
    requires WellFormedTable(alloc) && |aux| == |alloc| && F.IsNameMap(publicMap, alloc, true)
    requires Inverse(publicMap, names)
    ensures C.InTable(F.Allocs(alloc), aux) && Vm.Publics(F.Allocs(alloc), aux).Some?
    ensures var publics := Vm.Publics(F.Allocs(alloc), aux).value;
            && Increasing(publics) && Seconds(publics) == C.Values(Vm.Public, F.Allocs(alloc), aux)
            && NamePublics(publics, names).Some?
            && AreNamed(NamePublics(publics, names).value, publics, publicMap, names)
  {
    PublicsFrom(alloc, aux, 0);
    assert F.Allocs(alloc)[0..] == F.Allocs(alloc);
    var publics := Vm.Publics(F.Allocs(alloc), aux).value;
    forall q | q in publics ensures q.0 in names {
      assert F.Selected(alloc[q.0], true) && alloc[q.0].index == q.0;
      assert F.HasVariable(alloc, true, alloc[q.0].symbol, q.0);
    }
    NamedValues(publics, names, publicMap);
  }

  lemma {:induction false} EntriesAreIndexed(publics: seq<(nat, Fp)>, publicMap: map<Name, nat>, names: map<nat, Name>,
                                             named: map<Name, Fp>, entries: seq<(Name, Fp)>)
    requires Inverse(publicMap, names) && AreNamed(named, publics, publicMap, names) && Enumerates(entries, named)
    ensures IndexPublics(entries, publicMap).Some?
    ensures var r := IndexPublics(entries, publicMap).value;
            && (forall i, j :: 0 <= i < j < |r| ==> r[i].0 != r[j].0) && (forall q :: q in r <==> q in publics)
  {
    forall i | 0 <= i < |entries|
      ensures entries[i].0 in publicMap && (publicMap[entries[i].0], entries[i].1) in publics
    {
      assert entries[i] in entries;
    }
    var r := IndexPublics(entries, publicMap).value;
    forall q | q in publics ensures q in r {
      var s := names[q.0];
      assert (s, named[s]) in entries;
      var k :| 0 <= k < |entries| && entries[k] == (s, named[s]);
      assert s in publicMap && publicMap[s] == q.0;
      assert r[k] == q;
    }
    forall i, j | 0 <= i < j < |r| ensures r[i].0 != r[j].0 {
      assert names[publicMap[entries[i].0]] == entries[i].0 && names[publicMap[entries[j].0]] == entries[j].0;
    }
  }

  /** Whatever order the hash map of a proof is iterated in, the vector that `verify` rebuilds from it is
      the list of public inputs that `synthesize` allocated when the proof was made. */
  lemma {:induction false} VerifierRebuildsInputs(alloc: seq<Variable<Name>>, aux: seq<Fp>, publicMap: map<Name, nat>,
                                                  names: map<nat, Name>, named: map<Name, Fp>, entries: seq<(Name, Fp)>)
    requires WellFormedTable(alloc) && |aux| == |alloc| && F.IsNameMap(publicMap, alloc, true)
    requires Inverse(publicMap, names)
    requires Vm.Publics(F.Allocs(alloc), aux).Some?
    requires NamePublics(Vm.Publics(F.Allocs(alloc), aux).value, names) == Some(named) && Enumerates(entries, named)
    ensures IndexPublics(entries, publicMap).Some? && C.InTable(F.Allocs(alloc), aux)
    ensures Seconds(SortByIndex(IndexPublics(entries, publicMap).value)) == C.Values(Vm.Public, F.Allocs(alloc), aux)
  {
    hide SortByIndex, NamePublics, Vm.Publics, C.Values, AreNamed, Inverse, Enumerates, F.IsNameMap, WellFormedTable;
    PublicsAreNamed(alloc, aux, publicMap, names);
    var publics := Vm.Publics(F.Allocs(alloc), aux).value;
    EntriesAreIndexed(publics, publicMap, names, named, entries);
    var indexed := IndexPublics(entries, publicMap).value;
    SortSorts(indexed);
    IncreasingUnique(SortByIndex(indexed), publics);
  }

  /* ----- the contract ----- */

  class ZkContract {
    const vm: Vm.ZkVirtualMachine
    const paramsMap: map<Name, nat>
    const publicMap: map<Name, nat>
    /** The other direction of the public map. */
    const publicNames: map<nat, Name>
    var params: map<nat, Fp>

    constructor (vm: Vm.ZkVirtualMachine, paramsMap: map<Name, nat>, publicMap: map<Name, nat>,
                 publicNames: map<nat, Name>)
      ensures this.vm == vm && this.paramsMap == paramsMap && this.publicMap == publicMap
      ensures this.publicNames == publicNames
      ensures params == map[]
    {
      this.vm := vm;
      this.paramsMap := paramsMap;
      this.publicMap := publicMap;
      this.publicNames := publicNames;
      params := map[];
    }

    method SetParam(name: Name, value: Fp) returns (r: Result<(), ContractError>)
      modifies this
      ensures if name in paramsMap then r == Ok(()) && params == old(params)[paramsMap[name] := value]
              else r == Err(InvalidParamName) && params == old(params)
    {
      if name !in paramsMap {
        return Err(InvalidParamName);
      }
      params := params[paramsMap[name] := value];
      r := Ok(());
    }

    /** The public values of a proof. `order` is the order in which the hash map of parameters happens to
        be iterated over. All parameters must be set; afterwards none is. */
    method Prove(order: seq<(nat, Fp)>) returns (r: Result<map<Name, Fp>, ContractError>)
      requires Enumerates(order, params)
      modifies this, vm
      ensures old(params).Keys != paramsMap.Values ==>
        r == Err(MissingParams) && params == old(params) && vm.aux == old(vm.aux)
      ensures old(params).Keys == paramsMap.Values ==>
        && params == map[]
        && match Vm.Initialized(|vm.alloc|, vm.ops, vm.constants, order)
           case Panicked => r == Err(Panicked)
           case Failed(e, s) => r == Err(VmFailed(e)) && vm.aux == s.aux
           case Done(s) =>
             && vm.aux == s.aux
             && match Vm.Publics(vm.alloc, s.aux)
                case None => r == Err(Panicked)
                case Some(publics) =>
                  r == if NamePublics(publics, publicNames).Some? then Ok(NamePublics(publics, publicNames).value)
                  else Err(BadContract)
    {
      if params.Keys != paramsMap.Values {
        return Err(MissingParams);
      }
      params := map[];
      var ran := vm.Initialize(order);
      if ran == Vm.RunPanic {
        return Err(Panicked);
      }
      if ran.RunErr? {
        return Err(VmFailed(ran.e));
      }
      var publics := vm.PublicValues();
      if publics.None? {
        return Err(Panicked);
      }
      var public: map<Name, Fp> := map[];
      for i := 0 to |publics.value|
        invariant NamePublics(publics.value[..i], publicNames) == Some(public)
      {
        var (index, value) := publics.value[i];
        assert publics.value[..i + 1][..i] == publics.value[..i];
        if index !in publicNames {
          assert NamePublics(publics.value[..i + 1], publicNames).None?;
          StaysUnnamed(publics.value, publicNames, i + 1);
          return Err(BadContract);
        }
        public := public[publicNames[index] := value];
      }
      assert publics.value[..|publics.value|] == publics.value;
      r := Ok(public);
    }

    /** The vector that is handed to the proof system; None when the answer is no without asking it.
        `entries` is the public map of the proof in the order in which it happens to be iterated over. */
    method PublicInputs(entries: seq<(Name, Fp)>) returns (r: Option<seq<Fp>>)
      ensures var indexed := IndexPublics(entries, publicMap);
              r == if indexed.None? then None else Some(Seconds(SortByIndex(indexed.value)))
    {
      var public: seq<(nat, Fp)> := [];
      for i := 0 to |entries|
        invariant IndexPublics(entries[..i], publicMap) == Some(public)
      {
        var (name, value) := entries[i];
        assert entries[..i + 1][..i] == entries[..i];
        if name !in publicMap {
          return None;
        }
        public := public + [(publicMap[name], value)];
      }
      assert entries[..|entries|] == entries;
      public := SortByIndex(public);
      r := Some(Seconds(public));
    }
  }

  lemma {:induction false} StaysUnnamed(publics: seq<(nat, Fp)>, names: map<nat, Name>, i: nat)
    requires i <= |publics| && NamePublics(publics[..i], names).None?
    ensures NamePublics(publics, names).None?
    decreases |publics|
  {
    if i == |publics| {
      assert publics[..i] == publics;
    } else {
      assert publics[..|publics| - 1][..i] == publics[..i];
      StaysUnnamed(publics[..|publics| - 1], names, i);
    }
  }
}
