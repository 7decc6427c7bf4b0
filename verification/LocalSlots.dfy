/** How compile.py numbers locals, and when the numbers are usable: declaring a name again gives it
    the number of names so far, which need not be the slot that the machine pushes, and may be the
    slot of another name. */
module LocalSlots {
  import opened Assembly
  import opened Compiler
  import opened Simulation

  /** The names of the `local` lines among the first n, in order. */
  function LocalNames<S>(lines: seq<Line<S>>, n: nat): seq<S>
    requires n <= |lines|
  {
    if n == 0 then []
    else LocalNames(lines, n - 1) + (if lines[n - 1].command == Op(Local) && |lines[n - 1].args| == 1
                                     then lines[n - 1].args else [])
  }

  /** The slots after these declarations. */
  function SlotsAfter<S(==)>(names: seq<S>): map<S, nat> {
    if names == [] then map[] else Declare(SlotsAfter(names[..|names| - 1]), names[|names| - 1])
  }

  /** Every declaration may take the slot it is given. */
  predicate NoClash<S(==)>(names: seq<S>) {
    forall k :: 0 <= k < |names| ==> MayDeclare(SlotsAfter(names[..k]), k, names[k])
  }

  ghost predicate Injective<S(!new)>(slots: map<S, nat>) {
    forall s, t :: s in slots && t in slots && slots[s] == slots[t] ==> s == t
  }

  predicate Distinct<S(==)>(names: seq<S>) {
    forall i, j :: 0 <= i < j < |names| ==> names[i] != names[j]
  }

  /** There are as many slots as declarations exactly when no name is declared twice. */
  lemma {:induction false} SlotsCount<S(!new)>(names: seq<S>)
    ensures |SlotsAfter(names)| <= |names|
    ensures forall s :: s in SlotsAfter(names) <==> s in names
    ensures |SlotsAfter(names)| == |names| <==> Distinct(names)
    decreases |names|
  {
    if names != [] {
      var init, last := names[..|names| - 1], names[|names| - 1];
      SlotsCount(init);
      assert names == init + [last];
      DeclareSizeExactly(SlotsAfter(init), last);
      if Distinct(init) && last !in init {
        assert Distinct(names);
      }
      if last in init {
        var i :| 0 <= i < |init| && init[i] == last;
        assert names[i] == names[|names| - 1];
      }
      if Distinct(names) { assert Distinct(init); }
    }
  }

  lemma DeclareSizeExactly<S>(slots: map<S, nat>, s: S)
    ensures |Declare(slots, s)| == if s in slots then |slots| else |slots| + 1
  {
    var after := Declare(slots, s);
    assert after.Keys == slots.Keys + {s};
    assert |after| == |after.Keys| && |slots| == |slots.Keys|;
    if s in slots { assert after.Keys == slots.Keys; }
  }

  /** Declaring every name once is enough. */
  lemma {:induction false} DistinctNoClash<S(!new)>(names: seq<S>)
    requires Distinct(names)
    ensures NoClash(names)
  {
    forall k | 0 <= k < |names| ensures MayDeclare(SlotsAfter(names[..k]), k, names[k]) {
      SlotsCount(names[..k]);
    }
  }

  /** While declarations do not clash, either all names are distinct and each has the slot of its
      place, or exactly one name, the repeated one, has the slot after all others. */
  lemma {:induction false} NoClashShape<S(!new)>(names: seq<S>)
    requires NoClash(names)
    ensures Injective(SlotsAfter(names))
    ensures |SlotsAfter(names)| == |names| ==> forall s :: s in SlotsAfter(names) ==> SlotsAfter(names)[s] < |names|
    ensures |SlotsAfter(names)| < |names| ==>
      exists x :: x in SlotsAfter(names) && SlotsAfter(names)[x] == |SlotsAfter(names)|
    ensures forall s :: s in SlotsAfter(names) ==> SlotsAfter(names)[s] <= |SlotsAfter(names)|
    decreases |names|
  {
    if names != [] {
      var init, last := names[..|names| - 1], names[|names| - 1];
      forall k | 0 <= k < |init| ensures MayDeclare(SlotsAfter(init[..k]), k, init[k]) {
        assert init[..k] == names[..k];
      }
      NoClashShape(init);
      SlotsCount(init);
      DeclareSizeExactly(SlotsAfter(init), last);
      assert MayDeclare(SlotsAfter(names[..|names| - 1]), |names| - 1, names[|names| - 1]);
      assert SlotsAfter(names)[last] == |SlotsAfter(init)|;
    }
  }

  /** Slots never coincide exactly when no declaration clashes: after a name has been declared again,
      only that name may be declared. */
  lemma {:induction false} NoClashIffInjective<S(!new)>(names: seq<S>)
    ensures NoClash(names) <==> forall k :: 0 <= k <= |names| ==> Injective(SlotsAfter(names[..k]))
    decreases |names|
  {
    if NoClash(names) {
      forall k | 0 <= k <= |names| ensures Injective(SlotsAfter(names[..k])) {
        NoClashPrefix(names, k);
        NoClashShape(names[..k]);
      }
    }
    if forall k :: 0 <= k <= |names| ==> Injective(SlotsAfter(names[..k])) {
      InjectiveNoClash(names);
    }
  }

  lemma {:induction false} NoClashPrefix<S(!new)>(names: seq<S>, k: nat)
    requires k <= |names| && NoClash(names)
    ensures NoClash(names[..k])
  {
    forall i | 0 <= i < k ensures MayDeclare(SlotsAfter(names[..k][..i]), i, names[..k][i]) {
      assert names[..k][..i] == names[..i];
    }
  }

  /** A declaration that may not take its slot makes two names share it. */
  lemma {:induction false} ClashCoincides<S(!new)>(names: seq<S>, s: S)
    requires NoClash(names) && !MayDeclare(SlotsAfter(names), |names|, s)
    ensures !Injective(Declare(SlotsAfter(names), s))
  {
    hide NoClash, SlotsAfter;
    NoClashShape(names);
    SlotsCount(names);
    var before := SlotsAfter(names);
    var x :| x in before && before[x] == |before|;
    assert x != s && Declare(before, s)[x] == Declare(before, s)[s];
  }

  lemma {:induction false} LastDeclared<S>(names: seq<S>)
    requires names != []
    ensures SlotsAfter(names) == Declare(SlotsAfter(names[..|names| - 1]), names[|names| - 1])
  {}

  lemma {:induction false} InjectiveNoClash<S(!new)>(names: seq<S>)
    requires forall k :: 0 <= k <= |names| ==> Injective(SlotsAfter(names[..k]))
    ensures NoClash(names)
    decreases |names|
  {
    hide Injective, MayDeclare, SlotsAfter, Declare;
    if names != [] {
      var init, last := names[..|names| - 1], names[|names| - 1];
      forall k | 0 <= k <= |init| ensures Injective(SlotsAfter(init[..k])) { assert init[..k] == names[..k]; }
      InjectiveNoClash(init);
      assert names[..|names|] == names;
      LastDeclared(names);
      if !MayDeclare(SlotsAfter(init), |init|, last) { ClashCoincides(init, last); }
      forall k | 0 <= k < |names| ensures MayDeclare(SlotsAfter(names[..k]), k, names[k]) {
        if k < |init| { assert init[..k] == names[..k]; }
      }
    }
  }

  /** Redeclaring one name and then declaring another gives both the same slot, so that writing the
      one overwrites the other. */
  lemma RedeclarationClashes<S(!new)>(a: S, b: S)
    requires a != b
    ensures !NoClash([a, a, b])
    ensures SlotsAfter([a, a, b])[a] == SlotsAfter([a, a, b])[b] == 1
  {
    var one, two := [a], [a, a];
    assert two[..1] == one && one[..0] == [] && [a, a, b][..2] == two;
    assert SlotsAfter(one) == map[a := 0] && |SlotsAfter(one)| == 1;
    assert SlotsAfter(two) == map[a := 1] && |SlotsAfter(two)| == 1;
    assert !MayDeclare(SlotsAfter(two), 2, b);
  }

  /** Declaring the same name over and over does not clash. */
  lemma {:induction false} OneNameSlots<S(!new)>(names: seq<S>, x: S)
    requires forall i :: 0 <= i < |names| ==> names[i] == x
    ensures SlotsAfter(names) == if names == [] then map[] else if |names| == 1 then map[x := 0] else map[x := 1]
    decreases |names|
  {
    if names != [] { OneNameSlots(names[..|names| - 1], x); }
  }

  lemma {:induction false} OneNameNoClash<S(!new)>(names: seq<S>, x: S)
    requires forall i :: 0 <= i < |names| ==> names[i] == x
    ensures NoClash(names)
  {
    forall k | 0 <= k < |names| ensures MayDeclare(SlotsAfter(names[..k]), k, names[k]) {
      OneNameSlots(names[..k], x);
    }
  }
}
