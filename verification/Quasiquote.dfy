/** lisp.rs: quasiquote expands a template into calls of cons, concat and vec; evaluating the expansion
    fills the template. */
module Quasiquote {
  import opened Wrappers
  import opened LispValues

  /* ----- the expansion ----- */

  /** `(name x)`: a list of two whose head is this symbol. */
  predicate IsForm(v: MalVal, name: string) { v.List? && |v.items| == 2 && v.items[0] == Sym(name) }

  function Call(name: string, args: seq<MalVal>): MalVal { List([Sym(name)] + args) }

  function Expand(ast: MalVal): MalVal
    decreases ast, 1
  {
    match ast
    case List(v) => if IsForm(ast, "unquote") then v[1] else ExpandSeq(v)
    case Vector(v) => Call("vec", [ExpandSeq(v)])
    case Hash(_) => Call("quote", [ast])
    case Sym(_) => Call("quote", [ast])
    case _ => ast
  }

  function ExpandSeq(elts: seq<MalVal>): MalVal
    decreases elts, 0
  {
    if elts == [] then List([])
    else if IsForm(elts[0], "splice-unquote") then Call("concat", [elts[0].items[1], ExpandSeq(elts[1..])])
    else Call("cons", [Expand(elts[0]), ExpandSeq(elts[1..])])
  }

  /** `qq_iter`, from the last element to the first. */
  method QqIter(elts: seq<MalVal>) returns (acc: MalVal)
    ensures acc == ExpandSeq(elts)
  {
    acc := List([]);
    var i := |elts|;
    while i > 0
      invariant 0 <= i <= |elts| && acc == ExpandSeq(elts[i..])
    {
      i := i - 1;
      assert elts[i..][1..] == elts[i + 1..];
      if IsForm(elts[i], "splice-unquote") {
        acc := List([Sym("concat"), elts[i].items[1], acc]);
        assert acc == Call("concat", [elts[i].items[1], ExpandSeq(elts[i + 1..])]);
      } else {
        acc := List([Sym("cons"), Expand(elts[i]), acc]);
        assert acc == Call("cons", [Expand(elts[i]), ExpandSeq(elts[i + 1..])]);
      }
    }
    assert elts[0..] == elts;
  }

  /* ----- built-in functions ----- */

  predicate IsSeq(v: MalVal) { v.List? || v.Vector? }

  function Joined(args: seq<MalVal>): MalRet {
    if args == [] then Ok(List([]))
    else if !IsSeq(args[0]) then Err(ErrString("non-seq passed to concat"))
    else
      match Joined(args[1..])
      case Err(e) => Err(e)
      case Ok(rest) => Ok(List(args[0].items + (if IsSeq(rest) then rest.items else [])))
  }

  /** Too few arguments are an index out of range. */
  function Apply(f: Builtin, args: seq<MalVal>): MalRet {
    match f
    case Cons =>
      if |args| < 2 then Err(Panic)
      else if !IsSeq(args[1]) then Err(ErrString("cons expects seq as second arg"))
      else Ok(List([args[0]] + args[1].items))
    case Concat => Joined(args)
    case Vec =>
      if |args| < 1 then Err(Panic)
      else if !IsSeq(args[0]) then Err(ErrString("non-seq passed to vec"))
      else Ok(Vector(args[0].items))
  }

  method ConcatLoop(args: seq<MalVal>) returns (r: MalRet)
    ensures r == Apply(Concat, args)
  {
    var v: seq<MalVal> := [];
    JoinedFrom(args, 0, v);
    for i := 0 to |args|
      invariant Joined(args) == After(v, Joined(args[i..]))
    {
      JoinedFrom(args, i, v);
      if !IsSeq(args[i]) {
        return Err(ErrString("non-seq passed to concat"));
      }
      v := v + args[i].items;
    }
    JoinedFrom(args, |args|, v);
    r := Ok(List(v));
  }

  /** The items joined so far, before those of a result. */
  function After(v: seq<MalVal>, r: MalRet): MalRet {
    match r
    case Err(e) => Err(e)
    case Ok(rest) => if IsSeq(rest) then Ok(List(v + rest.items)) else r
  }

  lemma {:induction false} JoinedIsList(args: seq<MalVal>)
    ensures Joined(args).Ok? ==> Joined(args).value.List?
  {}

  lemma {:induction false} JoinedFrom(args: seq<MalVal>, i: nat, v: seq<MalVal>)
    requires i <= |args|
    ensures args[0..] == args && After([], Joined(args)) == Joined(args)
    ensures i == |args| ==> After(v, Joined(args[i..])) == Ok(List(v))
    ensures i < |args| ==>
      After(v, Joined(args[i..]))
      == if IsSeq(args[i]) then After(v + args[i].items, Joined(args[i + 1..]))
      else Err(ErrString("non-seq passed to concat"))
  {
    JoinedIsList(args);
    assert v + [] == v;
    if Joined(args).Ok? { assert [] + Joined(args).value.items == Joined(args).value.items; }
    if i < |args| {
      JoinedIsList(args[i + 1..]);
      assert args[i..][1..] == args[i + 1..];
      var rest := Joined(args[i + 1..]);
      if rest.Ok? && IsSeq(args[i]) {
        assert v + (args[i].items + rest.value.items) == v + args[i].items + rest.value.items;
      }
    }
  }

  /* ----- evaluation ----- */

  /** An evaluator of forms in a state (the environments, which are changed in place), with what it looks
      up for symbols and which of them it takes for macros. */
  datatype Interp<!St> = Interp(eval: (MalVal, St) -> (MalRet, St), lookup: (string, St) -> Option<MalVal>,
                                isMacro: (string, St) -> bool)

  /** The elements, from the left, up to the first that fails. */
  function EvalSeq<St>(p: Interp<St>, xs: seq<MalVal>, st: St): (Result<seq<MalVal>, MalErr>, St) {
    if xs == [] then (Ok([]), st)
    else
      match p.eval(xs[0], st)
      case (Err(e), st1) => (Err(e), st1)
      case (Ok(v), st1) =>
        match EvalSeq(p, xs[1..], st1)
        case (Err(e), st2) => (Err(e), st2)
        case (Ok(vs), st2) => (Ok([v] + vs), st2)
  }

  /** The name of one of the three functions, bound to it and not to a macro. */
  predicate Bound<St>(p: Interp<St>, name: string, st: St) {
    && !p.isMacro(name, st)
    && ((name == "cons" && p.lookup(name, st) == Some(Func(Cons)))
        || (name == "concat" && p.lookup(name, st) == Some(Func(Concat)))
        || (name == "vec" && p.lookup(name, st) == Some(Func(Vec))))
  }

  /** The forms whose evaluation a quasiquote relies on: the empty list, quoted and quasiquoted forms,
      calls of the three functions where they are bound, vectors, symbols, and values that stand for
      themselves. */
  predicate InFragment<St>(p: Interp<St>, ast: MalVal, st: St) {
    match ast
    case List(l) =>
      l == [] || (l[0].Sym? && (Bound(p, l[0].name, st)
                                || (|l| >= 2 && (l[0].name == "quote" || l[0].name == "quasiquote")
                                    && !p.isMacro(l[0].name, st))))
    case Hash(_) => false
    case _ => true
  }

  /** One round of `eval` on such a form; the calls to `eval` in it are those of the evaluator. */
  function Round<St>(p: Interp<St>, ast: MalVal, st: St): (MalRet, St) {
    match ast
    case List(l) =>
      if l == [] then (Ok(ast), st)
      else if l[0] == Sym("quote") && |l| >= 2 then (Ok(l[1]), st)
      else if l[0] == Sym("quasiquote") && |l| >= 2 then p.eval(Expand(l[1]), st)
      else
        (match EvalSeq(p, l, st)
         case (Err(e), st1) => (Err(e), st1)
         case (Ok(els), st1) =>
           if els != [] && els[0].Func? then (Apply(els[0].f, els[1..]), st1)
           else (Err(ErrString("attempt to call non-function")), st1))
    case Sym(s) => ((match p.lookup(s, st) case Some(v) => Ok(v) case None =>
                     Err(ErrString("'" + s + "' not found"))), st)
    case Vector(v) =>
      (match EvalSeq(p, v, st)
       case (Err(e), st1) => (Err(e), st1)
       case (Ok(els), st1) => (Ok(Vector(els)), st1))
    case _ => (Ok(ast), st)
  }

  ghost predicate IsEvaluator<St(!new)>(p: Interp<St>) {
    forall ast, st :: InFragment(p, ast, st) ==> p.eval(ast, st) == Round(p, ast, st)
  }

  /* ----- filling a template ----- */

  /** Unquoted forms are replaced by their values; everything else stands for itself. */
  function Fill<St>(p: Interp<St>, t: MalVal, st: St): (MalRet, St)
    decreases t, 1
  {
    match t
    case List(v) =>
      if IsForm(t, "unquote") then p.eval(v[1], st)
      else
        (match FillSeq(p, v, st)
         case (Err(e), st1) => (Err(e), st1)
         case (Ok(vs), st1) => (Ok(List(vs)), st1))
    case Vector(v) =>
      (match FillSeq(p, v, st)
       case (Err(e), st1) => (Err(e), st1)
       case (Ok(vs), st1) => (Ok(Vector(vs)), st1))
    case _ => (Ok(t), st)
  }

  /** The elements from the left; the items of a spliced sequence take its place. Whether a spliced value
      is a sequence is only asked when the elements after it have been filled. */
  function FillSeq<St>(p: Interp<St>, elts: seq<MalVal>, st: St): (Result<seq<MalVal>, MalErr>, St)
    decreases elts, 0
  {
    if elts == [] then (Ok([]), st)
    else
      var splice := IsForm(elts[0], "splice-unquote");
      match (if splice then p.eval(elts[0].items[1], st) else Fill(p, elts[0], st))
      case (Err(e), st1) => (Err(e), st1)
      case (Ok(v), st1) =>
        match FillSeq(p, elts[1..], st1)
        case (Err(e), st2) => (Err(e), st2)
        case (Ok(rest), st2) =>
          if !splice then (Ok([v] + rest), st2)
          else if IsSeq(v) then (Ok(v.items + rest), st2)
          else (Err(ErrString("non-seq passed to concat")), st2)
  }

  /** Items before those of a result. */
  function Before<St>(items: seq<MalVal>, r: (Result<seq<MalVal>, MalErr>, St)): (Result<seq<MalVal>, MalErr>, St) {
    if r.0.Err? then r else (Ok(items + r.0.value), r.1)
  }

  /** An unquoted form is replaced by its value, and a spliced one by the items of its value, where a list of
      two elements starts with the symbol for it; nothing else is evaluated. */
  lemma FillForms<St>(p: Interp<St>, x: MalVal, rest: seq<MalVal>, st: St)
    ensures Fill(p, List([Sym("unquote"), x]), st) == p.eval(x, st)
    ensures var (r, st1) := p.eval(x, st);
            var more := FillSeq(p, rest, st1);
            FillSeq(p, [List([Sym("splice-unquote"), x])] + rest, st)
            == if r.Err? then (Err(r.error), st1)
               else if more.0.Err? then more
               else if r.value.List? || r.value.Vector? then (Ok(r.value.items + more.0.value), more.1)
               else (Err(ErrString("non-seq passed to concat")), more.1)
    ensures !x.List? && !x.Vector? ==> Fill(p, x, st) == (Ok(x), st)
    ensures x.List? && !(|x.items| == 2 && x.items[0] == Sym("unquote")) ==>
      Fill(p, x, st) == AsList(FillSeq(p, x.items, st))
    ensures !(x.List? && |x.items| == 2 && x.items[0] == Sym("splice-unquote")) ==>
      var (r, st1) := Fill(p, x, st);
      FillSeq(p, [x] + rest, st)
      == if r.Err? then (Err(r.error), st1) else Before([r.value], FillSeq(p, rest, st1))
  {
    assert ([x] + rest)[1..] == rest;
    assert ([List([Sym("splice-unquote"), x])] + rest)[1..] == rest;
    assert List([Sym("splice-unquote"), x]).items == [Sym("splice-unquote"), x];
    assert List([Sym("unquote"), x]).items == [Sym("unquote"), x];
  }

  /* ----- the expansion fills the template ----- */

  /** The three functions are bound to their names, and quote is no macro. */
  predicate Standard<St>(p: Interp<St>, st: St) {
    Bound(p, "cons", st) && Bound(p, "concat", st) && Bound(p, "vec", st) && !p.isMacro("quote", st)
  }

  /** The states in which a part of the expansion is evaluated are standard. An unquoted form may do
      anything, even define these names anew, as long as no part is left that needs them. */
  predicate FillKeeps<St>(p: Interp<St>, t: MalVal, st: St)
    decreases t, 1
  {
    match t
    case List(v) => IsForm(t, "unquote") || SeqKeeps(p, v, st)
    case Vector(v) => Standard(p, st) && SeqKeeps(p, v, st)
    case Hash(_) => Standard(p, st)
    case Sym(_) => Standard(p, st)
    case _ => true
  }

  predicate SeqKeeps<St>(p: Interp<St>, elts: seq<MalVal>, st: St)
    decreases elts, 0
  {
    elts == []
    || (var splice := IsForm(elts[0], "splice-unquote");
        var first := if splice then p.eval(elts[0].items[1], st) else Fill(p, elts[0], st);
        && Standard(p, st) && (splice || FillKeeps(p, elts[0], st))
        && (first.0.Ok? ==> SeqKeeps(p, elts[1..], first.1)))
  }

  lemma {:induction false} EvalSeqStep<St>(p: Interp<St>, xs: seq<MalVal>, st: St)
    requires xs != []
    ensures EvalSeq(p, xs, st)
         == match p.eval(xs[0], st)
            case (Err(e), st1) => (Err(e), st1)
            case (Ok(v), st1) =>
              (match EvalSeq(p, xs[1..], st1)
               case (Err(e), st2) => (Err(e), st2)
               case (Ok(vs), st2) => (Ok([v] + vs), st2))
  {}

  lemma EvalSeqOne<St>(p: Interp<St>, x: MalVal, st: St)
    ensures EvalSeq(p, [x], st)
         == match p.eval(x, st)
            case (Err(e), st1) => (Err(e), st1)
            case (Ok(v), st1) => (Ok([v]), st1)
  {
    assert [x][1..] == [];
    if p.eval(x, st).0.Ok? {
      var v := p.eval(x, st).0.value;
      assert EvalSeq(p, [], p.eval(x, st).1).0 == Ok([]);
      assert [v] + [] == [v];
    }
  }

  /** A call of one of the three functions: its arguments are evaluated, and it is applied to them. */
  lemma {:induction false} CallApplies<St(!new)>(p: Interp<St>, name: string, f: Builtin, args: seq<MalVal>, st: St)
    requires IsEvaluator(p) && Bound(p, name, st) && p.lookup(name, st) == Some(Func(f))
    ensures p.eval(Call(name, args), st)
         == match EvalSeq(p, args, st)
            case (Err(e), st1) => (Err(e), st1)
            case (Ok(vs), st1) => (Apply(f, vs), st1)
  {
    hide Apply, EvalSeq;
    var l := [Sym(name)] + args;
    assert InFragment(p, Call(name, args), st) && InFragment(p, Sym(name), st);
    EvalSeqStep(p, l, st);
    assert l[1..] == args;
    if EvalSeq(p, args, st).0.Ok? {
      var vs := EvalSeq(p, args, st).0.value;
      assert ([Func(f)] + vs)[1..] == vs;
    }
  }

  lemma CallOfTwo<St(!new)>(p: Interp<St>, name: string, f: Builtin, x: MalVal, y: MalVal, st: St)
    requires IsEvaluator(p) && Bound(p, name, st) && p.lookup(name, st) == Some(Func(f))
    ensures p.eval(Call(name, [x, y]), st)
         == match p.eval(x, st)
            case (Err(e), st1) => (Err(e), st1)
            case (Ok(a), st1) =>
              (match p.eval(y, st1)
               case (Err(e), st2) => (Err(e), st2)
               case (Ok(b), st2) => (Apply(f, [a, b]), st2))
  {
    hide Bound, IsEvaluator, Apply, EvalSeq;
    CallApplies(p, name, f, [x, y], st);
    EvalSeqStep(p, [x, y], st);
    var st1 := p.eval(x, st).1;
    assert [x, y][1..] == [y];
    EvalSeqOne(p, y, st1);
    if p.eval(x, st).0.Ok? && p.eval(y, st1).0.Ok? {
      var a, b := p.eval(x, st).0.value, p.eval(y, st1).0.value;
      assert [a] + [b] == [a, b];
    }
  }

  lemma Quoted<St(!new)>(p: Interp<St>, x: MalVal, st: St)
    requires IsEvaluator(p) && !p.isMacro("quote", st)
    ensures p.eval(Call("quote", [x]), st) == (Ok(x), st)
  {
    assert Call("quote", [x]).items == [Sym("quote"), x];
    assert InFragment(p, Call("quote", [x]), st);
  }

  /** A list of results as the value of an expanded sequence. */
  function AsList<St>(r: (Result<seq<MalVal>, MalErr>, St)): (MalRet, St) {
    match r
    case (Err(e), st) => (Err(e), st)
    case (Ok(vs), st) => (Ok(List(vs)), st)
  }

  /** Evaluating the expansion of a template is filling it: the same value or error, and the same
      effects in the same order. */
  lemma {:induction false} ExpansionFills<St(!new)>(p: Interp<St>, t: MalVal, st: St)
    requires IsEvaluator(p) && FillKeeps(p, t, st)
    ensures p.eval(Expand(t), st) == Fill(p, t, st)
    decreases t, 1
  {
    hide EvalSeq, FillSeq, ExpandSeq, SeqKeeps;
    match t {
      case List(v) =>
        if !IsForm(t, "unquote") { SeqExpansionFills(p, v, st); }
      case Vector(v) =>
        SeqExpansionFills(p, v, st);
        CallApplies(p, "vec", Vec, [ExpandSeq(v)], st);
        EvalSeqOne(p, ExpandSeq(v), st);
      case Hash(_) => Quoted(p, t, st);
      case Sym(_) => Quoted(p, t, st);
      case _ => assert InFragment(p, t, st);
    }
  }

  lemma {:induction false} SeqExpansionFills<St(!new)>(p: Interp<St>, elts: seq<MalVal>, st: St)
    requires IsEvaluator(p) && SeqKeeps(p, elts, st)
    ensures p.eval(ExpandSeq(elts), st) == AsList(FillSeq(p, elts, st))
    decreases elts, 0
  {
    hide EvalSeq, Fill, FillKeeps, Expand;
    if elts == [] {
      assert InFragment(p, List([]), st);
    } else {
      var splice := IsForm(elts[0], "splice-unquote");
      var first := if splice then elts[0].items[1] else Expand(elts[0]);
      if !splice { ExpansionFills(p, elts[0], st); }
      var (r, st1) := p.eval(first, st);
      if r.Ok? { SeqExpansionFills(p, elts[1..], st1); }
      CallOfTwo(p, if splice then "concat" else "cons", if splice then Concat else Cons, first, ExpandSeq(elts[1..]),
                st);
      var rest := FillSeq(p, elts[1..], st1);
      if splice && r.Ok? && rest.0.Ok? { TwoJoined(r.value, rest.0.value); }
    }
  }

  lemma {:induction false} TwoJoined(a: MalVal, rest: seq<MalVal>)
    ensures Joined([a, List(rest)])
         == if IsSeq(a) then Ok(List(a.items + rest)) else Err(ErrString("non-seq passed to concat"))
  {
    var b := List(rest);
    assert [a, b][1..] == [b] && [b][1..] == [];
    assert Joined([]) == Ok(List([])) && Joined([b]) == Ok(List(rest + []));
    assert rest + [] == rest;
  }

  /** A quasiquoted template is filled. */
  lemma QuasiquoteFills<St(!new)>(p: Interp<St>, t: MalVal, st: St)
    requires IsEvaluator(p) && !p.isMacro("quasiquote", st) && FillKeeps(p, t, st)
    ensures p.eval(List([Sym("quasiquote"), t]), st) == Fill(p, t, st)
  {
    hide Expand, Fill, FillKeeps, EvalSeq;
    assert InFragment(p, List([Sym("quasiquote"), t]), st);
    ExpansionFills(p, t, st);
  }
}
