/** The polynomial part of scripts/zk/4.5.2: Lagrange interpolation, and checking a list of
    multiplication constraints by one divisibility. */
module Interpolation {
  import opened Wrappers
  import opened Euclid
  import opened Field
  import opened Polynomials
  import opened PolynomialLaws

  /** `poly([a])` and `poly([a, b])`: the coefficients cast into the field. */
  function Constant(c: int): Poly { Stripped([Residue(c)]) }

  function Linear(c: int, m: int): Poly { Stripped([Residue(c), Residue(m)]) }

  lemma EvalConstant(c: int, x: Fp)
    ensures Eval(Constant(c), x) == Residue(c)
  {
    hide Residue, Add, Mul;
    EvalSame(Constant(c), [Residue(c)], x);
    Units(Residue(c));
    Units(x);
  }

  lemma LinearForm(a: int)
    ensures Linear(-a, 1) == [Neg(Residue(a)), ONE]
  {
    ResidueNeg(a);
    ResidueId(1);
  }

  lemma EvalTwo(c: Fp, x: Fp)
    ensures Eval([c, ONE], x) == Add(c, x)
  {
    hide Residue, Add, Mul;
    assert [c, ONE][1..] == [ONE] && [ONE][1..] == [];
    Units(x);
    Units(ONE);
    assert Eval([ONE], x) == ONE;
  }

  /** The value of x - a. */
  lemma EvalLinear(a: int, x: Fp)
    ensures Eval(Linear(-a, 1), x) == Sub(x, Residue(a))
  {
    hide Residue, Add, Mul, Neg, Sub, Linear, Eval;
    LinearForm(a);
    EvalTwo(Neg(Residue(a)), x);
    AddComm(Neg(Residue(a)), x);
    SubIsAddNeg(x, Residue(a));
  }

  /* ----- poly_call ----- */

  function IntPow(x: int, n: nat): int {
    if n == 0 then 1 else x * IntPow(x, n - 1)
  }

  lemma {:induction false} ResiduePow(x: int, n: nat)
    ensures Residue(IntPow(x, n)) == Pow(Residue(x), n)
  {
    if n == 0 { ResidueId(1); } else { ResiduePow(x, n - 1); ResidueMul(x, IntPow(x, n - 1)); }
  }

  lemma {:induction false} EvalSplit(p: seq<Fp>, x: Fp, i: nat, power: Fp, result: Fp)
    requires i < |p|
    ensures Add(result, Mul(power, Eval(p[i..], x)))
         == Add(Add(result, Mul(p[i], power)), Mul(Mul(x, power), Eval(p[i + 1..], x)))
  {
    hide Residue, Add, Mul;
    var rest := Eval(p[i + 1..], x);
    assert p[i..][1..] == p[i + 1..];
    Distributes(power, p[i], Mul(x, rest));
    MulComm(power, p[i]);
    MulAssoc(power, x, rest);
    MulComm(power, x);
    AddAssoc(result, Mul(p[i], power), Mul(Mul(x, power), rest));
  }

  method PolyCall(p: Poly, x: int) returns (result: Fp)
    ensures result == Eval(p, Residue(x))
  {
    ghost var goal := Eval(p, Residue(x));
    result := ZERO;
    Units(goal);
    assert p[0..] == p;
    for degree := 0 to |p|
      invariant Add(result, Mul(Pow(Residue(x), degree), Eval(p[degree..], Residue(x)))) == goal
    {
      ResiduePow(x, degree);
      EvalSplit(p, Residue(x), degree, Pow(Residue(x), degree), result);
      hide Residue, Add, Mul;
      result := Add(result, Mul(p[degree], Residue(IntPow(x, degree))));
    }
    Units(Pow(Residue(x), |p|));
    Units(result);
  }

  /* ----- lagrange ----- */

  type Point = (int, int)

  ghost predicate DistinctX(points: seq<Point>) {
    forall i, j :: 0 <= i < |points| && 0 <= j < |points| && i != j ==> Residue(points[i].0) != Residue(points[j].0)
  }

  lemma FactorIsExact(xi: int, xj: int, q: Poly, r: Poly)
    requires Residue(xi) != Residue(xj) && |r| < |Constant(xi - xj)|
    requires Linear(-xj, 1) == AddPoly(MulPoly(q, Constant(xi - xj)), r)
    ensures |q| <= 2 && Linear(-xj, 1) == MulPoly(q, Constant(xi - xj))
  {
    hide Residue, Neg, Constant, Linear;
    ConstantLength(xi - xj);
    LinearForm(xj);
    AddNothing(MulPoly(q, Constant(xi - xj)));
    if q != [] { MulDegree(q, Constant(xi - xj)); }
  }

  /** What dividing x - xj by the constant xi - xj means. */
  lemma FactorEquation(xi: int, xj: int, q: Poly, x: Fp)
    requires Linear(-xj, 1) == MulPoly(q, Constant(xi - xj))
    ensures Mul(Eval(q, x), Residue(xi - xj)) == Sub(x, Residue(xj))
  {
    hide Residue, Mul, Sub, Constant, Linear, Eval, MulPoly;
    EvalLinear(xj, x);
    EvalMul(q, Constant(xi - xj), x);
    EvalConstant(xi - xj, x);
  }

  lemma ConstantLength(c: int)
    ensures |Constant(c)| <= 1
  {}

  /** The factor (x - xj) / (xi - xj) is linear, one at xi and zero at xj. */
  lemma FactorValues(xi: int, xj: int, q: Poly, r: Poly)
    requires Residue(xi) != Residue(xj) && |r| < |Constant(xi - xj)|
    requires Linear(-xj, 1) == AddPoly(MulPoly(q, Constant(xi - xj)), r)
    ensures |q| <= 2 && Eval(q, Residue(xi)) == ONE && Eval(q, Residue(xj)) == ZERO
  {
    hide Residue, Add, Mul, Sub, Neg, Constant, Linear, Eval;
    var c := Residue(xi - xj);
    ResidueSub(xi, xj);
    SubZero(Residue(xi), Residue(xj));
    SubZero(Residue(xj), Residue(xj));
    FactorIsExact(xi, xj, q, r);
    FactorEquation(xi, xj, q, Residue(xi));
    FactorEquation(xi, xj, q, Residue(xj));
    NoZeroDivisors(Eval(q, Residue(xj)), c);
    CancelOne(Eval(q, Residue(xi)), c);
  }

  lemma AddNothing(p: Poly)
    ensures AddPoly(p, []) == p
  {
    hide Residue, Add;
    forall k ensures Coef(AddPoly(p, []), k) == Coef(p, k) { Units(Coef(p, k)); }
    SamePoly(AddPoly(p, []), p);
  }

  lemma CancelOne(a: Fp, c: Fp)
    requires c != ZERO && Mul(a, c) == c
    ensures a == ONE
  {
    hide Residue, Mul;
    MulAssoc(a, c, Inv(c));
    Units(a);
  }

  /** p after it has been multiplied by the factors of the first j other points. */
  ghost predicate Basis(points: seq<Point>, i: nat, j: nat, p: Poly)
    requires i < |points| && j <= |points|
  {
    && |p| <= 1 + (if j <= i then j else j - 1)
    && Eval(p, Residue(points[i].0)) == Residue(points[i].1)
    && forall m :: 0 <= m < j && m != i ==> Eval(p, Residue(points[m].0)) == ZERO
  }

  lemma {:induction false} BasisStep(points: seq<Point>, i: nat, j: nat, p: Poly, q: Poly)
    requires i < |points| && j < |points| && i != j && Basis(points, i, j, p)
    requires |q| <= 2 && Eval(q, Residue(points[i].0)) == ONE && Eval(q, Residue(points[j].0)) == ZERO
    ensures Basis(points, i, j + 1, MulPoly(p, q))
  {
    hide Residue, Mul, Eval, MulPoly;
    EvalMul(p, q, Residue(points[i].0));
    Units(Residue(points[i].1));
    forall m | 0 <= m < j + 1 && m != i ensures Eval(MulPoly(p, q), Residue(points[m].0)) == ZERO {
      var x := Residue(points[m].0);
      EvalMul(p, q, x);
      Units(Eval(p, x));
      Units(Eval(q, x));
    }
  }

  /** The basis polynomial of one point; None when another point has the same x in the field. */
  method LagrangeBasis(points: seq<Point>, i: nat) returns (r: Option<Poly>)
    requires i < |points|
    ensures r.Some? ==> Basis(points, i, |points|, r.value)
    ensures r.None? <==> exists j :: 0 <= j < |points| && j != i && Residue(points[i].0) == Residue(points[j].0)
  {
    hide Residue, Mul, Eval, Linear, MulPoly, AddPoly;
    var (xi, yi) := points[i];
    var p := Constant(yi);
    EvalConstant(yi, Residue(xi));
    for j := 0 to |points|
      invariant Basis(points, i, j, p)
      invariant forall m :: 0 <= m < j && m != i ==> Residue(xi) != Residue(points[m].0)
    {
      if i == j {
        continue;
      }
      var xj := points[j].0;
      DivisorZero(xi, xj);
      var factor := DivMod(Linear(-xj, 1), Constant(xi - xj));
      if factor.None? {
        return None;
      }
      FactorValues(xi, xj, factor.value.0, factor.value.1);
      BasisStep(points, i, j, p, factor.value.0);
      p := Multiply(p, factor.value.0);
    }
    r := Some(p);
  }

  lemma DivisorZero(x: int, y: int)
    ensures Constant(x - y) == [] <==> Residue(x) == Residue(y)
  {
    ResidueSub(x, y);
    SubZero(Residue(x), Residue(y));
  }

  /** The sum of the basis polynomials of the first i points. */
  ghost predicate Through(points: seq<Point>, i: nat, p: Poly)
    requires i <= |points|
  {
    && |p| <= |points|
    && forall m :: 0 <= m < |points| ==>
         Eval(p, Residue(points[m].0)) == if m < i then Residue(points[m].1) else ZERO
  }

  lemma {:induction false} ThroughStep(points: seq<Point>, i: nat, p: Poly, b: Poly)
    requires i < |points| && Through(points, i, p) && Basis(points, i, |points|, b)
    ensures Through(points, i + 1, AddPoly(p, b))
  {
    hide Residue, Add;
    forall m | 0 <= m < |points|
      ensures Eval(AddPoly(p, b), Residue(points[m].0)) == if m < i + 1 then Residue(points[m].1) else ZERO
    {
      EvalAdd(p, b, AddPoly(p, b), Residue(points[m].0));
      Units(Residue(points[m].1));
      Units(ZERO);
    }
  }

  /** The interpolating polynomial has fewer coefficients than there are points plus one and passes
      through all of them; it exists exactly when the points are distinct in the field, and
      otherwise the source divides by zero. */
  method Lagrange(points: seq<Point>) returns (r: Option<Poly>)
    ensures r.Some? <==> DistinctX(points)
    ensures r.Some? ==> |r.value| <= |points|
    ensures r.Some? ==> forall i :: 0 <= i < |points| ==> Eval(r.value, Residue(points[i].0)) == Residue(points[i].1)
  {
    hide Residue, Add;
    var result: Poly := [];
    for i := 0 to |points|
      invariant Through(points, i, result)
      invariant forall k, j :: 0 <= k < i && 0 <= j < |points| && k != j ==>
        Residue(points[k].0) != Residue(points[j].0)
    {
      var p := LagrangeBasis(points, i);
      if p.None? {
        return None;
      }
      ThroughStep(points, i, result, p.value);
      result := AddPoly(result, p.value);
    }
    r := Some(result);
  }

  /* ----- constraints as one divisibility ----- */

  /** The points 1..n with the given values. */
  function At(values: seq<int>): seq<Point> {
    seq(|values|, i requires 0 <= i < |values| => (i + 1, values[i]))
  }

  ghost predicate IsTarget(t: Poly, n: nat) {
    && |t| == n + 1 && t[n] == ONE
    && forall i :: 1 <= i <= n ==> Eval(t, Residue(i)) == ZERO
  }

  lemma TimesLinear(t: Poly, l: Poly)
    requires t != [] && t[|t| - 1] == ONE && |l| == 2 && l[1] == ONE
    ensures |MulPoly(t, l)| == |t| + 1 && MulPoly(t, l)[|t|] == ONE
  {
    hide Residue, Mul, MulPoly;
    MulDegree(t, l);
    Units(ONE);
  }

  lemma TargetStep(t: Poly, n: nat)
    requires IsTarget(t, n)
    ensures IsTarget(MulPoly(t, Linear(-(n + 1), 1)), n + 1)
  {
    hide Residue, Mul, Sub, Eval, Linear, MulPoly;
    var l := Linear(-(n + 1), 1);
    SubZero(Residue(n + 1), Residue(n + 1));
    LinearForm(n + 1);
    EvalLinear(n + 1, Residue(n + 1));
    TimesLinear(t, l);
    forall i | 1 <= i <= n + 1 ensures Eval(MulPoly(t, l), Residue(i)) == ZERO {
      EvalMul(t, l, Residue(i));
      Units(Eval(t, Residue(i)));
      Units(Eval(l, Residue(i)));
    }
  }

  /** The product of (x - i) for i from 1 to n. */
  method Target(n: nat) returns (t: Poly)
    requires n > 0
    ensures IsTarget(t, n)
  {
    t := Linear(-1, 1);
    LinearForm(1);
    EvalLinear(1, Residue(1));
    SubZero(Residue(1), Residue(1));
    for i := 1 to n
      invariant IsTarget(t, i)
    {
      TargetStep(t, i);
      t := Multiply(t, Linear(-(i + 1), 1));
    }
  }

  /** A dividend equals divisor times quotient exactly when it vanishes at the roots of the divisor. */
  lemma DivisibleIffVanishes(f: Poly, t: Poly, q: Poly, r: Poly, n: nat)
    requires IsTarget(t, n) && f == AddPoly(MulPoly(q, t), r) && |r| < |t|
    requires forall i, j :: 1 <= i < j <= n ==> Residue(i) != Residue(j)
    ensures f == MulPoly(t, q) <==> forall i :: 1 <= i <= n ==> Eval(f, Residue(i)) == ZERO
  {
    hide Residue, Add, Mul;
    MulCommutes(q, t);
    forall i | 1 <= i <= n ensures Eval(f, Residue(i)) == Eval(r, Residue(i))
      && Eval(MulPoly(t, q), Residue(i)) == ZERO {
      EvalAdd(MulPoly(q, t), r, f, Residue(i));
      EvalMul(t, q, Residue(i));
      Units(Eval(q, Residue(i)));
      Units(Eval(r, Residue(i)));
    }
    if forall i :: 1 <= i <= n ==> Eval(f, Residue(i)) == ZERO {
      var roots := seq(n, i => Residue(i + 1));
      forall i | 0 <= i < n ensures Eval(r, roots[i]) == ZERO { assert roots[i] == Residue(i + 1); }
      TooManyRoots(r, roots);
      assert r == [];
      AddNothing(MulPoly(q, t));
    }
  }

  ghost predicate ConstraintHolds(l: int, r: int, o: int) {
    Mul(Residue(l), Residue(r)) == Residue(o)
  }

  lemma MainValue(l: Poly, r: Poly, o: Poly, x: Fp)
    ensures Eval(SubPoly(MulPoly(l, r), o), x) == ZERO <==> Mul(Eval(l, x), Eval(r, x)) == Eval(o, x)
  {
    hide Residue, Mul, Sub;
    EvalSub(MulPoly(l, r), o, x);
    EvalMul(l, r, x);
    SubZero(Mul(Eval(l, x), Eval(r, x)), Eval(o, x));
  }

  /** The polynomials pass through the values of the constraints. */
  ghost predicate Interpolates(p: Poly, values: seq<int>) {
    forall i :: 0 <= i < |values| ==> Eval(p, Residue(i + 1)) == Residue(values[i])
  }

  lemma {:induction false} ConstraintsIffVanishes(l: Poly, r: Poly, o: Poly, lefts: seq<int>, rights: seq<int>,
                                                  outs: seq<int>)
    requires |lefts| == |rights| == |outs|
    requires Interpolates(l, lefts) && Interpolates(r, rights) && Interpolates(o, outs)
    ensures (forall i :: 1 <= i <= |lefts| ==> Eval(SubPoly(MulPoly(l, r), o), Residue(i)) == ZERO)
       <==> (forall i :: 0 <= i < |lefts| ==> ConstraintHolds(lefts[i], rights[i], outs[i]))
  {
    hide Residue, Mul, Eval;
    var main := SubPoly(MulPoly(l, r), o);
    forall i | 0 <= i < |lefts|
      ensures Eval(main, Residue(i + 1)) == ZERO <==> ConstraintHolds(lefts[i], rights[i], outs[i])
    {
      MainValue(l, r, o, Residue(i + 1));
    }
    if forall i :: 0 <= i < |lefts| ==> ConstraintHolds(lefts[i], rights[i], outs[i]) {
      forall i | 1 <= i <= |lefts| ensures Eval(main, Residue(i)) == ZERO {
        assert ConstraintHolds(lefts[i - 1], rights[i - 1], outs[i - 1]);
      }
    }
  }

  method LagrangeAt(values: seq<int>) returns (p: Option<Poly>)
    ensures p.Some? <==> DistinctX(At(values))
    ensures p.Some? ==> Interpolates(p.value, values)
  {
    hide Residue, Eval;
    p := Lagrange(At(values));
    if p.Some? {
      forall i | 0 <= i < |values| ensures Eval(p.value, Residue(i + 1)) == Residue(values[i]) {
        assert At(values)[i] == (i + 1, values[i]);
      }
    }
  }

  /** Left times right minus output equals target times the computed cofactor exactly when every
      constraint holds. The script fails, by a division by zero, exactly when two of the points
      1..n fall together in the field, that is when there are more points than field elements. */
  method CheckConstraints(lefts: seq<int>, rights: seq<int>, outs: seq<int>) returns (res: Option<bool>)
    requires |lefts| == |rights| == |outs| > 0
    ensures res.Some? <==> |lefts| <= MODULUS
    ensures res.Some? ==>
      (res.value <==> forall i :: 0 <= i < |lefts| ==> ConstraintHolds(lefts[i], rights[i], outs[i]))
  {
    hide Residue, Mul, Eval, DistinctX, At, ConstraintHolds, Interpolates;
    DistinctIffFew(lefts);
    DistinctIffFew(rights);
    DistinctIffFew(outs);
    var l := LagrangeAt(lefts);
    var r := LagrangeAt(rights);
    var o := LagrangeAt(outs);
    if l.None? {
      return None;
    }
    var target := Target(|lefts|);
    var product := Multiply(l.value, r.value);
    var main := SubPoly(product, o.value);
    var division := DivMod(main, target);
    var (cofactor, rest) := division.value;
    var again := Multiply(target, cofactor);
    res := Some(main == again);

    DistinctRoots(lefts);
    DivisibleIffVanishes(main, target, cofactor, rest, |lefts|);
    ConstraintsIffVanishes(l.value, r.value, o.value, lefts, rights, outs);
  }

  lemma {:induction false} DistinctRoots(v: seq<int>)
    requires DistinctX(At(v))
    ensures forall i, j :: 1 <= i < j <= |v| ==> Residue(i) != Residue(j)
  {
    hide Residue;
    forall i, j | 1 <= i < j <= |v| ensures Residue(i) != Residue(j) {
      assert At(v)[i - 1].0 == i && At(v)[j - 1].0 == j;
    }
  }

  /** The points 1..n are distinct exactly when there are no more of them than field elements. */
  lemma {:induction false} DistinctIffFew(v: seq<int>)
    ensures DistinctX(At(v)) <==> |v| <= MODULUS
  {
    if |v| <= MODULUS {
      forall i, j | 0 <= i < |v| && 0 <= j < |v| && i != j ensures Residue(At(v)[i].0) != Residue(At(v)[j].0) {
        if Residue(i + 1) == Residue(j + 1) {
          ResidueEqualGives(i + 1, j + 1);
          MultipleBounds((i - j) / MODULUS, MODULUS);
          assert false;
        }
      }
    } else {
      ResidueEqual(MODULUS + 1, 1, 1);
      assert At(v)[0].0 == 1 && At(v)[MODULUS].0 == MODULUS + 1;
    }
  }
}
