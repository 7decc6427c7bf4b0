/** Evaluation is a ring homomorphism, products have the degree they should, and a polynomial has no
    more roots than its degree. */
module PolynomialLaws {
  import opened Euclid
  import opened Field
  import opened Polynomials

  /** The value of the polynomial at x, by Horner's rule. */
  function Eval(p: seq<Fp>, x: Fp): Fp
    decreases |p|
  {
    if p == [] then ZERO else Add(p[0], Mul(x, Eval(p[1..], x)))
  }

  function Tail(p: seq<Fp>): (r: seq<Fp>)
    ensures p != [] ==> |r| == |p| - 1
    ensures forall k :: k >= 0 ==> Coef(r, k) == Coef(p, k + 1)
  {
    if p == [] then [] else p[1..]
  }

  lemma {:induction false} EvalUnfold(p: seq<Fp>, x: Fp)
    ensures Eval(p, x) == Add(Coef(p, 0), Mul(x, Eval(Tail(p), x)))
  {
    hide Residue, Add, Mul;
    Units(x);
    Units(ZERO);
  }

  /* ----- evaluation depends on coefficients only, and respects the operations ----- */

  lemma {:induction false} EvalSame(p: seq<Fp>, q: seq<Fp>, x: Fp)
    requires forall k :: k >= 0 ==> Coef(p, k) == Coef(q, k)
    ensures Eval(p, x) == Eval(q, x)
    decreases |p| + |q|
  {
    hide Residue, Add, Mul;
    if p != [] || q != [] {
      EvalUnfold(p, x);
      EvalUnfold(q, x);
      EvalSame(Tail(p), Tail(q), x);
    }
  }

  lemma {:induction false} EvalAdd(p: seq<Fp>, q: seq<Fp>, r: seq<Fp>, x: Fp)
    requires forall k :: k >= 0 ==> Coef(r, k) == Add(Coef(p, k), Coef(q, k))
    ensures Eval(r, x) == Add(Eval(p, x), Eval(q, x))
    decreases |p| + |q| + |r|
  {
    hide Residue, Add, Mul;
    if p == [] && q == [] && r == [] {
      Units(ZERO);
    } else {
      EvalUnfold(p, x);
      EvalUnfold(q, x);
      EvalUnfold(r, x);
      EvalAdd(Tail(p), Tail(q), Tail(r), x);
      var a, b := Eval(Tail(p), x), Eval(Tail(q), x);
      Distributes(x, a, b);
      AddSwap(Coef(p, 0), Coef(q, 0), Mul(x, a), Mul(x, b));
    }
  }

  lemma {:induction false} EvalScale(c: Fp, p: seq<Fp>, r: seq<Fp>, x: Fp)
    requires forall k :: k >= 0 ==> Coef(r, k) == Mul(c, Coef(p, k))
    ensures Eval(r, x) == Mul(c, Eval(p, x))
    decreases |p| + |r|
  {
    hide Residue, Add, Mul;
    if p == [] && r == [] {
      Units(c);
    } else {
      EvalUnfold(p, x);
      EvalUnfold(r, x);
      EvalScale(c, Tail(p), Tail(r), x);
      var a := Eval(Tail(p), x);
      MulSwap(x, c, a);
      Distributes(c, Coef(p, 0), Mul(x, a));
    }
  }

  lemma {:induction false} EvalSub(p: seq<Fp>, q: seq<Fp>, x: Fp)
    ensures Eval(SubPoly(p, q), x) == Sub(Eval(p, x), Eval(q, x))
  {
    hide Residue, Add, Mul, Neg;
    forall k ensures Coef(NegPoly(q), k) == Mul(Neg(ONE), Coef(q, k)) {
      NegMul(ONE, Coef(q, k));
      Units(Coef(q, k));
    }
    EvalScale(Neg(ONE), q, NegPoly(q), x);
    EvalAdd(p, NegPoly(q), SubPoly(p, q), x);
    NegMul(ONE, Eval(q, x));
    Units(Eval(q, x));
    SubIsAddNeg(Eval(p, x), Eval(q, x));
  }

  /* ----- the product, unfolded at its first coefficient ----- */

  lemma {:induction false} ConvHead(p: seq<Fp>, q: seq<Fp>, k: int, n: nat)
    ensures Conv(p, q, k, n + 1) == Add(Mul(Coef(p, 0), Coef(q, k)), Conv(Tail(p), q, k - 1, n))
  {
    hide Residue, Add, Mul;
    if n == 0 {
      Units(Mul(Coef(p, 0), Coef(q, k)));
    } else {
      ConvHead(p, q, k, n - 1);
      AddAssoc(Mul(Coef(p, 0), Coef(q, k)), Conv(Tail(p), q, k - 1, n - 1), Mul(Coef(p, n), Coef(q, k - n)));
    }
  }

  function Scaled(c: Fp, q: seq<Fp>): (r: seq<Fp>)
    ensures forall k :: Coef(r, k) == Mul(c, Coef(q, k))
  {
    hide Residue, Mul;
    Units(c);
    seq(|q|, k => Mul(c, Coef(q, k)))
  }

  function Shifted(q: seq<Fp>): (r: seq<Fp>)
    ensures forall k :: Coef(r, k) == Coef(q, k - 1)
  {
    [ZERO] + q
  }

  lemma {:induction false} MulHead(p: seq<Fp>, q: seq<Fp>)
    requires p != []
    ensures forall k :: Coef(MulPoly(p, q), k) == Add(Mul(p[0], Coef(q, k)), Coef(MulPoly(p[1..], q), k - 1))
  {
    hide Residue, Add, Mul;
    forall k ensures Coef(MulPoly(p, q), k) == Add(Mul(p[0], Coef(q, k)), Coef(MulPoly(p[1..], q), k - 1)) {
      ConvHead(p, q, k, |p| - 1);
    }
  }

  lemma {:induction false} EvalMul(p: seq<Fp>, q: seq<Fp>, x: Fp)
    ensures Eval(MulPoly(p, q), x) == Mul(Eval(p, x), Eval(q, x))
    decreases |p|
  {
    hide Residue, Add, Mul;
    if p == [] {
      Units(Eval(q, x));
    } else {
      var rest := MulPoly(p[1..], q);
      MulHead(p, q);
      EvalMul(p[1..], q, x);
      EvalScale(p[0], q, Scaled(p[0], q), x);
      EvalAdd(Scaled(p[0], q), Shifted(rest), MulPoly(p, q), x);
      assert Shifted(rest)[1..] == rest;
      Units(Mul(x, Eval(rest, x)));
      MulAssoc(x, Eval(p[1..], x), Eval(q, x));
      Distributes(Eval(q, x), p[0], Mul(x, Eval(p[1..], x)));
    }
  }

  lemma {:induction false} MulCommutes(p: seq<Fp>, q: seq<Fp>)
    ensures MulPoly(p, q) == MulPoly(q, p)
    decreases |p|
  {
    hide Residue, Add, Mul, Conv;
    if p == [] {
      assert MulPoly(p, q) == MulPoly(q, p) == [];
    } else {
      MulCommutes(p[1..], q);
      MulHead(p, q);
      MulTail(q, p);
      SamePoly(MulPoly(p, q), MulPoly(q, p));
    }
  }

  lemma {:induction false} MulTail(q: seq<Fp>, p: seq<Fp>)
    requires p != []
    ensures forall k :: Coef(MulPoly(q, p), k) == Add(Mul(p[0], Coef(q, k)), Coef(MulPoly(q, p[1..]), k - 1))
  {
    hide Residue, Add, Mul, Conv;
    forall k ensures Coef(MulPoly(q, p), k) == Add(Mul(p[0], Coef(q, k)), Coef(MulPoly(q, p[1..]), k - 1)) {
      ConvTail(q, p, k, |q|);
      MulComm(p[0], Coef(q, k));
      Units(p[0]);
    }
  }

  /** The convolution is additive in its second argument: here, split at its first coefficient. */
  lemma {:induction false} ConvTail(q: seq<Fp>, p: seq<Fp>, k: int, n: nat)
    requires p != []
    ensures Conv(q, p, k, n) == Add(if 0 <= k < n then Mul(Coef(q, k), p[0]) else ZERO, Conv(q, p[1..], k - 1, n))
  {
    hide Residue, Add, Mul;
    Units(ZERO);
    if n > 0 {
      ConvTail(q, p, k, n - 1);
      var a := Coef(q, n - 1);
      var rest := Conv(q, p[1..], k - 1, n - 1);
      Units(a);
      Units(rest);
      Units(Mul(a, p[0]));
      if k == n - 1 {
        AddComm(rest, Mul(a, p[0]));
      } else {
        assert Coef(p, k - (n - 1)) == Coef(p[1..], k - 1 - (n - 1));
        AddAssoc(if 0 <= k < n - 1 then Mul(Coef(q, k), p[0]) else ZERO, rest, Mul(a, Coef(p, k - (n - 1))));
      }
    }
  }

  /* ----- degrees ----- */

  /** The top coefficient of a product is the product of the top coefficients, hence not zero. */
  lemma MulDegree(p: Poly, q: Poly)
    requires p != [] && q != []
    ensures |MulPoly(p, q)| == |p| + |q| - 1
    ensures MulPoly(p, q)[|p| + |q| - 2] == Mul(p[|p| - 1], q[|q| - 1])
  {
    hide Residue, Add, Mul;
    var k := |p| + |q| - 2;
    ConvVanishes(p, q, k, |p| - 1);
    var top := Mul(p[|p| - 1], q[|q| - 1]);
    Units(top);
    assert Coef(MulPoly(p, q), k) == top;
    if top == ZERO { NoZeroDivisors(p[|p| - 1], q[|q| - 1]); }
  }

  /* ----- roots ----- */

  /** The quotient by (x - a), by synthetic division. */
  function Synth(s: seq<Fp>, a: Fp): (t: seq<Fp>)
    ensures |t| == if s == [] then 0 else |s| - 1
    decreases |s|
  {
    if |s| <= 1 then [] else [Eval(s[1..], a)] + Synth(s[1..], a)
  }

  lemma {:induction false} SynthDivides(s: seq<Fp>, a: Fp, x: Fp)
    ensures Sub(Eval(s, x), Eval(s, a)) == Mul(Sub(x, a), Eval(Synth(s, a), x))
    decreases |s|
  {
    hide Residue, Add, Mul, Sub;
    if s == [] {
      SubZero(ZERO, ZERO);
      Units(Sub(x, a));
    } else {
      var ex, ea := Eval(s[1..], x), Eval(s[1..], a);
      SynthDivides(s[1..], a, x);
      if |s| == 1 {
        Units(x);
        Units(a);
        SubZero(Eval(s, x), Eval(s, a));
        Units(Sub(x, a));
      } else {
        assert Synth(s, a)[1..] == Synth(s[1..], a);
        SynthStep(s[0], x, a, ex, ea, Eval(Synth(s[1..], a), x));
      }
    }
  }

  /** (s0 + x·ex) - (s0 + a·ea) = (x - a)·(ea + x·t) when ex - ea = (x - a)·t. */
  lemma SynthStep(s0: Fp, x: Fp, a: Fp, ex: Fp, ea: Fp, t: Fp)
    requires Sub(ex, ea) == Mul(Sub(x, a), t)
    ensures Sub(Add(s0, Mul(x, ex)), Add(s0, Mul(a, ea))) == Mul(Sub(x, a), Add(ea, Mul(x, t)))
  {
    var d, k := Sub(x, a), (ex - ea - (x - a) * t) / MODULUS;
    ResidueSub(x, a); ResidueId(x); ResidueId(a); ResidueId(t); ResidueId(ea); ResidueId(ex); ResidueId(s0);
    ResidueMul(x - a, t);
    ResidueEqualGives(ex - ea, (x - a) * t);
    // left-hand side as the residue of an integer
    ResidueAdd(s0, x * ex);
    ResidueAdd(s0, a * ea);
    ResidueSub(s0 + x * ex, s0 + a * ea);
    // right-hand side
    ResidueAdd(ea, x * t);
    ResidueMul(x - a, ea + x * t);
    SynthIdentity(s0, x, a, ex, ea, t, k);
    ResidueEqual((s0 + x * ex) - (s0 + a * ea), (x - a) * (ea + x * t), x * k);
  }

  lemma SynthIdentity(s0: int, x: int, a: int, ex: int, ea: int, t: int, k: int)
    requires ex - ea - (x - a) * t == k * MODULUS
    ensures (s0 + x * ex) - (s0 + a * ea) - (x - a) * (ea + x * t) == x * k * MODULUS
  {
    var m := MODULUS;
    calc {
      (s0 + x * ex) - (s0 + a * ea) - (x - a) * (ea + x * t);
      x * ex - a * ea - (x - a) * ea - (x - a) * (x * t);
      x * ex - x * ea - x * ((x - a) * t);
      x * (ex - ea - (x - a) * t);
      x * (k * m);
      x * k * m;
    }
  }

  lemma ResidueEqualGives(x: int, y: int)
    requires Residue(x) == Residue(y)
    ensures x - y == (x - y) / MODULUS * MODULUS
  {
    assert x == x / MODULUS * MODULUS + Residue(x) && y == y / MODULUS * MODULUS + Residue(y);
    var k := x / MODULUS - y / MODULUS;
    assert x - y == k * MODULUS + 0;
    QuotientUnique(MODULUS, (x - y) / MODULUS, (x - y) % MODULUS, k, 0);
  }

  /** When the quotient has no coefficients left, neither has the polynomial above its constant. */
  lemma {:induction false} SynthZero(s: seq<Fp>, a: Fp)
    requires forall k :: 0 <= k < |Synth(s, a)| ==> Synth(s, a)[k] == ZERO
    requires Eval(s, a) == ZERO
    ensures forall k :: 0 <= k < |s| ==> s[k] == ZERO
    decreases |s|
  {
    hide Residue, Add, Mul;
    if s != [] {
      if |s| > 1 {
        var t := Synth(s, a);
        assert t[0] == Eval(s[1..], a);
        forall k | 0 <= k < |s| - 2 ensures Synth(s[1..], a)[k] == ZERO { assert t[k + 1] == Synth(s[1..], a)[k]; }
        SynthZero(s[1..], a);
        assert forall k :: 0 < k < |s| ==> s[k] == s[1..][k - 1];
      }
      Units(a);
      Units(s[0]);
    }
  }

  /** As many distinct roots as coefficients leave only zero coefficients. */
  lemma {:induction false} TooManyRoots(s: seq<Fp>, roots: seq<Fp>)
    requires |s| <= |roots|
    requires forall i, j :: 0 <= i < j < |roots| ==> roots[i] != roots[j]
    requires forall i :: 0 <= i < |roots| ==> Eval(s, roots[i]) == ZERO
    ensures forall k :: 0 <= k < |s| ==> s[k] == ZERO
    decreases |roots|
  {
    if s != [] {
      var n := |roots| - 1;
      var a, others := roots[n], roots[..n];
      var t := Synth(s, a);
      forall i | 0 <= i < n ensures Eval(t, others[i]) == ZERO {
        SynthDivides(s, a, roots[i]);
        SubZero(ZERO, ZERO);
        SubZero(roots[i], a);
        NoZeroDivisors(Sub(roots[i], a), Eval(t, roots[i]));
      }
      TooManyRoots(t, others);
      SynthZero(s, a);
    }
  }
}
