/** polynomial.py over the integers modulo a prime: coefficient lists in increasing order of degree,
    without trailing zeros. */
module Polynomials {
  import opened Wrappers
  import opened Field

  predicate Canonical(p: seq<Fp>) {
    p != [] ==> p[|p| - 1] != ZERO
  }

  type Poly = p: seq<Fp> | Canonical(p)

  /** The coefficient of x^k; zero outside the list. */
  function Coef(p: seq<Fp>, k: int): Fp {
    if 0 <= k < |p| then p[k] else ZERO
  }

  /** The list without its trailing zeros. */
  function Stripped(p: seq<Fp>): (r: Poly)
    ensures |r| <= |p| && r == p[..|r|]
    ensures forall k :: Coef(r, k) == Coef(p, k)
    decreases |p|
  {
    if p == [] then []
    else if p[|p| - 1] != ZERO then p
    else
      var r := Stripped(p[..|p| - 1]);
      assert forall k :: Coef(p[..|p| - 1], k) == Coef(p, k);
      r
  }

  /** Canonical lists are equal when their coefficients are. */
  lemma SamePoly(p: Poly, q: Poly)
    requires forall k :: Coef(p, k) == Coef(q, k)
    ensures p == q
  {
    assert Coef(p, |p| - 1) == Coef(q, |p| - 1) && Coef(p, |q| - 1) == Coef(q, |q| - 1);
    forall k | 0 <= k < |p| ensures p[k] == q[k] { assert Coef(p, k) == Coef(q, k); }
  }

  method Strip(l: seq<Fp>) returns (r: Poly)
    ensures r == Stripped(l)
  {
    var i := |l| - 1;
    assert l[..i + 1] == l;
    while i >= 0 && l[i] == ZERO
      invariant -1 <= i < |l|
      invariant Stripped(l[..i + 1]) == Stripped(l)
    {
      assert l[..i + 1][..i] == l[..i];
      i := i - 1;
    }
    r := l[..i + 1];
  }

  function Max(a: int, b: int): int { if a < b then b else a }

  function AddPoly(p: seq<Fp>, q: seq<Fp>): (r: Poly)
    ensures forall k :: Coef(r, k) == Add(Coef(p, k), Coef(q, k))
    ensures |r| <= Max(|p|, |q|)
  {
    hide Residue, Add, Mul, Neg;
    Units(ZERO);
    Stripped(seq(Max(|p|, |q|), k => Add(Coef(p, k), Coef(q, k))))
  }

  function NegPoly(p: seq<Fp>): (r: Poly)
    ensures forall k :: Coef(r, k) == Neg(Coef(p, k))
    ensures |r| <= |p|
  {
    hide Residue, Add, Mul, Neg;
    Units(ZERO);
    Stripped(seq(|p|, k => Neg(Coef(p, k))))
  }

  function SubPoly(p: seq<Fp>, q: seq<Fp>): (r: Poly)
    ensures forall k :: Coef(r, k) == Add(Coef(p, k), Neg(Coef(q, k)))
    ensures |r| <= Max(|p|, |q|)
  {
    hide Residue, Add, Mul, Neg;
    AddPoly(p, NegPoly(q))
  }

  /* ----- multiplication ----- */

  /** What the first n coefficients of p contribute to the k-th coefficient of the product. */
  function Conv(p: seq<Fp>, q: seq<Fp>, k: int, n: nat): Fp {
    if n == 0 then ZERO else Add(Conv(p, q, k, n - 1), Mul(Coef(p, n - 1), Coef(q, k - (n - 1))))
  }

  /** The product as a convolution. */
  function MulPoly(p: seq<Fp>, q: seq<Fp>): (r: Poly)
    ensures forall k :: Coef(r, k) == Conv(p, q, k, |p|)
    ensures |r| <= Max(|p| + |q| - 1, 0)
    ensures p == [] || q == [] ==> r == []
  {
    var n := Max(|p| + |q| - 1, 0);
    ConvOutside(p, q, n);
    var c := seq(n, k => Conv(p, q, k, |p|));
    assert forall k :: Coef(c, k) == Conv(p, q, k, |p|);
    Stripped(c)
  }

  lemma {:induction false} ConvVanishes(p: seq<Fp>, q: seq<Fp>, k: int, n: nat)
    requires k < 0 || k >= n - 1 + |q| || q == []
    ensures Conv(p, q, k, n) == ZERO
  {
    hide Residue, Add, Mul;
    if n > 0 {
      ConvVanishes(p, q, k, n - 1);
      Units(Coef(p, n - 1));
      Units(ZERO);
    }
  }

  lemma {:induction false} ConvOutside(p: seq<Fp>, q: seq<Fp>, n: nat)
    requires n == Max(|p| + |q| - 1, 0)
    ensures forall k :: k < 0 || k >= n ==> Conv(p, q, k, |p|) == ZERO
    ensures p == [] || q == [] ==> forall k :: Conv(p, q, k, |p|) == ZERO
  {
    hide Residue, Add, Mul, Neg;
    forall k | k < 0 || k >= n || q == [] ensures Conv(p, q, k, |p|) == ZERO {
      ConvVanishes(p, q, k, |p|);
    }
  }

  method Multiply(p: Poly, q: Poly) returns (r: Poly)
    ensures r == MulPoly(p, q)
  {
    hide Residue, Add, Mul, Neg;
    if p == [] || q == [] {
      return [];
    }
    var c: seq<Fp> := seq(|p| + |q| - 1, _ => ZERO);
    for i := 0 to |p|
      invariant |c| == |p| + |q| - 1
      invariant forall k :: 0 <= k < |c| ==> c[k] == Conv(p, q, k, i)
    {
      ghost var row := c;
      for j := 0 to |q|
        invariant |c| == |p| + |q| - 1
        invariant forall k :: i <= k < i + j ==> c[k] == Add(Conv(p, q, k, i), Mul(p[i], q[k - i]))
        invariant forall k :: 0 <= k < |c| && !(i <= k < i + j) ==> c[k] == Conv(p, q, k, i)
      {
        c := c[i + j := Add(c[i + j], Mul(p[i], q[j]))];
      }
      forall k | 0 <= k < |c| ensures c[k] == Conv(p, q, k, i + 1) {
        if !(i <= k < i + |q|) {
          Units(p[i]);
          Units(Conv(p, q, k, i));
        }
      }
    }
    r := Strip(c);
    assert forall k :: Coef(c, k) == Conv(p, q, k, |p|) by { ConvOutside(p, q, |c|); }
    SamePoly(r, MulPoly(p, q));
  }

  /** Multiplication distributes over addition on its left, coefficient by coefficient. */
  lemma {:induction false} ConvAdd(p1: seq<Fp>, p2: seq<Fp>, p: seq<Fp>, q: seq<Fp>, k: int, n: nat)
    requires forall i :: Coef(p, i) == Add(Coef(p1, i), Coef(p2, i))
    ensures Conv(p, q, k, n) == Add(Conv(p1, q, k, n), Conv(p2, q, k, n))
  {
    hide Residue, Add, Mul, Neg;
    Units(ZERO);
    if n > 0 {
      ConvAdd(p1, p2, p, q, k, n - 1);
      var a, b, c := Coef(p1, n - 1), Coef(p2, n - 1), Coef(q, k - (n - 1));
      Distributes(c, a, b);
      AddSwap(Conv(p1, q, k, n - 1), Conv(p2, q, k, n - 1), Mul(a, c), Mul(b, c));
    }
  }

  /** Beyond its length a list contributes nothing. */
  lemma {:induction false} ConvLonger(p: seq<Fp>, q: seq<Fp>, k: int, n: nat)
    requires n >= |p|
    ensures Conv(p, q, k, n) == Conv(p, q, k, |p|)
    decreases n
  {
    hide Residue, Add, Mul, Neg;
    if n > |p| {
      ConvLonger(p, q, k, n - 1);
      Units(Coef(q, k - (n - 1)));
      Units(Conv(p, q, k, n - 1));
    }
  }

  lemma {:induction false} MulAdd(p1: seq<Fp>, p2: seq<Fp>, q: seq<Fp>)
    ensures MulPoly(AddPoly(p1, p2), q) == AddPoly(MulPoly(p1, q), MulPoly(p2, q))
  {
    hide Residue, Add, Mul, Neg;
    var p := AddPoly(p1, p2);
    var n := Max(|p1|, |p2|);
    forall k ensures Conv(p, q, k, |p|) == Add(Conv(p1, q, k, |p1|), Conv(p2, q, k, |p2|)) {
      ConvLonger(p, q, k, n);
      ConvLonger(p1, q, k, n);
      ConvLonger(p2, q, k, n);
      ConvAdd(p1, p2, p, q, k, n);
    }
    SamePoly(MulPoly(p, q), AddPoly(MulPoly(p1, q), MulPoly(p2, q)));
  }

  /** The product with c·x^e shifts and scales. */
  lemma {:induction false} MonomialCoef(c: Fp, e: nat, q: seq<Fp>, k: int)
    requires c != ZERO
    ensures Coef(MulPoly(Monomial(c, e), q), k) == Mul(c, Coef(q, k - e))
  {
    hide Residue, Add, Mul, Neg;
    MonomialConv(c, e, q, k, e);
    Units(Mul(c, Coef(q, k - e)));
  }

  lemma {:induction false} MonomialConv(c: Fp, e: nat, q: seq<Fp>, k: int, n: nat)
    requires n <= e
    ensures Conv(Monomial(c, e), q, k, n) == ZERO
  {
    hide Residue, Add, Mul, Neg;
    if n > 0 {
      MonomialConv(c, e, q, k, n - 1);
      Units(Coef(q, k - (n - 1)));
      Units(ZERO);
    }
  }

  function Monomial(c: Fp, e: nat): seq<Fp> {
    seq(e, _ => ZERO) + [c]
  }

  /* ----- division ----- */

  /** One step of long division: the quotient takes a monomial and the remainder loses its multiple. */
  lemma {:induction false} DivStep(f: seq<Fp>, q: seq<Fp>, r: seq<Fp>, m: seq<Fp>, d: seq<Fp>)
    requires forall k :: Coef(f, k) == Add(Coef(MulPoly(q, d), k), Coef(r, k))
    ensures var q', r' := AddPoly(q, m), SubPoly(r, MulPoly(m, d));
            forall k :: Coef(f, k) == Add(Coef(MulPoly(q', d), k), Coef(r', k))
  {
    hide Residue, Add, Mul, Neg;
    MulAdd(q, m, d);
    forall k ensures Coef(f, k) == Add(Coef(MulPoly(AddPoly(q, m), d), k), Coef(SubPoly(r, MulPoly(m, d)), k)) {
      var a, b, c := Coef(MulPoly(q, d), k), Coef(MulPoly(m, d), k), Coef(r, k);
      Cancels(a, b, c);
    }
  }

  lemma Cancels(a: Fp, b: Fp, c: Fp)
    ensures Add(Add(a, b), Add(c, Neg(b))) == Add(a, c)
  {
    hide Residue, Add, Mul, Neg;
    AddComm(c, Neg(b));
    AddAssoc(a, b, Add(Neg(b), c));
    AddAssoc(b, Neg(b), c);
    Units(b);
    Units(c);
  }

  /** The leading terms cancel, so the remainder gets shorter. */
  lemma LeadingCancels(r: Poly, d: Poly)
    requires d != [] && |r| >= |d|
    ensures var c := Div(r[|r| - 1], d[|d| - 1]);
            c != ZERO && |SubPoly(r, MulPoly(Monomial(c, |r| - |d|), d))| < |r|
  {
    hide Residue, Add, Mul, Neg;
    var e, lr, ld := |r| - |d|, r[|r| - 1], d[|d| - 1];
    var c := Div(lr, ld);
    DivMul(lr, ld);
    Units(ld);
    assert c != ZERO;
    var m := MulPoly(Monomial(c, e), d);
    MonomialCoef(c, e, d, |r| - 1);
    Units(lr);
    assert Coef(SubPoly(r, m), |r| - 1) == ZERO;
  }

  /** Long division; None is the source's IndexError on a zero divisor. */
  method DivMod(f: Poly, d: Poly) returns (res: Option<(Poly, Poly)>)
    ensures res.None? <==> d == []
    ensures res.Some? ==> var (q, r) := res.value; f == AddPoly(MulPoly(q, d), r) && |r| < |d|
  {
    hide Residue, Add, Mul, Neg;
    if d == [] {
      return None;
    }
    var quotient: Poly, remainder: Poly := [], f;
    forall k ensures Coef(f, k) == Add(Coef(MulPoly([], d), k), Coef(f, k)) { Units(Coef(f, k)); }
    while |remainder| >= |d|
      invariant forall k :: Coef(f, k) == Add(Coef(MulPoly(quotient, d), k), Coef(remainder, k))
      decreases |remainder|
    {
      LeadingCancels(remainder, d);
      var inv := Inverse(d[|d| - 1]);
      Units(d[|d| - 1]);
      InverseUnique(d[|d| - 1], inv.value);
      var lead := Mul(remainder[|remainder| - 1], inv.value);
      var monomial := Strip(Monomial(lead, |remainder| - |d|));
      DivStep(f, quotient, remainder, monomial, d);
      quotient := AddPoly(quotient, monomial);
      var product := Multiply(monomial, d);
      remainder := SubPoly(remainder, product);
    }
    SamePoly(f, AddPoly(MulPoly(quotient, d), remainder));
    res := Some((quotient, remainder));
  }
}
