/** modp.py: the integers modulo a prime, as a field. The prime is arbitrary but fixed; nothing
    below depends on which one it is. */
module Field {
  import opened Wrappers
  import opened Euclid

  predicate IsPrime(p: int) {
    p >= 2 && forall d :: 1 < d < p ==> p % d != 0
  }

  type Prime = p: int | IsPrime(p) witness 2

  /** The characteristic: any prime. */
  const MODULUS: Prime

  type Fp = x: int | 0 <= x < MODULUS witness 0

  /** `IntegerModP.__init__`: the residue of an integer. */
  function Residue(x: int): Fp { x % MODULUS }

  const ZERO: Fp := 0
  const ONE: Fp := 1

  function Add(a: Fp, b: Fp): Fp { Residue(a + b) }

  function Sub(a: Fp, b: Fp): Fp { Residue(a - b) }

  function Neg(a: Fp): Fp { Residue(0 - a) }

  function Mul(a: Fp, b: Fp): Fp { Residue(a * b) }

  /* ----- residues ----- */

  lemma ResidueUnique(x: int, k: int, r: Fp)
    requires x == k * MODULUS + r
    ensures Residue(x) == r
  {
    QuotientUnique(MODULUS, x / MODULUS, x % MODULUS, k, r);
  }

  /** Two integers have the same residue exactly when they differ by a multiple of the modulus. */
  lemma ResidueEqual(x: int, y: int, k: int)
    requires x - y == k * MODULUS
    ensures Residue(x) == Residue(y)
  {
    assert y == y / MODULUS * MODULUS + y % MODULUS;
    assert x == (y / MODULUS + k) * MODULUS + Residue(y);
    ResidueUnique(x, y / MODULUS + k, Residue(y));
  }

  lemma ResidueAdd(x: int, y: int)
    ensures Residue(x + y) == Add(Residue(x), Residue(y))
  {
    var k, l := x / MODULUS, y / MODULUS;
    assert x == k * MODULUS + Residue(x) && y == l * MODULUS + Residue(y);
    assert (x + y) - (Residue(x) + Residue(y)) == (k + l) * MODULUS;
    ResidueEqual(x + y, Residue(x) + Residue(y), k + l);
  }

  lemma ResidueNeg(x: int)
    ensures Residue(-x) == Neg(Residue(x))
  {
    var k := x / MODULUS;
    assert x == k * MODULUS + Residue(x);
    assert -x - (0 - Residue(x)) == (-k) * MODULUS;
    ResidueEqual(-x, 0 - Residue(x), -k);
  }

  lemma ResidueSub(x: int, y: int)
    ensures Residue(x - y) == Sub(Residue(x), Residue(y))
  {
    var k, l := x / MODULUS, y / MODULUS;
    assert x == k * MODULUS + Residue(x) && y == l * MODULUS + Residue(y);
    assert (x - y) - (Residue(x) - Residue(y)) == (k - l) * MODULUS;
    ResidueEqual(x - y, Residue(x) - Residue(y), k - l);
  }

  lemma ResidueMul(x: int, y: int)
    ensures Residue(x * y) == Mul(Residue(x), Residue(y))
  {
    var k, l, a, b := x / MODULUS, y / MODULUS, Residue(x), Residue(y);
    assert x == k * MODULUS + a && y == l * MODULUS + b;
    assert x * y - a * b == (k * y + a * l) * MODULUS by {
      assert x * y - a * b == (x - a) * y + a * (y - b);
      assert (k * MODULUS) * y + a * (l * MODULUS) == (k * y + a * l) * MODULUS;
    }
    ResidueEqual(x * y, a * b, k * y + a * l);
  }

  lemma ResidueId(a: Fp)
    ensures Residue(a) == a
  {
    ResidueUnique(a, 0, a);
  }

  /* ----- ring laws ----- */

  lemma AddComm(a: Fp, b: Fp)
    ensures Add(a, b) == Add(b, a)
  {}

  lemma AddAssoc(a: Fp, b: Fp, c: Fp)
    ensures Add(Add(a, b), c) == Add(a, Add(b, c))
  {
    ResidueAdd(a + b, c);
    ResidueAdd(a, b + c);
    ResidueId(a);
    ResidueId(c);
  }

  lemma MulComm(a: Fp, b: Fp)
    ensures Mul(a, b) == Mul(b, a)
  {}

  lemma MulAssoc(a: Fp, b: Fp, c: Fp)
    ensures Mul(Mul(a, b), c) == Mul(a, Mul(b, c))
  {
    hide Residue;
    ResidueMul(a * b, c);
    ResidueMul(a, b * c);
    ResidueId(a);
    ResidueId(c);
    assert (a * b) * c == a * (b * c);
  }

  lemma Distributes(a: Fp, b: Fp, c: Fp)
    ensures Mul(a, Add(b, c)) == Add(Mul(a, b), Mul(a, c))
    ensures Mul(Add(b, c), a) == Add(Mul(b, a), Mul(c, a))
  {
    ResidueMul(a, b + c);
    ResidueId(a);
    ResidueAdd(a * b, a * c);
    assert a * (b + c) == a * b + a * c;
    MulComm(a, b); MulComm(a, c); MulComm(a, Add(b, c));
  }

  lemma Units(a: Fp)
    ensures Add(a, ZERO) == Add(ZERO, a) == a && Mul(a, ONE) == Mul(ONE, a) == a
    ensures Mul(a, ZERO) == Mul(ZERO, a) == ZERO
    ensures Add(a, Neg(a)) == ZERO && Neg(ZERO) == ZERO
  {
    ResidueId(a);
    ResidueId(0);
    ResidueAdd(a, 0 - a);
    assert a * 1 == a && a * 0 == 0 && 1 * a == a && 0 * a == 0;
  }

  /** Subtraction is adding the negative, and negation is multiplication by minus one. */
  lemma SubIsAddNeg(a: Fp, b: Fp)
    ensures Sub(a, b) == Add(a, Neg(b))
  {
    ResidueAdd(a, 0 - b);
    ResidueId(a);
  }

  lemma NegMul(a: Fp, b: Fp)
    ensures Mul(Neg(a), b) == Neg(Mul(a, b)) == Mul(a, Neg(b))
  {
    ResidueMul(0 - a, b);
    ResidueMul(a, 0 - b);
    ResidueId(a);
    ResidueId(b);
    ResidueNeg(a * b);
    assert (0 - a) * b == -(a * b) && a * (0 - b) == -(a * b);
  }

  /** A difference is zero only between equal elements. */
  lemma SubZero(a: Fp, b: Fp)
    ensures Sub(a, b) == ZERO <==> a == b
  {
    ResidueId(0);
    if Sub(a, b) == ZERO {
      var k := (a - b) / MODULUS;
      assert a - b == k * MODULUS + 0;
      assert a == k * MODULUS + b;
      ResidueUnique(a, k, b);
      ResidueId(a);
    }
  }

  /* ----- inverses ----- */

  lemma {:induction false} Bezout(a: nat, b: nat) returns (x: int, y: int, d: nat)
    ensures a * x + b * y == d && IsGcd(d, a, b)
    decreases b
  {
    if b == 0 {
      DividesSelf(a);
      return 1, 0, a;
    }
    var q, r := FloorDiv(a, b), FloorMod(a, b);
    FloorDivMod(a, b);
    var x1, y1, d1 := Bezout(b, r);
    GcdStep(d1, a, b);
    CombinationStep(b, a, x1, 0, 0, -y1, q);
    assert b * x1 + r * y1 == d1;
    assert b * x1 + (a - q * b) * y1 == a * y1 + b * (x1 - q * y1);
    return y1, x1 - q * y1, d1;
  }

  /** The only positive divisor that a non-zero residue shares with the prime is one. */
  lemma CoprimeToModulus(a: Fp, d: int)
    requires a != 0 && d >= 0 && IsGcd(d, a, MODULUS)
    ensures d == 1
  {
    var k :| Multiple(MODULUS, k, d);
    var l :| Multiple(a, l, d);
    assert d != 0;
    MultipleBounds(k, d);
    MultipleBounds(l, d);
    if 1 < d < MODULUS {
      QuotientUnique(d, MODULUS / d, MODULUS % d, k, 0);
    }
  }

  lemma InverseExists(a: Fp)
    requires a != 0
    ensures exists b: Fp :: Mul(a, b) == ONE
  {
    var x, y, d := Bezout(a, MODULUS);
    CoprimeToModulus(a, d);
    CombinationIsInverse(a, x, y);
    assert Mul(a, Residue(x)) == ONE;
  }

  lemma CombinationIsInverse(a: Fp, x: int, y: int)
    requires a * x + MODULUS * y == 1
    ensures Mul(a, Residue(x)) == ONE
  {
    ResidueMul(a, x);
    ResidueId(a);
    ResidueUnique(a * x, -y, ONE);
  }

  /** The multiplicative inverse of a non-zero element; by convention zero for zero. */
  ghost function Inv(a: Fp): (r: Fp)
    ensures a != 0 ==> Mul(a, r) == ONE
  {
    if a == 0 then 0 else
      InverseExists(a);
      var b: Fp :| Mul(a, b) == ONE;
      b
  }

  lemma InverseUnique(a: Fp, b: Fp)
    requires Mul(a, b) == ONE
    ensures a != 0 && b == Inv(a)
  {
    if a == 0 { Units(b); assert false; }
    var c := Inv(a);
    MulAssoc(b, a, c);
    MulComm(a, b);
    Units(b);
    Units(c);
  }

  ghost function Div(a: Fp, b: Fp): Fp { Mul(a, Inv(b)) }

  /** Dividing undoes multiplying. */
  lemma DivMul(a: Fp, b: Fp)
    requires b != 0
    ensures Mul(Div(a, b), b) == a
  {
    MulAssoc(a, Inv(b), b);
    MulComm(b, Inv(b));
    Units(a);
  }

  lemma NoZeroDivisors(a: Fp, b: Fp)
    requires Mul(a, b) == ZERO
    ensures a == ZERO || b == ZERO
  {
    if a != ZERO {
      MulAssoc(Inv(a), a, b);
      MulComm(a, Inv(a));
      Units(b);
      Units(Inv(a));
    }
  }

  /** `IntegerModP.inverse`: defined exactly on the non-zero residues; on zero the source raises. */
  method Inverse(a: Fp) returns (r: Option<Fp>)
    ensures r.None? <==> a == ZERO
    ensures r.Some? ==> Mul(a, r.value) == ONE
  {
    var x, y, d := ExtendedEuclid(a, MODULUS);
    if d != 1 {
      if a != 0 { CoprimeToModulus(a, d); }
      return None;
    }
    CombinationIsInverse(a, x, y);
    if a == 0 { Units(Residue(x)); assert false; }
    r := Some(Residue(x));
  }

  /* ----- derived laws ----- */

  lemma AddSwap(a: Fp, b: Fp, c: Fp, d: Fp)
    ensures Add(Add(a, b), Add(c, d)) == Add(Add(a, c), Add(b, d))
  {
    ResidueAdd(a + b, c + d);
    ResidueAdd(a + c, b + d);
  }

  lemma NegAdd(a: Fp, b: Fp)
    ensures Neg(Add(a, b)) == Add(Neg(a), Neg(b))
  {
    ResidueNeg(a + b);
    ResidueAdd(0 - a, 0 - b);
  }

  lemma MulSwap(a: Fp, b: Fp, c: Fp)
    ensures Mul(a, Mul(b, c)) == Mul(b, Mul(a, c))
  {
    MulAssoc(a, b, c);
    MulAssoc(b, a, c);
    MulComm(a, b);
  }

  function Pow(x: Fp, n: nat): Fp {
    if n == 0 then ONE else Mul(x, Pow(x, n - 1))
  }
}
