/** jubjub.py: the twisted Edwards curve, its addition formula, and the factored form that the circuit
    computes. */
module Edwards {
  import opened Wrappers
  import opened Field

  type Point = (Fp, Fp)

  function Sq(x: Fp): Fp { Mul(x, x) }

  /** a x^2 + y^2 = 1 + d x^2 y^2 */
  predicate IsJubjub(a: Fp, d: Fp, p: Point) {
    Add(Mul(a, Sq(p.0)), Sq(p.1)) == Add(ONE, Mul(Mul(d, Sq(p.0)), Sq(p.1)))
  }

  /** d x1 x2 y1 y2 */
  function Cross(d: Fp, p: Point, q: Point): Fp { Mul(Mul(Mul(Mul(d, p.0), q.0), p.1), q.1) }

  /** Division by zero has no result. */
  ghost function Quotient(a: Fp, b: Fp): Option<Fp> { if b == ZERO then None else Some(Div(a, b)) }

  ghost function Both(x: Option<Fp>, y: Option<Fp>): Option<Point> {
    if x.None? || y.None? then None else Some((x.value, y.value))
  }

  /** The textbook formula `add`; `params` are a and d, of which only d is used. */
  ghost function AddPoints(d: Fp, p: Point, q: Point): Option<Point> {
    var c := Cross(d, p, q);
    Both(Quotient(Add(Mul(p.0, q.1), Mul(p.1, q.0)), Add(ONE, c)),
         Quotient(Add(Mul(p.1, q.1), Mul(p.0, q.0)), Sub(ONE, c)))
  }

  /** The factored form `fake_zk_add`. */
  ghost function FactoredAdd(d: Fp, p: Point, q: Point): Option<Point> {
    var u := Mul(Add(p.0, p.1), Add(q.0, q.1));
    var a, b := Mul(q.1, p.0), Mul(q.0, p.1);
    var c := Mul(Mul(d, a), b);
    Both(Quotient(Add(a, b), Add(ONE, c)), Quotient(Sub(Sub(u, a), b), Sub(ONE, c)))
  }

  /* ----- congruences ----- */

  /** Equal residues: the integers stand for the same field element. */
  predicate Congruent(x: int, y: int) { Residue(x) == Residue(y) }

  lemma CongruentTimes(x: int, y: int, u: int, v: int)
    requires Congruent(x, y) && Congruent(u, v)
    ensures Congruent(x * u, y * v)
  {
    ResidueMul(x, u);
    ResidueMul(y, v);
  }

  lemma CongruentPlus(x: int, y: int, u: int, v: int)
    requires Congruent(x, y) && Congruent(u, v)
    ensures Congruent(x + u, y + v) && Congruent(x - u, y - v)
  {
    ResidueAdd(x, u);
    ResidueAdd(y, v);
    ResidueSub(x, u);
    ResidueSub(y, v);
  }

  /* ----- the two forms ----- */

  /** The cross term may be multiplied in any order. */
  lemma CrossFactored(d: Fp, p: Point, q: Point)
    ensures Mul(Mul(d, Mul(q.1, p.0)), Mul(q.0, p.1)) == Cross(d, p, q)
  {
    hide Residue, Mul;
    calc {
      Mul(Mul(d, Mul(q.1, p.0)), Mul(q.0, p.1));
      { MulComm(q.1, p.0); MulAssoc(d, p.0, q.1); }
      Mul(Mul(Mul(d, p.0), q.1), Mul(q.0, p.1));
      { MulAssoc(Mul(d, p.0), q.1, Mul(q.0, p.1)); MulComm(q.1, Mul(q.0, p.1)); }
      Mul(Mul(d, p.0), Mul(Mul(q.0, p.1), q.1));
      { MulAssoc(Mul(d, p.0), Mul(q.0, p.1), q.1); MulAssoc(Mul(d, p.0), q.0, p.1); }
      Cross(d, p, q);
    }
  }

  /** (x1 + y1)(x2 + y2) - x1 y2 - x2 y1 = y1 y2 + x1 x2 */
  lemma NumeratorFactored(p: Point, q: Point)
    ensures Sub(Sub(Mul(Add(p.0, p.1), Add(q.0, q.1)), Mul(q.1, p.0)), Mul(q.0, p.1))
         == Add(Mul(p.1, q.1), Mul(p.0, q.0))
  {
    hide Residue;
    var (x1, y1) := p;
    var (x2, y2) := q;
    ResidueMul(x1 + y1, x2 + y2);
    ResidueSub((x1 + y1) * (x2 + y2), y2 * x1);
    ResidueSub((x1 + y1) * (x2 + y2) - y2 * x1, x2 * y1);
    ResidueAdd(y1 * y2, x1 * x2);
    assert (x1 + y1) * (x2 + y2) - y2 * x1 - x2 * y1 == y1 * y2 + x1 * x2;
  }

  /** The factored form computes the same sum, and fails on the same points. */
  lemma FactoredIsTextbook(d: Fp, p: Point, q: Point)
    ensures FactoredAdd(d, p, q) == AddPoints(d, p, q)
  {
    hide Residue, Mul, Add, Sub;
    CrossFactored(d, p, q);
    NumeratorFactored(p, q);
    MulComm(q.1, p.0);
    MulComm(q.0, p.1);
  }

  /* ----- the sum is on the curve ----- */

  /** For the curve with a = -1, on integers that stand for the coordinates. */
  ghost predicate OnCurve(d: int, x: int, y: int) {
    Congruent(d * ((x * x) * (y * y)), y * y - x * x - 1)
  }

  lemma CurveResidues(d: Fp, p: Point)
    ensures IsJubjub(Neg(ONE), d, p) <==> Congruent(p.1 * p.1 - p.0 * p.0, 1 + d * (p.0 * p.0) * (p.1 * p.1))
  {
    var (x, y) := p;
    ResidueId(d);
    ResidueId(ONE);
    ResidueMul(d, x * x);
    ResidueMul(d * (x * x), y * y);
    NegMul(ONE, Sq(x));
    Units(Sq(x));
    ResidueSub(y * y, x * x);
    SubIsAddNeg(Sq(y), Sq(x));
    AddComm(Sq(y), Neg(Sq(x)));
    ResidueAdd(1, d * (x * x) * (y * y));
    assert Sq(x) == Residue(x * x) && Sq(y) == Residue(y * y);
  }

  lemma CurveIntegers(d: Fp, p: Point)
    ensures IsJubjub(Neg(ONE), d, p) <==> OnCurve(d, p.0, p.1)
  {
    hide Congruent, IsJubjub;
    CurveResidues(d, p);
    var (x, y) := p;
    var u, v := y * y - x * x, d * ((x * x) * (y * y));
    assert d * (x * x) * (y * y) == v;
    Reflexive(1);
    if Congruent(u, 1 + v) { CongruentPlus(u, 1 + v, 1, 1); Symmetric(u - 1, v); }
    if Congruent(v, u - 1) { CongruentPlus(v, u - 1, 1, 1); Symmetric(1 + v, u); }
  }

  function Square(x: int): int { x * x }

  /** The squares of the two numerators, from the squares of the coordinates. */
  lemma FirstNumerator(x1: int, y1: int, x2: int, y2: int)
    ensures Square(x1 * y2 + y1 * x2) == (x1 * x1) * (y2 * y2) + (y1 * y1) * (x2 * x2) + 2 * ((x1 * x2) * (y1 * y2))
  {}

  lemma SecondNumerator(x1: int, y1: int, x2: int, y2: int)
    ensures Square(y1 * y2 + x1 * x2) == (y1 * y1) * (y2 * y2) + (x1 * x1) * (x2 * x2) + 2 * ((x1 * x2) * (y1 * y2))
  {}

  lemma CrossSquare(x1: int, y1: int, x2: int, y2: int)
    ensures ((x1 * x2) * (y1 * y2)) * ((x1 * x2) * (y1 * y2)) == ((x1 * x1) * (y1 * y1)) * ((x2 * x2) * (y2 * y2))
  {}

  /** With the squares X1, Y1, X2, Y2 of the coordinates. */
  lemma SquareProducts(X1: int, Y1: int, X2: int, Y2: int)
    ensures (X1 * Y2 + Y1 * X2) * (Y1 * Y2 + X1 * X2)
         == (X1 * Y1) * ((Y2 - X2) * (Y2 - X2)) + (X2 * Y2) * ((Y1 - X1) * (Y1 - X1)) + 4 * ((X1 * Y1) * (X2 * Y2))
  {}

  lemma SquareDifference(X1: int, Y1: int, X2: int, Y2: int)
    ensures (Y1 * Y2 + X1 * X2) - (X1 * Y2 + Y1 * X2) == (Y1 - X1) * (Y2 - X2)
  {}

  /** The curve equation of the sum, cleared of denominators, in terms of the sums of products. */
  lemma Cleared(d: int, a: int, b: int, m: int, c: int)
    requires c == d * m
    ensures (b + 2 * m) * ((1 + c) * (1 + c)) - (a + 2 * m) * ((1 - c) * (1 - c))
          - ((1 + c) * (1 + c)) * ((1 - c) * (1 - c))
              - d * ((a + 2 * m) * (b + 2 * m))
         == (b - a) * (1 + c * c) + 4 * (d * (m * m)) - (1 - c * c) * (1 - c * c) - d * (a * b)
  {}

  /** What remains vanishes once d x^2 y^2 is replaced by y^2 - x^2 - 1 for both points. */
  function Remainder(s: int, t: int, p: int, q: int): int {
    (s * t) * (1 + p * q) - Square(1 - p * q) - p * Square(t) - q * Square(s)
  }

  lemma RemainderVanishes(s: int, t: int)
    ensures Remainder(s, t, s - 1, t - 1) == 0
  {}

  lemma RemainderRespects(s: int, t: int, p: int, q: int, p2: int, q2: int)
    requires Congruent(p, p2) && Congruent(q, q2)
    ensures Congruent(Remainder(s, t, p, q), Remainder(s, t, p2, q2))
  {
    hide Congruent;
    Reflexive(1); Reflexive(s * t); Reflexive(Square(s)); Reflexive(Square(t));
    CongruentTimes(p, p2, q, q2);
    CongruentPlus(1, 1, p * q, p2 * q2);
    CongruentTimes(s * t, s * t, 1 + p * q, 1 + p2 * q2);
    CongruentTimes(1 - p * q, 1 - p2 * q2, 1 - p * q, 1 - p2 * q2);
    CongruentTimes(p, p2, Square(t), Square(t));
    CongruentTimes(q, q2, Square(s), Square(s));
    CongruentPlus((s * t) * (1 + p * q), (s * t) * (1 + p2 * q2), Square(1 - p * q), Square(1 - p2 * q2));
    CongruentPlus((s * t) * (1 + p * q) - Square(1 - p * q), (s * t) * (1 + p2 * q2) - Square(1 - p2 * q2),
                  p * Square(t), p2 * Square(t));
    CongruentPlus((s * t) * (1 + p * q) - Square(1 - p * q) - p * Square(t),
                  (s * t) * (1 + p2 * q2) - Square(1 - p2 * q2) - p2 * Square(t),
                  q * Square(s), q2 * Square(s));
  }

  lemma Reflexive(x: int)
    ensures Congruent(x, x)
  {}

  lemma ProductTerms(d: int, p: int, q: int, r: int, u: int, v: int)
    ensures d * (p * u + q * v + 4 * r) == (d * p) * u + (d * q) * v + 4 * (d * r)
  {}

  lemma CrossTerm(d: int, m: int, p: int, q: int)
    requires m * m == p * q
    ensures (d * m) * (d * m) == (d * p) * (d * q)
  {
    assert (d * m) * (d * m) == (d * d) * (m * m) && (d * p) * (d * q) == (d * d) * (p * q);
  }

  /** The curve equation of the sum, multiplied by the squares of both denominators. */
  lemma ClearedHolds(d: int, x1: int, y1: int, x2: int, y2: int)
    requires OnCurve(d, x1, y1) && OnCurve(d, x2, y2)
    ensures var (nx, ny, c) := (x1 * y2 + y1 * x2, y1 * y2 + x1 * x2, d * ((x1 * x2) * (y1 * y2)));
            Congruent(Square(ny) * Square(1 + c) - Square(nx) * Square(1 - c) - Square(1 + c) * Square(1 - c)
                      - d * (Square(nx) * Square(ny)), 0)
  {
    hide Square, Remainder, Congruent;
    var X1, Y1, X2, Y2, m := x1 * x1, y1 * y1, x2 * x2, y2 * y2, (x1 * x2) * (y1 * y2);
    var p, q, s, t, c := X1 * Y1, X2 * Y2, Y1 - X1, Y2 - X2, d * m;
    var a, b := X1 * Y2 + Y1 * X2, Y1 * Y2 + X1 * X2;
    FirstNumerator(x1, y1, x2, y2);
    SecondNumerator(x1, y1, x2, y2);
    CrossSquare(x1, y1, x2, y2);
    SquareProducts(X1, Y1, X2, Y2);
    SquareDifference(X1, Y1, X2, Y2);
    Together(d, a, b, m, c, p, q, s, t);
    RemainderVanishes(s, t);
    RemainderRespects(s, t, d * p, d * q, s - 1, t - 1);
  }

  lemma Together(d: int, a: int, b: int, m: int, c: int, p: int, q: int, s: int, t: int)
    requires c == d * m && m * m == p * q && b - a == s * t && a * b == p * (t * t) + q * (s * s) + 4 * (p * q)
    ensures (b + 2 * m) * Square(1 + c) - (a + 2 * m) * Square(1 - c) - Square(1 + c) * Square(1 - c)
          - d * ((a + 2 * m) * (b + 2 * m))
         == Remainder(s, t, d * p, d * q)
  {
    Cleared(d, a, b, m, c);
    CrossTerm(d, m, p, q);
    ProductTerms(d, p, q, p * q, t * t, s * s);
  }

  /** The curve equation as an integer that should vanish. */
  function Defect(d: int, x: int, y: int): int { Square(y) - Square(x) - 1 - d * (Square(x) * Square(y)) }

  lemma DefectVanishes(d: int, x: int, y: int)
    ensures OnCurve(d, x, y) <==> Congruent(Defect(d, x, y), 0)
  {
    hide Congruent;
    var u, v := y * y - x * x - 1, d * ((x * x) * (y * y));
    Reflexive(u); Reflexive(v);
    if Congruent(v, u) { Symmetric(v, u); CongruentPlus(u, v, v, v); }
    if Congruent(u - v, 0) { CongruentPlus(u - v, 0, v, v); Symmetric(u, v); }
  }

  lemma Symmetric(x: int, y: int)
    requires Congruent(x, y)
    ensures Congruent(y, x)
  {}

  /** Multiplying the defect by the squares of the denominators. */
  lemma DefectCleared(d: int, x: int, y: int, e: int, f: int)
    ensures Defect(d, x, y) * (Square(e) * Square(f))
         == Square(y * f) * Square(e) - Square(x * e) * Square(f) - Square(e) * Square(f)
            - d * (Square(x * e) * Square(y * f))
  {}

  lemma SquareRespects(x: int, y: int)
    requires Congruent(x, y)
    ensures Congruent(Square(x), Square(y))
  {
    CongruentTimes(x, y, x, y);
  }

  lemma CrossInteger(d: Fp, p: Point, q: Point)
    ensures Residue(d * ((p.0 * q.0) * (p.1 * q.1))) == Cross(d, p, q)
  {
    hide Residue, Mul;
    var (x1, y1) := p;
    var (x2, y2) := q;
    ResidueId(d); ResidueId(x1); ResidueId(x2); ResidueId(y1); ResidueId(y2);
    ResidueMul(d, x1); ResidueMul(d * x1, x2); ResidueMul(d * x1 * x2, y1); ResidueMul(d * x1 * x2 * y1, y2);
    assert d * ((x1 * x2) * (y1 * y2)) == d * x1 * x2 * y1 * y2;
  }

  lemma QuotientInteger(num: int, den: int, x: Fp)
    requires Quotient(Residue(num), Residue(den)) == Some(x)
    ensures Residue(den) != ZERO && Congruent(x * den, num)
  {
    hide Residue, Mul, Div;
    DivMul(Residue(num), Residue(den));
    ResidueId(x);
    ResidueMul(x, den);
  }

  lemma NumeratorInteger(a: Fp, b: Fp, c: Fp, d: Fp)
    ensures Residue(a * b + c * d) == Add(Mul(a, b), Mul(c, d))
  {
    ResidueAdd(a * b, c * d);
  }

  /** Integers for the coordinates of the sum. */
  lemma SumIntegers(d: Fp, p: Point, q: Point, r: Point)
    requires AddPoints(d, p, q) == Some(r)
    ensures var (x1, y1) := p; var (x2, y2) := q; var c := d * ((x1 * x2) * (y1 * y2));
            && Residue(1 + c) != ZERO && Residue(1 - c) != ZERO
            && Congruent(r.0 * (1 + c), x1 * y2 + y1 * x2) && Congruent(r.1 * (1 - c), y1 * y2 + x1 * x2)
  {
    hide Residue, Mul, Add, Sub, Quotient, Congruent, Cross;
    var (x1, y1) := p;
    var (x2, y2) := q;
    var c := d * ((x1 * x2) * (y1 * y2));
    CrossInteger(d, p, q);
    ResidueId(1);
    ResidueAdd(1, c);
    ResidueSub(1, c);
    NumeratorInteger(x1, y2, y1, x2);
    NumeratorInteger(y1, y2, x1, x2);
    QuotientInteger(x1 * y2 + y1 * x2, 1 + c, r.0);
    QuotientInteger(y1 * y2 + x1 * x2, 1 - c, r.1);
  }

  /** The sum of two points on the curve, where it exists, is on the curve. */
  lemma SumOnCurve(d: Fp, p: Point, q: Point, r: Point)
    requires IsJubjub(Neg(ONE), d, p) && IsJubjub(Neg(ONE), d, q) && AddPoints(d, p, q) == Some(r)
    ensures IsJubjub(Neg(ONE), d, r)
  {
    hide Congruent, IsJubjub, AddPoints, Residue, Mul, Square, Defect;
    var (x1, y1) := p;
    var (x2, y2) := q;
    var (nx, ny, c) := (x1 * y2 + y1 * x2, y1 * y2 + x1 * x2, d * ((x1 * x2) * (y1 * y2)));
    var (e, f) := (1 + c, 1 - c);
    CurveIntegers(d, p); CurveIntegers(d, q); CurveIntegers(d, r);
    SumIntegers(d, p, q, r);
    ClearedHolds(d, x1, y1, x2, y2);
    DefectCleared(d, r.0, r.1, e, f);
    SumCleared(d, r.0 * e, r.1 * f, nx, ny, Square(e), Square(f));
    Transitive(Defect(d, r.0, r.1) * (Square(e) * Square(f)),
               Square(ny) * Square(e) - Square(nx) * Square(f) - Square(e) * Square(f)
                  - d * (Square(nx) * Square(ny)), 0);
    CancelSquares(Defect(d, r.0, r.1), e, f);
    DefectVanishes(d, r.0, r.1);
  }

  lemma Transitive(x: int, y: int, z: int)
    requires Congruent(x, y) && Congruent(y, z)
    ensures Congruent(x, z)
  {}

  lemma SumCleared(d: int, x: int, y: int, nx: int, ny: int, u: int, v: int)
    requires Congruent(x, nx) && Congruent(y, ny)
    ensures Congruent(Square(y) * u - Square(x) * v - u * v - d * (Square(x) * Square(y)),
                      Square(ny) * u - Square(nx) * v - u * v - d * (Square(nx) * Square(ny)))
  {
    hide Congruent, Square;
    SquareRespects(x, nx);
    SquareRespects(y, ny);
    var (xx, yy, mx, my) := (Square(x), Square(y), Square(nx), Square(ny));
    Reflexive(u); Reflexive(v); Reflexive(u * v); Reflexive(d);
    CongruentTimes(yy, my, u, u);
    CongruentTimes(xx, mx, v, v);
    CongruentTimes(xx, mx, yy, my);
    CongruentTimes(d, d, xx * yy, mx * my);
    CongruentPlus(yy * u, my * u, xx * v, mx * v);
    CongruentPlus(yy * u - xx * v, my * u - mx * v, u * v, u * v);
    CongruentPlus(yy * u - xx * v - u * v, my * u - mx * v - u * v, d * (xx * yy), d * (mx * my));
  }

  lemma CancelSquares(z: int, e: int, f: int)
    requires Congruent(z * (Square(e) * Square(f)), 0) && Residue(e) != ZERO && Residue(f) != ZERO
    ensures Congruent(z, 0)
  {
    hide Residue, Mul;
    ResidueId(0);
    ResidueMul(z, Square(e) * Square(f));
    ResidueMul(Square(e), Square(f));
    ResidueMul(e, e);
    ResidueMul(f, f);
    var (r, s) := (Residue(e), Residue(f));
    if Mul(r, r) == ZERO { NoZeroDivisors(r, r); }
    if Mul(s, s) == ZERO { NoZeroDivisors(s, s); }
    if Mul(Mul(r, r), Mul(s, s)) == ZERO { NoZeroDivisors(Mul(r, r), Mul(s, s)); }
    NoZeroDivisors(Residue(z), Mul(Mul(r, r), Mul(s, s)));
  }
}
