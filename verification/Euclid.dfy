/** euclidean.py: the Euclidean algorithm and its extended form on integers of any sign. */
module Euclid {
  function Abs(a: int): nat { if a < 0 then -a else a }

  /** Python's `divmod` on integers: the quotient is rounded down, the remainder has the sign of the divisor. */
  function FloorDiv(a: int, b: int): int
    requires b != 0
  {
    if b > 0 || a % b == 0 then a / b else a / b - 1
  }

  function FloorMod(a: int, b: int): int
    requires b != 0
  {
    if b > 0 || a % b == 0 then a % b else a % b + b
  }

  lemma FloorDivMod(a: int, b: int)
    requires b != 0
    ensures a == FloorDiv(a, b) * b + FloorMod(a, b)
    ensures Abs(FloorMod(a, b)) < Abs(b)
    ensures FloorMod(a, b) == 0 || (FloorMod(a, b) > 0 <==> b > 0)
  {
    assert a == a / b * b + a % b;
  }

  ghost predicate Divides(d: int, a: int) {
    exists k: int :: Multiple(a, k, d)
  }

  ghost predicate Multiple(a: int, k: int, d: int) {
    a == k * d
  }

  /** Everything that divides both numbers divides each combination of them. */
  lemma DividesCombination(d: int, a: int, b: int, x: int, y: int)
    requires Divides(d, a) && Divides(d, b)
    ensures Divides(d, a * x + b * y)
  {
    var k :| Multiple(a, k, d);
    var l :| Multiple(b, l, d);
    assert Multiple(a * x + b * y, k * x + l * y, d) by {
      assert (k * x + l * y) * d == (k * d) * x + (l * d) * y;
    }
  }

  lemma DividesSelf(a: int)
    ensures Divides(a, a) && Divides(a, 0)
  {
    assert Multiple(a, 1, a) && Multiple(0, 0, a);
  }

  /** d is a greatest common divisor of a and b, in the order given by divisibility. */
  ghost predicate IsGcd(d: int, a: int, b: int) {
    Divides(d, a) && Divides(d, b) && forall c :: Divides(c, a) && Divides(c, b) ==> Divides(c, d)
  }

  /** A step of the algorithm does not change the common divisors. */
  lemma GcdStep(d: int, a: int, b: int)
    requires b != 0 && IsGcd(d, b, FloorMod(a, b))
    ensures IsGcd(d, a, b)
  {
    var q, r := FloorDiv(a, b), FloorMod(a, b);
    FloorDivMod(a, b);
    DividesCombination(d, b, r, q, 1);
    assert b * q + r * 1 == a;
    forall c | Divides(c, a) && Divides(c, b) ensures Divides(c, d) {
      DividesCombination(c, a, b, 1, -q);
      assert a * 1 + b * -q == r;
    }
  }

  method Gcd(a: int, b: int) returns (d: int)
    ensures IsGcd(d, a, b)
    decreases Abs(a) < Abs(b)
  {
    if Abs(a) < Abs(b) {
      d := Gcd(b, a);
      return;
    }
    var u, v := a, b;
    while Abs(v) > 0
      invariant forall d :: IsGcd(d, u, v) ==> IsGcd(d, a, b)
      decreases Abs(v)
    {
      var r := FloorMod(u, v);
      FloorDivMod(u, v);
      GcdSteps(u, v);
      u, v := v, r;
    }
    DividesSelf(u);
    assert IsGcd(u, u, v);
    d := u;
  }

  lemma CombinationStep(a: int, b: int, x2: int, y2: int, x1: int, y1: int, q: int)
    ensures a * (x2 - q * x1) + b * (y2 - q * y1) == (a * x2 + b * y2) - q * (a * x1 + b * y1)
  {}

  lemma GcdSteps(a: int, b: int)
    requires b != 0
    ensures forall d :: IsGcd(d, b, FloorMod(a, b)) ==> IsGcd(d, a, b)
  {
    forall d | IsGcd(d, b, FloorMod(a, b)) ensures IsGcd(d, a, b) { GcdStep(d, a, b); }
  }

  /** Besides the greatest common divisor, the numbers that combine to it. */
  method ExtendedEuclid(a: int, b: int) returns (x: int, y: int, d: int)
    ensures a * x + b * y == d
    ensures IsGcd(d, a, b)
    ensures a >= 0 && b >= 0 ==> d >= 0
    decreases Abs(b) > Abs(a)
  {
    if Abs(b) > Abs(a) {
      y, x, d := ExtendedEuclid(b, a);
      return;
    }
    if Abs(b) == 0 {
      DividesSelf(a);
      assert Divides(a, b);
      return 1, 0, a;
    }
    var u, v := a, b;
    var x1, x2, y1, y2 := 0, 1, 1, 0;
    while Abs(v) > 0
      invariant a * x2 + b * y2 == u && a * x1 + b * y1 == v
      invariant a >= 0 && b >= 0 ==> u >= 0 && v >= 0
      invariant forall d :: IsGcd(d, u, v) ==> IsGcd(d, a, b)
      decreases Abs(v)
    {
      var q, r := FloorDiv(u, v), FloorMod(u, v);
      FloorDivMod(u, v);
      GcdSteps(u, v);
      x := x2 - q * x1;
      y := y2 - q * y1;
      CombinationStep(a, b, x2, y2, x1, y1, q);
      u, v, x2, x1, y2, y1 := v, r, x1, x, y1, y;
    }
    DividesSelf(u);
    assert IsGcd(u, u, v);
    x, y, d := x2, y2, u;
  }

  /* ----- quotients ----- */

  lemma MultipleBounds(k: int, m: int)
    requires m > 0
    ensures k > 0 ==> k * m >= m
    ensures k < 0 ==> k * m <= -m
  {
    if k > 0 {
      assert (k - 1) * m >= 0;
      assert k * m == (k - 1) * m + m;
    }
    if k < 0 {
      assert (-k - 1) * m >= 0;
      assert k * m == -((-k - 1) * m) - m;
    }
  }

  lemma QuotientUnique(m: int, q: int, r: int, k: int, s: int)
    requires 0 <= r < m && 0 <= s < m && q * m + r == k * m + s
    ensures q == k && r == s
  {
    assert (q - k) * m == s - r;
    MultipleBounds(q - k, m);
  }
}
