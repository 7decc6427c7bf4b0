/** Little-endian binary numbers with digits in the field. */
module Bits {
  import opened Euclid
  import opened Field
  import opened Powers
  import C = Circuit
  import Vm

  predicate IsBit(b: Fp) { b == ZERO || b == ONE }

  predicate AllBits(bits: seq<Fp>) { forall i :: 0 <= i < |bits| ==> IsBit(bits[i]) }

  /** The sum of 2^i bits[i], as an integer. */
  function Number(bits: seq<Fp>): (r: nat)
    decreases |bits|
  {
    if bits == [] then 0
    else
      var n := |bits| - 1;
      assert Pow2(n) * bits[n] >= 0;
      Number(bits[..n]) + Pow2(n) * bits[n]
  }

  /** The bits stand for x in the field. */
  predicate Decomposes(bits: seq<Fp>, x: Fp) { AllBits(bits) && Residue(Number(bits)) == x }

  /* ----- numbers below a power of two have one representation ----- */

  lemma {:induction false} NumberBound(bits: seq<Fp>)
    requires AllBits(bits)
    ensures Number(bits) < Pow2(|bits|)
    decreases |bits|
  {
    if bits != [] {
      var n := |bits| - 1;
      NumberBound(bits[..n]);
      assert Pow2(n) * bits[n] <= Pow2(n);
    }
  }

  lemma {:induction false} NumberInjective(a: seq<Fp>, b: seq<Fp>)
    requires |a| == |b| && AllBits(a) && AllBits(b) && Number(a) == Number(b)
    ensures a == b
    decreases |a|
  {
    if a != [] {
      var n := |a| - 1;
      NumberBound(a[..n]);
      NumberBound(b[..n]);
      assert Pow2(n) * a[n] == if a[n] == ONE then Pow2(n) else 0;
      assert Pow2(n) * b[n] == if b[n] == ONE then Pow2(n) else 0;
      NumberInjective(a[..n], b[..n]);
      assert a == a[..n] + [a[n]] && b == b[..n] + [b[n]];
    }
  }

  /** The first n bits of v, as `UnpackBits` writes them. */
  function BitsOf(v: nat, n: nat): (r: seq<Fp>)
    ensures |r| == n && forall i :: 0 <= i < n ==> r[i] == Vm.BitOf(v, i)
  {
    seq(n, i requires i >= 0 => Vm.BitOf(v, i))
  }

  lemma {:induction false} BitIsDigit(v: nat, i: nat)
    ensures Vm.BitOf(v, i) == (if v / Pow2(i) % 2 == 1 then ONE else ZERO)
    decreases i
  {
    if i > 0 {
      BitIsDigit(v / 2, i - 1);
      HalfFirst(v, Pow2(i - 1));
    }
  }

  lemma HalfFirst(v: nat, p: nat)
    requires p > 0
    ensures v / 2 / p == v / (2 * p)
  {
    var q, r, s := v / 2 / p, v / 2 % p, v % 2;
    assert v / 2 == q * p + r;
    assert v == q * (2 * p) + (2 * r + s);
    QuotientUnique(2 * p, v / (2 * p), v % (2 * p), q, 2 * r + s);
  }

  lemma {:induction false} DigitsOf(v: nat, n: nat)
    ensures AllBits(BitsOf(v, n)) && Number(BitsOf(v, n)) == v % Pow2(n)
  {
    forall i | 0 <= i < n ensures IsBit(BitsOf(v, n)[i]) { BitIsDigit(v, i); }
    if n > 0 {
      DigitsOf(v, n - 1);
      BitIsDigit(v, n - 1);
      assert BitsOf(v, n)[..n - 1] == BitsOf(v, n - 1);
      NextDigit(v, Pow2(n - 1));
    }
  }

  lemma NextDigit(v: nat, p: nat)
    requires p > 0
    ensures v % (2 * p) == v % p + p * (if v / p % 2 == 1 then 1 else 0)
  {
    var d, q, r := v / p % 2, v / p / 2, v % p;
    assert v / p == 2 * q + d;
    assert v == p * (2 * q + d) + r;
    assert p * (2 * q + d) == q * (2 * p) + p * d;
    assert d == 0 ==> p * d == 0;
    assert d == 1 ==> p * d == p;
    QuotientUnique(2 * p, v / (2 * p), v % (2 * p), q, p * d + r);
  }

  /* ----- decompositions in the field ----- */

  /** The bits that the machine unpacks stand for x exactly when x fits. */
  lemma UnpackedDecomposes(x: Fp, n: nat)
    ensures Decomposes(BitsOf(x, n), x) <==> x < Pow2(n)
  {
    DigitsOf(x, n);
    var m := x % Pow2(n);
    SmallModulo(x, Pow2(n));
    ResidueId(m);
  }

  lemma SmallModulo(x: nat, p: nat)
    requires p > 0
    ensures 0 <= x % p <= x && (x % p == x <==> x < p)
  {}

  ghost predicate UniqueDecompositions(n: nat) {
    forall a, b, x :: |a| == n && |b| == n && Decomposes(a, x) && Decomposes(b, x) ==> a == b
  }

  /** Every element has at most one decomposition into n bits exactly when 2^n is at most the modulus. */
  lemma UniqueIffFits(n: nat)
    ensures UniqueDecompositions(n) <==> Pow2(n) <= MODULUS
  {
    hide Decomposes, Residue;
    if Pow2(n) <= MODULUS {
      forall a, b, x | |a| == n && |b| == n && Decomposes(a, x) && Decomposes(b, x) ensures a == b {
        UniqueWhenFits(a, b, x);
      }
    } else {
      ZeroTwice(n);
    }
  }

  /** The bits of the modulus stand for zero, like no bits at all. */
  lemma ZeroTwice(n: nat)
    requires MODULUS < Pow2(n)
    ensures Decomposes(BitsOf(0, n), ZERO) && Decomposes(BitsOf(MODULUS, n), ZERO) && BitsOf(0, n) != BitsOf(MODULUS, n)
  {
    hide Residue, BitsOf, Pow2, Number, AllBits;
    DigitsOf(0, n);
    DigitsOf(MODULUS, n);
    SmallModulo(0, Pow2(n));
    SmallModulo(MODULUS, Pow2(n));
    ResidueUnique(0, 0, ZERO);
    ResidueUnique(MODULUS, 1, ZERO);
  }

  lemma {:induction false} UniqueWhenFits(a: seq<Fp>, b: seq<Fp>, x: Fp)
    requires |a| == |b| && Pow2(|a|) <= MODULUS && Decomposes(a, x) && Decomposes(b, x)
    ensures a == b
  {
    NumberBound(a);
    NumberBound(b);
    ResidueUnique(Number(a), 0, Number(a));
    ResidueUnique(Number(b), 0, Number(b));
    NumberInjective(a, b);
  }

  /* ----- the sum that the constraints build ----- */

  /** The sum of the bits, each weighted by its doublings. */
  function WeightedSum(bits: seq<Fp>): Fp
    decreases |bits|
  {
    if bits == [] then ZERO
    else Add(WeightedSum(bits[..|bits| - 1]), Mul(C.Weight(|bits| - 1), bits[|bits| - 1]))
  }

  lemma {:induction false} WeightIsPower(n: nat)
    ensures C.Weight(n) == Residue(Pow2(n))
  {
    if n == 0 {
      ResidueId(ONE);
    } else {
      WeightIsPower(n - 1);
      ResidueAdd(Pow2(n - 1), Pow2(n - 1));
    }
  }

  lemma {:induction false} WeightedSumIsNumber(bits: seq<Fp>)
    ensures WeightedSum(bits) == Residue(Number(bits))
    decreases |bits|
  {
    hide Residue, Add, Mul;
    if bits == [] {
      ResidueId(ZERO);
    } else {
      var n := |bits| - 1;
      WeightedSumIsNumber(bits[..n]);
      WeightIsPower(n);
      ResidueId(bits[n]);
      ResidueMul(Pow2(n), bits[n]);
      ResidueAdd(Number(bits[..n]), Pow2(n) * bits[n]);
    }
  }

  /** (1 - b) b = 0 says that b is a bit. */
  lemma BitEquation(b: Fp)
    ensures Mul(Add(ONE, Neg(b)), b) == ZERO <==> IsBit(b)
  {
    hide Residue, Add, Mul, Neg, Sub;
    Units(b);
    Units(ONE);
    SubIsAddNeg(ONE, b);
    SubZero(ONE, b);
    Units(Add(ONE, Neg(b)));
    if Mul(Add(ONE, Neg(b)), b) == ZERO { NoZeroDivisors(Add(ONE, Neg(b)), b); }
  }
}
