/** schnorr.rs and value commitments, over any module over the field of scalars. The group, the hash and
    the encoding of points are parameters. */
module Curves {
  import opened Bytes
  import opened Field

  datatype Curve<!G> = Curve(zero: G, add: (G, G) -> G, neg: G -> G, scale: (G, Fp) -> G,
                             pointBytes: G -> seq<byte>, hashToScalar: (seq<byte>, seq<byte>) -> Fp)

  /** The group of points is a module over the scalars, and points are encoded in 32 bytes. */
  ghost predicate IsCurve<G(!new)>(c: Curve<G>) {
    && (forall p, q :: c.add(p, q) == c.add(q, p))
    && (forall p, q, r :: c.add(c.add(p, q), r) == c.add(p, c.add(q, r)))
    && (forall p :: c.add(p, c.zero) == p)
    && (forall p :: c.add(p, c.neg(p)) == c.zero)
    && (forall p, x: Fp, y: Fp :: c.scale(p, Add(x, y)) == c.add(c.scale(p, x), c.scale(p, y)))
    && (forall p, x: Fp, y: Fp :: c.scale(c.scale(p, x), y) == c.scale(p, Mul(x, y)))
    && (forall p :: c.scale(p, ONE) == p)
    && (forall p :: |c.pointBytes(p)| == 32)
  }

  /* ----- the laws, one at a time ----- */

  lemma Commutes<G(!new)>(c: Curve<G>, p: G, q: G)
    requires IsCurve(c)
    ensures c.add(p, q) == c.add(q, p)
  {}

  lemma Associates<G(!new)>(c: Curve<G>, p: G, q: G, r: G)
    requires IsCurve(c)
    ensures c.add(c.add(p, q), r) == c.add(p, c.add(q, r))
  {}

  lemma Neutral<G(!new)>(c: Curve<G>, p: G)
    requires IsCurve(c)
    ensures c.add(p, c.zero) == p && c.add(c.zero, p) == p && c.add(p, c.neg(p)) == c.zero
    ensures c.add(c.neg(p), p) == c.zero
  {}

  lemma Scales<G(!new)>(c: Curve<G>, p: G, x: Fp, y: Fp)
    requires IsCurve(c)
    ensures c.scale(p, Add(x, y)) == c.add(c.scale(p, x), c.scale(p, y))
    ensures c.scale(c.scale(p, x), y) == c.scale(p, Mul(x, y))
    ensures c.scale(p, ONE) == p
  {}

  lemma Cancel<G(!new)>(c: Curve<G>, p: G, q: G, r: G)
    requires IsCurve(c) && c.add(p, q) == c.add(p, r)
    ensures q == r
  {
    hide IsCurve;
    Associates(c, c.neg(p), p, q);
    Associates(c, c.neg(p), p, r);
    Neutral(c, p); Neutral(c, q); Neutral(c, r);
  }

  lemma Swap<G(!new)>(c: Curve<G>, p: G, q: G, r: G, s: G)
    requires IsCurve(c)
    ensures c.add(c.add(p, q), c.add(r, s)) == c.add(c.add(p, r), c.add(q, s))
  {
    hide IsCurve;
    Associates(c, p, q, c.add(r, s));
    Associates(c, q, r, s);
    Commutes(c, q, r);
    Associates(c, r, q, s);
    Associates(c, p, r, c.add(q, s));
  }

  lemma ScaleByZero<G(!new)>(c: Curve<G>, p: G)
    requires IsCurve(c)
    ensures c.scale(p, ZERO) == c.zero
  {
    hide IsCurve;
    Units(ZERO);
    Scales(c, p, ZERO, ZERO);
    Neutral(c, c.scale(p, ZERO));
    Cancel(c, c.scale(p, ZERO), c.scale(p, ZERO), c.zero);
  }

  lemma ScaleByNegative<G(!new)>(c: Curve<G>, p: G, x: Fp)
    requires IsCurve(c)
    ensures c.scale(p, Neg(x)) == c.neg(c.scale(p, x))
  {
    hide IsCurve, Residue, Add, Neg;
    Units(x);
    Scales(c, p, x, Neg(x));
    ScaleByZero(c, p);
    Neutral(c, c.scale(p, x));
    Cancel(c, c.scale(p, x), c.scale(p, Neg(x)), c.neg(c.scale(p, x)));
  }

  lemma NegativeOfSum<G(!new)>(c: Curve<G>, p: G, q: G)
    requires IsCurve(c)
    ensures c.neg(c.add(p, q)) == c.add(c.neg(p), c.neg(q))
  {
    hide IsCurve;
    Swap(c, p, q, c.neg(p), c.neg(q));
    Neutral(c, p); Neutral(c, q); Neutral(c, c.zero); Neutral(c, c.add(p, q));
    Cancel(c, c.add(p, q), c.neg(c.add(p, q)), c.add(c.neg(p), c.neg(q)));
  }

  /** A point that is not neutral is sent to the neutral point only by zero. */
  lemma ScaledToZero<G(!new)>(c: Curve<G>, p: G, x: Fp)
    requires IsCurve(c) && p != c.zero
    ensures c.scale(p, x) == c.zero <==> x == ZERO
  {
    hide IsCurve, Residue, Mul;
    ScaleByZero(c, p);
    if x != ZERO && c.scale(p, x) == c.zero {
      Scales(c, p, x, Inv(x));
      ZeroScaled(c, Inv(x));
    }
  }

  lemma ZeroScaled<G(!new)>(c: Curve<G>, x: Fp)
    requires IsCurve(c)
    ensures c.scale(c.zero, x) == c.zero
  {
    hide IsCurve, Residue, Mul;
    ScaleByZero(c, c.zero);
    Scales(c, c.zero, ZERO, x);
    Units(x);
  }

  /* ----- value commitments ----- */

  datatype Generators<!G> = Generators(value: G, randomness: G, spending: G)

  /** `compute_value_commit`, and the same expression in the proofs' revealed values. */
  function Commit<G>(c: Curve<G>, g: Generators<G>, value: Fp, blind: Fp): G {
    c.add(c.scale(g.value, value), c.scale(g.randomness, blind))
  }

  lemma CommitAdds<G(!new)>(c: Curve<G>, g: Generators<G>, v: Fp, b: Fp, w: Fp, d: Fp)
    requires IsCurve(c)
    ensures c.add(Commit(c, g, v, b), Commit(c, g, w, d)) == Commit(c, g, Add(v, w), Add(b, d))
  {
    hide IsCurve, Residue, Add;
    Swap(c, c.scale(g.value, v), c.scale(g.randomness, b), c.scale(g.value, w), c.scale(g.randomness, d));
    Scales(c, g.value, v, w);
    Scales(c, g.randomness, b, d);
  }

  lemma CommitNegates<G(!new)>(c: Curve<G>, g: Generators<G>, v: Fp, b: Fp)
    requires IsCurve(c)
    ensures c.neg(Commit(c, g, v, b)) == Commit(c, g, Neg(v), Neg(b))
  {
    hide IsCurve, Residue, Neg;
    NegativeOfSum(c, c.scale(g.value, v), c.scale(g.randomness, b));
    ScaleByNegative(c, g.value, v);
    ScaleByNegative(c, g.randomness, b);
  }

  /* ----- signatures ----- */

  datatype Signature<G> = Signature(commit: G, response: Fp)

  function PublicKey<G>(c: Curve<G>, g: Generators<G>, secret: Fp): G { c.scale(g.spending, secret) }

  /** The mask is random in the source. */
  function Sign<G>(c: Curve<G>, g: Generators<G>, secret: Fp, mask: Fp, message: seq<byte>): Signature<G> {
    var commit := c.scale(g.spending, mask);
    var challenge := c.hashToScalar(c.pointBytes(commit), message);
    Signature(commit, Add(mask, Mul(challenge, secret)))
  }

  predicate VerifySignature<G(==)>(c: Curve<G>, g: Generators<G>, public: G, message: seq<byte>, s: Signature<G>) {
    var challenge := c.hashToScalar(c.pointBytes(s.commit), message);
    c.add(c.scale(g.spending, s.response), c.neg(c.scale(public, challenge))) == s.commit
  }

  /** Every signature that the owner of the key makes is accepted, whatever the mask. */
  lemma {:induction false} SignedVerifies<G(!new)>(c: Curve<G>, g: Generators<G>, secret: Fp, mask: Fp,
                                                   message: seq<byte>)
    requires IsCurve(c)
    ensures VerifySignature(c, g, PublicKey(c, g, secret), message, Sign(c, g, secret, mask, message))
  {
    hide IsCurve, Residue, Add, Mul;
    var commit := c.scale(g.spending, mask);
    var challenge := c.hashToScalar(c.pointBytes(commit), message);
    var rest := c.scale(g.spending, Mul(challenge, secret));
    MulComm(challenge, secret);
    Scales(c, g.spending, secret, challenge);
    Scales(c, g.spending, mask, Mul(challenge, secret));
    Associates(c, commit, rest, c.neg(rest));
    Neutral(c, rest);
    Neutral(c, commit);
  }

  /** A signature is accepted only if its response is the discrete logarithm of its commitment plus the
      challenge times the key: for a given commitment and message there is no other response. */
  lemma {:induction false} ResponseUnique<G(!new)>(c: Curve<G>, g: Generators<G>, public: G, message: seq<byte>,
                                                   s: Signature<G>, t: Signature<G>)
    requires IsCurve(c) && g.spending != c.zero && s.commit == t.commit
    requires VerifySignature(c, g, public, message, s) && VerifySignature(c, g, public, message, t)
    ensures s.response == t.response
  {
    hide IsCurve, Residue, Add, Neg, Sub;
    var challenge := c.hashToScalar(c.pointBytes(s.commit), message);
    var k := c.neg(c.scale(public, challenge));
    Commutes(c, c.scale(g.spending, s.response), k);
    Commutes(c, c.scale(g.spending, t.response), k);
    Cancel(c, k, c.scale(g.spending, s.response), c.scale(g.spending, t.response));
    Scales(c, g.spending, s.response, Neg(t.response));
    ScaleByNegative(c, g.spending, t.response);
    Neutral(c, c.scale(g.spending, t.response));
    SubIsAddNeg(s.response, t.response);
    ScaledToZero(c, g.spending, Sub(s.response, t.response));
    SubZero(s.response, t.response);
  }
}
