/** tx.rs: building a transaction and verifying it. Proofs, notes and hashes are bytes that come from
    abstract functions; random scalars are inputs. */
module Transactions {
  import opened Bytes
  import opened Endian
  import opened Serial
  import opened Field
  import opened Curves

  /* ----- transactions ----- */

  datatype PartialClear<G> = PartialClear(value: nat, valcomBlind: Fp, signaturePublic: G)
  datatype ClearInput<G> = ClearInput(value: nat, valcomBlind: Fp, signaturePublic: G, signature: Signature<G>)
  datatype SpendRevealed<G> = SpendRevealed(valueCommit: G, nullifier: seq<byte>, merkleRoot: seq<byte>,
                                            signaturePublic: G)
  datatype PartialInput<G> = PartialInput(spendProof: seq<byte>, revealed: SpendRevealed<G>)
  datatype Input<G> = Input(spendProof: seq<byte>, revealed: SpendRevealed<G>, signature: Signature<G>)
  datatype MintRevealed<G> = MintRevealed(valueCommit: G, coin: seq<byte>)
  datatype Output<G> = Output(mintProof: seq<byte>, revealed: MintRevealed<G>, encNote: seq<byte>)

  datatype PartialTx<G> = PartialTx(clearInputs: seq<PartialClear<G>>, inputs: seq<PartialInput<G>>,
                                    outputs: seq<Output<G>>)
  datatype Transaction<G> = Transaction(clearInputs: seq<ClearInput<G>>, inputs: seq<Input<G>>, outputs: seq<Output<G>>)

  /** The parts that are library code: the group, its generators, and the proof system. */
  datatype System<!G> = System(c: Curve<G>, g: Generators<G>,
                               spendOk: (seq<byte>, SpendRevealed<G>) -> bool,
                               mintOk: (seq<byte>, MintRevealed<G>) -> bool)

  /* ----- encodings ----- */

  function PartialClearBytes<G>(c: Curve<G>, x: PartialClear<G>): seq<byte> {
    LeBytes(x.value, 8) + LeBytes(x.valcomBlind, 32) + c.pointBytes(x.signaturePublic)
  }

  function SpendBytes<G>(c: Curve<G>, proof: seq<byte>, r: SpendRevealed<G>): seq<byte> {
    proof + (c.pointBytes(r.valueCommit) + r.nullifier + r.merkleRoot + c.pointBytes(r.signaturePublic))
  }

  function OutputBytes<G>(c: Curve<G>, x: Output<G>): seq<byte> {
    x.mintProof + (c.pointBytes(x.revealed.valueCommit) + x.revealed.coin) + x.encNote
  }

  /** What is signed: the bytes of the partial transaction. */
  function PartialTxBytes<G>(c: Curve<G>, t: PartialTx<G>): seq<byte> {
    VecBytes((x: PartialClear<G>) => PartialClearBytes(c, x), t.clearInputs)
    + VecBytes((x: PartialInput<G>) => SpendBytes(c, x.spendProof, x.revealed), t.inputs)
    + VecBytes((x: Output<G>) => OutputBytes(c, x), t.outputs)
  }

  function ClearUnsignedBytes<G>(c: Curve<G>, x: ClearInput<G>): seq<byte> {
    LeBytes(x.value, 8) + LeBytes(x.valcomBlind, 32) + c.pointBytes(x.signaturePublic)
  }

  /** What the verifier takes to have been signed: `encode_without_signature` of the whole transaction. */
  function UnsignedBytes<G>(c: Curve<G>, t: Transaction<G>): seq<byte> {
    VecBytes((x: ClearInput<G>) => ClearUnsignedBytes(c, x), t.clearInputs)
    + VecBytes((x: Input<G>) => SpendBytes(c, x.spendProof, x.revealed), t.inputs)
    + VecBytes((x: Output<G>) => OutputBytes(c, x), t.outputs)
  }

  /** The transaction is the partial one with signatures added. */
  ghost predicate Signed<G>(t: Transaction<G>, p: PartialTx<G>) {
    && |t.clearInputs| == |p.clearInputs| && |t.inputs| == |p.inputs| && t.outputs == p.outputs
    && (forall i :: 0 <= i < |t.clearInputs| ==>
          var (x, y) := (t.clearInputs[i], p.clearInputs[i]);
            PartialClear(x.value, x.valcomBlind, x.signaturePublic) == y)
    && (forall i :: 0 <= i < |t.inputs| ==> var (x, y) := (t.inputs[i], p.inputs[i]);
        PartialInput(x.spendProof, x.revealed) == y)
  }

  lemma {:induction false} JoinedAgree<A, B>(e: A -> seq<byte>, f: B -> seq<byte>, xs: seq<A>, ys: seq<B>)
    requires |xs| == |ys| && forall i :: 0 <= i < |xs| ==> e(xs[i]) == f(ys[i])
    ensures Joined(e, xs) == Joined(f, ys) && VecBytes(e, xs) == VecBytes(f, ys)
  {
    if xs != [] {
      assert e(xs[0]) == f(ys[0]);
      assert forall i :: 0 <= i < |xs| - 1 ==> xs[1..][i] == xs[i + 1] && ys[1..][i] == ys[i + 1];
      JoinedAgree(e, f, xs[1..], ys[1..]);
    }
  }

  /** The verifier rebuilds, with other encoders, exactly the bytes that were signed. */
  lemma UnsignedIsPartial<G>(c: Curve<G>, t: Transaction<G>, p: PartialTx<G>)
    requires Signed(t, p)
    ensures UnsignedBytes(c, t) == PartialTxBytes(c, p)
  {
    hide VecBytes, LeBytes, Joined;
    JoinedAgree((x: ClearInput<G>) => ClearUnsignedBytes(c, x), (x: PartialClear<G>) => PartialClearBytes(c, x),
                t.clearInputs, p.clearInputs);
    JoinedAgree((x: Input<G>) => SpendBytes(c, x.spendProof, x.revealed),
                (x: PartialInput<G>) => SpendBytes(c, x.spendProof, x.revealed),
                t.inputs, p.inputs);
  }

  /* ----- sums ----- */

  function Sum(xs: seq<Fp>): Fp { if xs == [] then ZERO else Add(Sum(xs[..|xs| - 1]), xs[|xs| - 1]) }

  function PointSum<G>(c: Curve<G>, ps: seq<G>): G {
    if ps == [] then c.zero else c.add(PointSum(c, ps[..|ps| - 1]), ps[|ps| - 1])
  }

  /** What a commitment commits to. */
  datatype Opening = Opening(value: Fp, blind: Fp)

  function ValuesOf(os: seq<Opening>): (r: seq<Fp>)
    ensures |r| == |os|
  {
    seq(|os|, i requires 0 <= i < |os| => os[i].value)
  }

  function BlindsOf(os: seq<Opening>): (r: seq<Fp>)
    ensures |r| == |os|
  {
    seq(|os|, i requires 0 <= i < |os| => os[i].blind)
  }

  /** These are commitments with these openings. */
  ghost predicate Opens<G>(s: System<G>, ps: seq<G>, os: seq<Opening>) {
    |ps| == |os| && forall i :: 0 <= i < |ps| ==> ps[i] == Commit(s.c, s.g, os[i].value, os[i].blind)
  }

  lemma {:induction false} SumOfCommits<G(!new)>(s: System<G>, ps: seq<G>, os: seq<Opening>)
    requires IsCurve(s.c) && Opens(s, ps, os)
    ensures PointSum(s.c, ps) == Commit(s.c, s.g, Sum(ValuesOf(os)), Sum(BlindsOf(os)))
    decreases |ps|
  {
    hide IsCurve, Residue, Add;
    if ps == [] {
      ScaleByZero(s.c, s.g.value);
      ScaleByZero(s.c, s.g.randomness);
      Neutral(s.c, s.c.zero);
    } else {
      var n := |ps| - 1;
      SumOfCommits(s, ps[..n], os[..n]);
      assert ValuesOf(os)[..n] == ValuesOf(os[..n]) && BlindsOf(os)[..n] == BlindsOf(os[..n]);
      CommitAdds(s.c, s.g, Sum(ValuesOf(os[..n])), Sum(BlindsOf(os[..n])), os[n].value, os[n].blind);
    }
  }

  /* ----- verification ----- */

  function ClearCommits<G>(s: System<G>, t: Transaction<G>): (r: seq<G>)
    ensures |r| == |t.clearInputs|
  {
    seq(|t.clearInputs|, i requires 0 <= i < |t.clearInputs| =>
      Commit(s.c, s.g, Residue(t.clearInputs[i].value), t.clearInputs[i].valcomBlind))
  }

  function InputCommits<G>(t: Transaction<G>): (r: seq<G>)
    ensures |r| == |t.inputs|
  {
    seq(|t.inputs|, i requires 0 <= i < |t.inputs| => t.inputs[i].revealed.valueCommit)
  }

  function OutputCommits<G>(t: Transaction<G>): (r: seq<G>)
    ensures |r| == |t.outputs|
  {
    seq(|t.outputs|, i requires 0 <= i < |t.outputs| => t.outputs[i].revealed.valueCommit)
  }

  /** All commitments going in, less all going out. */
  function Balance<G>(s: System<G>, t: Transaction<G>): G {
    s.c.add(s.c.add(PointSum(s.c, ClearCommits(s, t)), PointSum(s.c, InputCommits(t))),
            s.c.neg(PointSum(s.c, OutputCommits(t))))
  }

  predicate ProofsOk<G>(s: System<G>, t: Transaction<G>) {
    && (forall i :: 0 <= i < |t.inputs| ==> s.spendOk(t.inputs[i].spendProof, t.inputs[i].revealed))
    && (forall i :: 0 <= i < |t.outputs| ==> s.mintOk(t.outputs[i].mintProof, t.outputs[i].revealed))
  }

  predicate SignaturesOk<G(==)>(s: System<G>, t: Transaction<G>) {
    && (forall i :: 0 <= i < |t.clearInputs| ==>
          VerifySignature(s.c, s.g, t.clearInputs[i].signaturePublic, UnsignedBytes(s.c, t),
                          t.clearInputs[i].signature))
    && (forall i :: 0 <= i < |t.inputs| ==>
          VerifySignature(s.c, s.g, t.inputs[i].revealed.signaturePublic, UnsignedBytes(s.c, t), t.inputs[i].signature))
  }

  predicate Accepted<G(==)>(s: System<G>, t: Transaction<G>) {
    ProofsOk(s, t) && SignaturesOk(s, t) && Balance(s, t) == s.c.zero
  }

  /* ----- conservation ----- */

  /** The balance commits to the difference of the sums, of values as of blinds. */
  lemma {:induction false} BalanceOpens<G(!new)>(s: System<G>, t: Transaction<G>, clear: seq<Opening>,
                                                 ins: seq<Opening>, outs: seq<Opening>)
    requires IsCurve(s.c) && Opens(s, ClearCommits(s, t), clear) && Opens(s, InputCommits(t), ins)
    requires Opens(s, OutputCommits(t), outs)
    ensures Balance(s, t) == Commit(s.c, s.g,
              Sub(Add(Sum(ValuesOf(clear)), Sum(ValuesOf(ins))), Sum(ValuesOf(outs))),
              Sub(Add(Sum(BlindsOf(clear)), Sum(BlindsOf(ins))), Sum(BlindsOf(outs))))
  {
    hide IsCurve, Residue, Add, Sub, Neg, ClearCommits, InputCommits, OutputCommits, Sum, PointSum, Opens, ValuesOf,
         BlindsOf;
    SumOfCommits(s, ClearCommits(s, t), clear);
    SumOfCommits(s, InputCommits(t), ins);
    SumOfCommits(s, OutputCommits(t), outs);
    var v, b := Add(Sum(ValuesOf(clear)), Sum(ValuesOf(ins))), Add(Sum(BlindsOf(clear)), Sum(BlindsOf(ins)));
    CommitAdds(s.c, s.g, Sum(ValuesOf(clear)), Sum(BlindsOf(clear)), Sum(ValuesOf(ins)), Sum(BlindsOf(ins)));
    CommitNegates(s.c, s.g, Sum(ValuesOf(outs)), Sum(BlindsOf(outs)));
    CommitAdds(s.c, s.g, v, b, Neg(Sum(ValuesOf(outs))), Neg(Sum(BlindsOf(outs))));
    SubIsAddNeg(v, Sum(ValuesOf(outs)));
    SubIsAddNeg(b, Sum(BlindsOf(outs)));
  }

  /** An accepted transaction conserves value, or its openings give the value generator as a known
      multiple of the randomness generator. */
  lemma {:induction false} AcceptedConservesOrRelates<G(!new)>(s: System<G>, t: Transaction<G>, clear: seq<Opening>,
                                                               ins: seq<Opening>, outs: seq<Opening>)
    requires IsCurve(s.c) && Opens(s, ClearCommits(s, t), clear) && Opens(s, InputCommits(t), ins)
    requires Opens(s, OutputCommits(t), outs)
    requires Accepted(s, t)
    ensures var v := Sub(Add(Sum(ValuesOf(clear)), Sum(ValuesOf(ins))), Sum(ValuesOf(outs)));
            var b := Sub(Add(Sum(BlindsOf(clear)), Sum(BlindsOf(ins))), Sum(BlindsOf(outs)));
            v == ZERO || s.g.value == s.c.scale(s.g.randomness, Neg(Mul(b, Inv(v))))
  {
    hide IsCurve, Residue, Add, Sub, Neg, ClearCommits, InputCommits, OutputCommits, Sum, PointSum, Opens, ValuesOf,
         BlindsOf, ProofsOk, SignaturesOk, Balance, Mul, Inv;
    BalanceOpens(s, t, clear, ins, outs);
    var v := Sub(Add(Sum(ValuesOf(clear)), Sum(ValuesOf(ins))), Sum(ValuesOf(outs)));
    var b := Sub(Add(Sum(BlindsOf(clear)), Sum(BlindsOf(ins))), Sum(BlindsOf(outs)));
    if v != ZERO { Relates(s.c, s.g, v, b); }
  }

  lemma Relates<G(!new)>(c: Curve<G>, g: Generators<G>, v: Fp, b: Fp)
    requires IsCurve(c) && v != ZERO && Commit(c, g, v, b) == c.zero
    ensures g.value == c.scale(g.randomness, Neg(Mul(b, Inv(v))))
  {
    hide IsCurve, Residue, Neg, Mul, Inv;
    var p, q := c.scale(g.value, v), c.scale(g.randomness, b);
    Neutral(c, q);
    Commutes(c, p, q);
    Cancel(c, q, p, c.neg(q));
    ScaleByNegative(c, g.randomness, b);
    Scales(c, g.value, v, Inv(v));
    Scales(c, g.value, ONE, ONE);
    Scales(c, g.randomness, Neg(b), Inv(v));
    NegMul(b, Inv(v));
  }

  /** The generators satisfy no relation but the trivial one. */
  ghost predicate Independent<G>(s: System<G>) {
    forall v, b :: Commit(s.c, s.g, v, b) == s.c.zero ==> v == ZERO && b == ZERO
  }

  /** With independent generators, acceptance forces the sums to be equal in the field of scalars. */
  lemma {:induction false} AcceptedConserves<G(!new)>(s: System<G>, t: Transaction<G>, clear: seq<Opening>,
                                                      ins: seq<Opening>, outs: seq<Opening>)
    requires IsCurve(s.c) && Opens(s, ClearCommits(s, t), clear) && Opens(s, InputCommits(t), ins)
    requires Opens(s, OutputCommits(t), outs)
    requires Accepted(s, t) && Independent(s)
    ensures Add(Sum(ValuesOf(clear)), Sum(ValuesOf(ins))) == Sum(ValuesOf(outs))
    ensures Add(Sum(BlindsOf(clear)), Sum(BlindsOf(ins))) == Sum(BlindsOf(outs))
  {
    hide IsCurve, Residue, Add, Sub, Neg, ClearCommits, InputCommits, OutputCommits, Sum, PointSum, Opens, ValuesOf,
         BlindsOf, ProofsOk, SignaturesOk, Balance, Commit;
    BalanceOpens(s, t, clear, ins, outs);
    SubZero(Add(Sum(ValuesOf(clear)), Sum(ValuesOf(ins))), Sum(ValuesOf(outs)));
    SubZero(Add(Sum(BlindsOf(clear)), Sum(BlindsOf(ins))), Sum(BlindsOf(outs)));
  }
}
