/** tx.rs: the encoders of what is signed, which write step by step and count what they write, and the
    verifier. */
module TransactionVerifier {
  import opened Wrappers
  import opened Bytes
  import opened Endian
  import opened Serial
  import opened Field
  import opened Curves
  import opened Transactions

  /* ----- encoders ----- */

  /** Vectors that fit their length, and points of 32 bytes. */
  ghost predicate Encodable<G(!new)>(c: Curve<G>, t: Transaction<G>) {
    |t.clearInputs| < U64 && |t.inputs| < U64 && |t.outputs| < U64 && forall p :: |c.pointBytes(p)| == 32
  }

  method EncodeClear<G(!new)>(c: Curve<G>, w: Writer, x: ClearInput<G>) returns (len: nat)
    requires forall p :: |c.pointBytes(p)| == 32
    modifies w
    ensures w.output == old(w.output) + ClearUnsignedBytes(c, x) && len == |ClearUnsignedBytes(c, x)|
  {
    hide LeBytes;
    w.WriteLe(x.value, 8);
    w.WriteLe(x.valcomBlind, 32);
    w.WriteSlice(c.pointBytes(x.signaturePublic));
    len := 8 + 32 + 32;
  }

  method EncodeSpend<G(!new)>(c: Curve<G>, w: Writer, proof: seq<byte>, r: SpendRevealed<G>) returns (len: nat)
    requires forall p :: |c.pointBytes(p)| == 32
    modifies w
    ensures w.output == old(w.output) + SpendBytes(c, proof, r) && len == |SpendBytes(c, proof, r)|
  {
    w.WriteSlice(proof);
    w.WriteSlice(c.pointBytes(r.valueCommit));
    w.WriteSlice(r.nullifier);
    w.WriteSlice(r.merkleRoot);
    w.WriteSlice(c.pointBytes(r.signaturePublic));
    len := |proof| + 32 + |r.nullifier| + |r.merkleRoot| + 32;
  }

  method EncodeOutput<G(!new)>(c: Curve<G>, w: Writer, x: Output<G>) returns (len: nat)
    requires forall p :: |c.pointBytes(p)| == 32
    modifies w
    ensures w.output == old(w.output) + OutputBytes(c, x) && len == |OutputBytes(c, x)|
  {
    w.WriteSlice(x.mintProof);
    w.WriteSlice(c.pointBytes(x.revealed.valueCommit));
    w.WriteSlice(x.revealed.coin);
    w.WriteSlice(x.encNote);
    len := |x.mintProof| + 32 + |x.revealed.coin| + |x.encNote|;
  }

  /* The length of a vector, then its elements. */

  method EncodeClears<G(!new)>(c: Curve<G>, w: Writer, xs: seq<ClearInput<G>>) returns (len: nat)
    requires |xs| < U64 && forall p :: |c.pointBytes(p)| == 32
    modifies w
    ensures var bytes := VecBytes((x: ClearInput<G>) => ClearUnsignedBytes(c, x), xs);
      w.output == old(w.output) + bytes && len == |bytes|
  {
    hide VarIntBytes, ClearUnsignedBytes, SpendBytes, OutputBytes;
    ghost var e := (x: ClearInput<G>) => ClearUnsignedBytes(c, x);
    len := w.EncodeVarInt(|xs|);
    ghost var start, count := w.output, len;
    for i := 0 to |xs|
      invariant w.output == start + Joined(e, xs[..i]) && len == count + |Joined(e, xs[..i])|
    {
      JoinedGrows(e, xs[..i], xs[i]);
      assert xs[..i + 1] == xs[..i] + [xs[i]];
      var more := EncodeClear(c, w, xs[i]);
      len := len + more;
    }
    assert xs[..|xs|] == xs;
  }

  method EncodeInputs<G(!new)>(c: Curve<G>, w: Writer, xs: seq<Input<G>>) returns (len: nat)
    requires |xs| < U64 && forall p :: |c.pointBytes(p)| == 32
    modifies w
    ensures var bytes := VecBytes((x: Input<G>) => SpendBytes(c, x.spendProof, x.revealed), xs);
      w.output == old(w.output) + bytes && len == |bytes|
  {
    hide VarIntBytes, ClearUnsignedBytes, SpendBytes, OutputBytes;
    ghost var e := (x: Input<G>) => SpendBytes(c, x.spendProof, x.revealed);
    len := w.EncodeVarInt(|xs|);
    ghost var start, count := w.output, len;
    for i := 0 to |xs|
      invariant w.output == start + Joined(e, xs[..i]) && len == count + |Joined(e, xs[..i])|
    {
      JoinedGrows(e, xs[..i], xs[i]);
      assert xs[..i + 1] == xs[..i] + [xs[i]];
      var more := EncodeSpend(c, w, xs[i].spendProof, xs[i].revealed);
      len := len + more;
    }
    assert xs[..|xs|] == xs;
  }

  method EncodeOutputs<G(!new)>(c: Curve<G>, w: Writer, xs: seq<Output<G>>) returns (len: nat)
    requires |xs| < U64 && forall p :: |c.pointBytes(p)| == 32
    modifies w
    ensures var bytes := VecBytes((x: Output<G>) => OutputBytes(c, x), xs);
      w.output == old(w.output) + bytes && len == |bytes|
  {
    hide VarIntBytes, ClearUnsignedBytes, SpendBytes, OutputBytes;
    ghost var e := (x: Output<G>) => OutputBytes(c, x);
    len := w.EncodeVarInt(|xs|);
    ghost var start, count := w.output, len;
    for i := 0 to |xs|
      invariant w.output == start + Joined(e, xs[..i]) && len == count + |Joined(e, xs[..i])|
    {
      JoinedGrows(e, xs[..i], xs[i]);
      assert xs[..i + 1] == xs[..i] + [xs[i]];
      var more := EncodeOutput(c, w, xs[i]);
      len := len + more;
    }
    assert xs[..|xs|] == xs;
  }

  /** Everything but the signatures; the result counts all bytes. */
  method EncodeWithoutSignature<G(!new)>(c: Curve<G>, w: Writer, t: Transaction<G>) returns (len: nat)
    requires Encodable(c, t)
    modifies w
    ensures w.output == old(w.output) + UnsignedBytes(c, t) && len == |UnsignedBytes(c, t)|
  {
    hide VecBytes;
    len := EncodeClears(c, w, t.clearInputs);
    var inputs := EncodeInputs(c, w, t.inputs);
    var outputs := EncodeOutputs(c, w, t.outputs);
    len := len + inputs + outputs;
  }

  /* ----- verification ----- */

  lemma {:induction false} PointSumGrows<G(!new)>(c: Curve<G>, before: G, ps: seq<G>, i: nat)
    requires IsCurve(c) && i < |ps|
    ensures c.add(c.add(before, PointSum(c, ps[..i])), ps[i]) == c.add(before, PointSum(c, ps[..i + 1]))
  {
    hide IsCurve;
    assert ps[..i + 1][..i] == ps[..i];
    Associates(c, before, PointSum(c, ps[..i]), ps[i]);
  }

  lemma {:induction false} PointSumShrinks<G(!new)>(c: Curve<G>, before: G, ps: seq<G>, i: nat)
    requires IsCurve(c) && i < |ps|
    ensures c.add(c.add(before, c.neg(PointSum(c, ps[..i]))), c.neg(ps[i]))
         == c.add(before, c.neg(PointSum(c, ps[..i + 1])))
  {
    hide IsCurve;
    assert ps[..i + 1][..i] == ps[..i];
    Associates(c, before, c.neg(PointSum(c, ps[..i])), c.neg(ps[i]));
    NegativeOfSum(c, PointSum(c, ps[..i]), ps[i]);
  }

  lemma {:induction false} NothingSummed<G(!new)>(c: Curve<G>, before: G, ps: seq<G>)
    requires IsCurve(c)
    ensures c.add(before, PointSum(c, ps[..0])) == before && c.add(before, c.neg(PointSum(c, ps[..0]))) == before
    ensures c.add(c.zero, before) == before && ps[..|ps|] == ps
  {
    hide IsCurve;
    Neutral(c, before);
    Neutral(c, c.zero);
    Neutral(c, c.neg(c.zero));
  }

  lemma BalanceInParts<G>(s: System<G>, t: Transaction<G>, before: G, total: G)
    requires before == s.c.add(PointSum(s.c, ClearCommits(s, t)), PointSum(s.c, InputCommits(t)))
    requires total == s.c.add(before, s.c.neg(PointSum(s.c, OutputCommits(t))))
    ensures total == Balance(s, t)
  {
    hide PointSum, ClearCommits, InputCommits, OutputCommits;
  }

  /** The first half of verification: all commitments, unless a proof fails. */
  method CheckProofs<G(==, !new)>(s: System<G>, t: Transaction<G>) returns (r: Option<G>)
    requires IsCurve(s.c)
    ensures r == if ProofsOk(s, t) then Some(Balance(s, t)) else None
  {
    hide IsCurve, Commit, PointSum, Residue, Balance;
    var total := s.c.zero;
    ghost var clears, ins, outs := ClearCommits(s, t), InputCommits(t), OutputCommits(t);
    NothingSummed(s.c, total, clears);
    for i := 0 to |t.clearInputs|
      invariant total == s.c.add(s.c.zero, PointSum(s.c, clears[..i]))
    {
      PointSumGrows(s.c, s.c.zero, clears, i);
      total := s.c.add(total, Commit(s.c, s.g, Residue(t.clearInputs[i].value), t.clearInputs[i].valcomBlind));
    }
    NothingSummed(s.c, PointSum(s.c, clears), clears);
    assert total == PointSum(s.c, clears);
    NothingSummed(s.c, total, ins);
    for i := 0 to |t.inputs|
      invariant total == s.c.add(PointSum(s.c, clears), PointSum(s.c, ins[..i]))
      invariant forall k :: 0 <= k < i ==> s.spendOk(t.inputs[k].spendProof, t.inputs[k].revealed)
    {
      if !s.spendOk(t.inputs[i].spendProof, t.inputs[i].revealed) {
        return None;
      }
      PointSumGrows(s.c, PointSum(s.c, clears), ins, i);
      total := s.c.add(total, t.inputs[i].revealed.valueCommit);
    }
    ghost var before := s.c.add(PointSum(s.c, clears), PointSum(s.c, ins));
    NothingSummed(s.c, before, ins);
    NothingSummed(s.c, before, outs);
    for i := 0 to |t.outputs|
      invariant total == s.c.add(before, s.c.neg(PointSum(s.c, outs[..i])))
      invariant forall k :: 0 <= k < i ==> s.mintOk(t.outputs[k].mintProof, t.outputs[k].revealed)
    {
      if !s.mintOk(t.outputs[i].mintProof, t.outputs[i].revealed) {
        return None;
      }
      PointSumShrinks(s.c, before, outs, i);
      total := s.c.add(total, s.c.neg(t.outputs[i].revealed.valueCommit));
    }
    assert outs[..|outs|] == outs;
    BalanceInParts(s, t, before, total);
    r := Some(total);
  }

  /** The equation of a signature by this key. */
  predicate IsSignature<G(==)>(s: System<G>, public: G, message: seq<byte>, x: Signature<G>) {
    s.c.add(s.c.scale(s.g.spending, x.response),
            s.c.neg(s.c.scale(public, s.c.hashToScalar(s.c.pointBytes(x.commit), message))))
    == x.commit
  }

  /** What a valid transaction is: proofs of all anonymous inputs and all outputs, signatures of all inputs of
      either kind on its own bytes, and commitments of the same sum going in and out. */
  ghost predicate IsValid<G>(s: System<G>, t: Transaction<G>) {
    var message := UnsignedBytes(s.c, t);
    && (forall x :: x in t.inputs ==>
          s.spendOk(x.spendProof, x.revealed) && IsSignature(s, x.revealed.signaturePublic, message, x.signature))
    && (forall x :: x in t.outputs ==> s.mintOk(x.mintProof, x.revealed))
    && (forall x :: x in t.clearInputs ==> IsSignature(s, x.signaturePublic, message, x.signature))
    && var clear := seq(|t.clearInputs|, i requires 0 <= i < |t.clearInputs| =>
         var x := t.clearInputs[i];
         s.c.add(s.c.scale(s.g.value, Residue(x.value)), s.c.scale(s.g.randomness, x.valcomBlind)));
       var ins := seq(|t.inputs|, i requires 0 <= i < |t.inputs| => t.inputs[i].revealed.valueCommit);
       var outs := seq(|t.outputs|, i requires 0 <= i < |t.outputs| => t.outputs[i].revealed.valueCommit);
       s.c.add(PointSum(s.c, clear), PointSum(s.c, ins)) == PointSum(s.c, outs)
  }

  /** A difference is neutral exactly between equal points. */
  lemma DifferenceNeutral<G(!new)>(c: Curve<G>, p: G, q: G)
    requires IsCurve(c)
    ensures c.add(p, c.neg(q)) == c.zero <==> p == q
  {
    hide IsCurve;
    Neutral(c, q);
    Commutes(c, p, c.neg(q));
    Commutes(c, q, c.neg(q));
    if c.add(p, c.neg(q)) == c.zero { Cancel(c, c.neg(q), p, q); }
  }

  lemma AcceptedIffValid<G(!new)>(s: System<G>, t: Transaction<G>)
    requires IsCurve(s.c)
    ensures Accepted(s, t) <==> IsValid(s, t)
  {
    hide IsCurve, Residue, PointSum, UnsignedBytes;
    var clear := seq(|t.clearInputs|, i requires 0 <= i < |t.clearInputs| =>
      var x := t.clearInputs[i];
      s.c.add(s.c.scale(s.g.value, Residue(x.value)), s.c.scale(s.g.randomness, x.valcomBlind)));
    assert clear == ClearCommits(s, t);
    var ins := PointSum(s.c, InputCommits(t));
    DifferenceNeutral(s.c, s.c.add(PointSum(s.c, clear), ins), PointSum(s.c, OutputCommits(t)));
    if Accepted(s, t) {
      forall x | x in t.inputs
        ensures s.spendOk(x.spendProof, x.revealed)
        ensures IsSignature(s, x.revealed.signaturePublic, UnsignedBytes(s.c, t), x.signature)
      {
        var i :| 0 <= i < |t.inputs| && t.inputs[i] == x;
      }
      forall x | x in t.clearInputs ensures IsSignature(s, x.signaturePublic, UnsignedBytes(s.c, t), x.signature) {
        var i :| 0 <= i < |t.clearInputs| && t.clearInputs[i] == x;
      }
    }
    if IsValid(s, t) {
      forall i | 0 <= i < |t.inputs|
        ensures s.spendOk(t.inputs[i].spendProof, t.inputs[i].revealed)
        ensures IsSignature(s, t.inputs[i].revealed.signaturePublic, UnsignedBytes(s.c, t), t.inputs[i].signature)
      {
        assert t.inputs[i] in t.inputs;
      }
      forall i | 0 <= i < |t.clearInputs|
        ensures IsSignature(s, t.clearInputs[i].signaturePublic, UnsignedBytes(s.c, t), t.clearInputs[i].signature)
      {
        assert t.clearInputs[i] in t.clearInputs;
      }
      forall i | 0 <= i < |t.outputs| ensures s.mintOk(t.outputs[i].mintProof, t.outputs[i].revealed) {
        assert t.outputs[i] in t.outputs;
      }
    }
  }

  /** Answers no at the first proof or signature that fails, and else whether the commitments cancel. */
  method Verify<G(==, !new)>(s: System<G>, t: Transaction<G>) returns (ok: bool)
    requires IsCurve(s.c) && Encodable(s.c, t)
    ensures ok <==> Accepted(s, t)
    ensures ok <==> IsValid(s, t)
  {
    hide IsCurve, UnsignedBytes, VerifySignature, Balance, ProofsOk, IsValid;
    AcceptedIffValid(s, t);
    var total := CheckProofs(s, t);
    if total.None? {
      return false;
    }
    var w := new Writer();
    var _ := EncodeWithoutSignature(s.c, w, t);
    var message := w.output;
    assert message == UnsignedBytes(s.c, t);
    for i := 0 to |t.clearInputs|
      invariant forall k :: 0 <= k < i ==>
        VerifySignature(s.c, s.g, t.clearInputs[k].signaturePublic, message, t.clearInputs[k].signature)
    {
      if !VerifySignature(s.c, s.g, t.clearInputs[i].signaturePublic, message, t.clearInputs[i].signature) {
        return false;
      }
    }
    for i := 0 to |t.inputs|
      invariant forall k :: 0 <= k < i ==>
        VerifySignature(s.c, s.g, t.inputs[k].revealed.signaturePublic, message, t.inputs[k].signature)
    {
      if !VerifySignature(s.c, s.g, t.inputs[i].revealed.signaturePublic, message, t.inputs[i].signature) {
        return false;
      }
    }
    ok := total.value == s.c.zero;
  }

  /* ----- altered transactions ----- */

  /** The same transaction with another signature of one input. */
  function WithClearSignature<G>(t: Transaction<G>, i: nat, x: Signature<G>): Transaction<G>
    requires i < |t.clearInputs|
  {
    t.(clearInputs := t.clearInputs[i := t.clearInputs[i].(signature := x)])
  }

  function WithSignature<G>(t: Transaction<G>, i: nat, x: Signature<G>): Transaction<G>
    requires i < |t.inputs|
  {
    t.(inputs := t.inputs[i := t.inputs[i].(signature := x)])
  }

  predicate SameClear<G(==)>(x: ClearInput<G>, y: ClearInput<G>) { x == y.(signature := x.signature) }

  predicate SameInput<G(==)>(x: Input<G>, y: Input<G>) { x == y.(signature := x.signature) }

  /** The transactions have everything in common except, perhaps, signatures. */
  predicate SameButSignatures<G(==)>(t: Transaction<G>, u: Transaction<G>) {
    && |t.clearInputs| == |u.clearInputs| && |t.inputs| == |u.inputs| && t.outputs == u.outputs
    && (forall i :: 0 <= i < |t.clearInputs| ==> SameClear(t.clearInputs[i], u.clearInputs[i]))
    && (forall i :: 0 <= i < |t.inputs| ==> SameInput(t.inputs[i], u.inputs[i]))
  }

  /** The signatures are not part of what is signed. */
  lemma SignaturesNotSigned<G(!new)>(c: Curve<G>, t: Transaction<G>, u: Transaction<G>)
    requires SameButSignatures(t, u)
    ensures UnsignedBytes(c, t) == UnsignedBytes(c, u)
  {
    hide VecBytes, LeBytes, Joined;
    var e, f := (x: ClearInput<G>) => ClearUnsignedBytes(c, x), (x: Input<G>) =>
      SpendBytes(c, x.spendProof, x.revealed);
    JoinedAgree(e, e, t.clearInputs, u.clearInputs);
    JoinedAgree(f, f, t.inputs, u.inputs);
  }

  /** If a transaction is accepted, it is refused with any other response to the same commitment in any one of
      its signatures. */
  lemma AlteredClearRefused<G(!new)>(s: System<G>, t: Transaction<G>, i: nat, x: Signature<G>)
    requires IsCurve(s.c) && s.g.spending != s.c.zero && IsValid(s, t) && i < |t.clearInputs|
    requires x.commit == t.clearInputs[i].signature.commit && x.response != t.clearInputs[i].signature.response
    ensures !IsValid(s, WithClearSignature(t, i, x))
  {
    hide IsCurve, UnsignedBytes, PointSum, Residue;
    var u, was := WithClearSignature(t, i, x), t.clearInputs[i];
    SignaturesNotSigned(s.c, t, u);
    assert was in t.clearInputs && u.clearInputs[i] in u.clearInputs;
    if IsValid(s, u) { ResponseUnique(s.c, s.g, was.signaturePublic, UnsignedBytes(s.c, t), was.signature, x); }
  }

  lemma AlteredInputRefused<G(!new)>(s: System<G>, t: Transaction<G>, i: nat, x: Signature<G>)
    requires IsCurve(s.c) && s.g.spending != s.c.zero && IsValid(s, t) && i < |t.inputs|
    requires x.commit == t.inputs[i].signature.commit && x.response != t.inputs[i].signature.response
    ensures !IsValid(s, WithSignature(t, i, x))
  {
    hide IsCurve, UnsignedBytes, PointSum, Residue;
    var u, was := WithSignature(t, i, x), t.inputs[i];
    SignaturesNotSigned(s.c, t, u);
    assert was in t.inputs && u.inputs[i] in u.inputs;
    if IsValid(s, u) {
      ResponseUnique(s.c, s.g, was.revealed.signaturePublic, UnsignedBytes(s.c, t), was.signature, x);
    }
  }

  /* ----- what is signed determines the transaction ----- */

  /** The sizes of the encoded parts, and points that are told apart by their bytes. */
  ghost predicate Sized<G(!new)>(c: Curve<G>, t: Transaction<G>) {
    && Encodable(c, t) && (forall p, q :: c.pointBytes(p) == c.pointBytes(q) ==> p == q)
    && (forall x :: x in t.clearInputs ==> x.value < U64)
    && (forall x :: x in t.inputs ==>
          |x.spendProof| == 192 && |x.revealed.nullifier| == 32 && |x.revealed.merkleRoot| == 32)
    && (forall x :: x in t.outputs ==> |x.mintProof| == 192 && |x.revealed.coin| == 32 && |x.encNote| == 152)
  }

  /** Elements of one size k that are told apart by their bytes. */
  ghost predicate TellsApart<T(!new)>(e: T -> seq<byte>, same: (T, T) -> bool, k: nat, xs: seq<T>, ys: seq<T>) {
    && (forall x :: x in xs || x in ys ==> |e(x)| == k)
    && (forall x, y :: x in xs && y in ys && e(x) == e(y) ==> same(x, y))
  }

  lemma {:induction false} JoinedApart<T(!new)>(e: T -> seq<byte>, same: (T, T) -> bool, k: nat, xs: seq<T>, ys: seq<T>,
                                                a: seq<byte>, b: seq<byte>)
    requires TellsApart(e, same, k, xs, ys) && |xs| == |ys| && Joined(e, xs) + a == Joined(e, ys) + b
    ensures a == b && forall i :: 0 <= i < |xs| ==> same(xs[i], ys[i])
  {
    if xs == [] {
      assert [] + a == a && [] + b == b;
    } else {
      assert xs[0] in xs && ys[0] in ys;
      var p, q := Joined(e, xs[1..]) + a, Joined(e, ys[1..]) + b;
      assert Joined(e, xs) + a == e(xs[0]) + p && Joined(e, ys) + b == e(ys[0]) + q;
      assert (e(xs[0]) + p)[..k] == e(xs[0]) && (e(ys[0]) + q)[..k] == e(ys[0]);
      assert (e(xs[0]) + p)[k..] == p && (e(ys[0]) + q)[k..] == q;
      JoinedApart(e, same, k, xs[1..], ys[1..], a, b);
      assert forall i :: 0 < i < |xs| ==> xs[i] == xs[1..][i - 1] && ys[i] == ys[1..][i - 1];
    }
  }

  lemma {:induction false} VecApart<T(!new)>(e: T -> seq<byte>, same: (T, T) -> bool, k: nat, xs: seq<T>, ys: seq<T>,
                                             a: seq<byte>, b: seq<byte>)
    requires TellsApart(e, same, k, xs, ys) && |xs| < U64 && |ys| < U64 && VecBytes(e, xs) + a == VecBytes(e, ys) + b
    ensures |xs| == |ys| && a == b && forall i :: 0 <= i < |xs| ==> same(xs[i], ys[i])
  {
    hide VarIntBytes, ParseVarInt, TellsApart, Joined;
    var p, q := Joined(e, xs) + a, Joined(e, ys) + b;
    VarIntRoundTrip(|xs|, p);
    VarIntRoundTrip(|ys|, q);
    assert VecBytes(e, xs) + a == VarIntBytes(|xs|) + p && VecBytes(e, ys) + b == VarIntBytes(|ys|) + q;
    JoinedApart(e, same, k, xs, ys, a, b);
  }

  lemma LeApart(x: nat, y: nat, n: nat)
    requires x < Pow256(n) && y < Pow256(n) && LeBytes(x, n) == LeBytes(y, n)
    ensures x == y
  {
    hide LeBytes, LeValue, Pow256;
    BytesThenValue(x, n);
    BytesThenValue(y, n);
    Small(x, Pow256(n));
    Small(y, Pow256(n));
  }

  lemma Small(x: nat, m: nat)
    requires x < m
    ensures x % m == x
  {}

  lemma ClearApart<G(!new)>(c: Curve<G>, x: ClearInput<G>, y: ClearInput<G>)
    requires forall p :: |c.pointBytes(p)| == 32
    requires forall p, q :: c.pointBytes(p) == c.pointBytes(q) ==> p == q
    requires x.value < U64 && y.value < U64 && MODULUS <= Pow256(32)
    ensures |ClearUnsignedBytes(c, x)| == 72
    ensures ClearUnsignedBytes(c, x) == ClearUnsignedBytes(c, y) ==> SameClear(x, y)
  {
    hide LeBytes, Pow256;
    if ClearUnsignedBytes(c, x) == ClearUnsignedBytes(c, y) {
      var a, b := ClearUnsignedBytes(c, x), ClearUnsignedBytes(c, y);
      assert a[..8] == LeBytes(x.value, 8) && b[..8] == LeBytes(y.value, 8);
      assert a[8..40] == LeBytes(x.valcomBlind, 32) && b[8..40] == LeBytes(y.valcomBlind, 32);
      assert a[40..] == c.pointBytes(x.signaturePublic) && b[40..] == c.pointBytes(y.signaturePublic);
      Widths();
      LeApart(x.value, y.value, 8);
      LeApart(x.valcomBlind, y.valcomBlind, 32);
    }
  }

  /** Parts of known sizes. */
  lemma {:induction false} PartsApart(x: seq<seq<byte>>, y: seq<seq<byte>>)
    requires |x| == |y| && forall i :: 0 <= i < |x| ==> |x[i]| == |y[i]|
    requires Concat(x) == Concat(y)
    ensures x == y
  {
    if x != [] {
      assert Concat(x)[..|x[0]|] == x[0] && Concat(y)[..|x[0]|] == y[0];
      assert Concat(x)[|x[0]|..] == Concat(x[1..]) && Concat(y)[|x[0]|..] == Concat(y[1..]);
      PartsApart(x[1..], y[1..]);
      assert x == [x[0]] + x[1..] && y == [y[0]] + y[1..];
    }
  }

  function Concat(x: seq<seq<byte>>): seq<byte> { if x == [] then [] else x[0] + Concat(x[1..]) }

  lemma {:induction false} ConcatFive(a: seq<byte>, b: seq<byte>, c: seq<byte>, d: seq<byte>, e: seq<byte>)
    ensures Concat([a, b, c, d, e]) == a + (b + c + d + e)
  {
    assert [a, b, c, d, e][1..] == [b, c, d, e] && [b, c, d, e][1..] == [c, d, e] && [c, d, e][1..] == [d, e];
    assert [d, e][1..] == [e] && [e][1..] == [];
    assert Concat([e]) == e + [];
    assert Concat([d, e]) == d + Concat([e]) && Concat([c, d, e]) == c + Concat([d, e]);
    assert Concat([b, c, d, e]) == b + Concat([c, d, e]);
  }

  lemma InputApart<G(!new)>(c: Curve<G>, x: Input<G>, y: Input<G>)
    requires forall p :: |c.pointBytes(p)| == 32
    requires forall p, q :: c.pointBytes(p) == c.pointBytes(q) ==> p == q
    requires |x.spendProof| == |y.spendProof| == 192 && |x.revealed.nullifier| == |y.revealed.nullifier| == 32
    requires |x.revealed.merkleRoot| == |y.revealed.merkleRoot| == 32
    ensures |SpendBytes(c, x.spendProof, x.revealed)| == 320
    ensures SpendBytes(c, x.spendProof, x.revealed) == SpendBytes(c, y.spendProof, y.revealed) ==> SameInput(x, y)
  {
    hide Concat;
    var (r, q) := (x.revealed, y.revealed);
    var a := [x.spendProof, c.pointBytes(r.valueCommit), r.nullifier, r.merkleRoot, c.pointBytes(r.signaturePublic)];
    var b := [y.spendProof, c.pointBytes(q.valueCommit), q.nullifier, q.merkleRoot, c.pointBytes(q.signaturePublic)];
    ConcatFive(a[0], a[1], a[2], a[3], a[4]);
    ConcatFive(b[0], b[1], b[2], b[3], b[4]);
    if SpendBytes(c, x.spendProof, r) == SpendBytes(c, y.spendProof, q) {
      PartsApart(a, b);
      assert a[0] == b[0] && a[1] == b[1] && a[2] == b[2] && a[3] == b[3] && a[4] == b[4];
    }
  }

  lemma OutputApart<G(!new)>(c: Curve<G>, x: Output<G>, y: Output<G>)
    requires forall p :: |c.pointBytes(p)| == 32
    requires forall p, q :: c.pointBytes(p) == c.pointBytes(q) ==> p == q
    requires |x.mintProof| == |y.mintProof| == 192 && |x.revealed.coin| == |y.revealed.coin| == 32
    requires |x.encNote| == |y.encNote| == 152
    ensures |OutputBytes(c, x)| == 408
    ensures OutputBytes(c, x) == OutputBytes(c, y) ==> x == y
  {
    hide Concat;
    var a := [x.mintProof, c.pointBytes(x.revealed.valueCommit), x.revealed.coin, x.encNote, []];
    var b := [y.mintProof, c.pointBytes(y.revealed.valueCommit), y.revealed.coin, y.encNote, []];
    ConcatFive(a[0], a[1], a[2], a[3], a[4]);
    ConcatFive(b[0], b[1], b[2], b[3], b[4]);
    assert OutputBytes(c, x) == a[0] + (a[1] + a[2] + a[3] + a[4]);
    assert OutputBytes(c, y) == b[0] + (b[1] + b[2] + b[3] + b[4]);
    if OutputBytes(c, x) == OutputBytes(c, y) {
      PartsApart(a, b);
      assert a[0] == b[0] && a[1] == b[1] && a[2] == b[2] && a[3] == b[3];
    }
  }

  /** Two transactions have the same signed bytes exactly when they differ at most in their signatures: a
      signature is on every value, key, commitment, proof, nullifier, root, coin and note, and on their order. */
  lemma SignedBytesBind<G(!new)>(c: Curve<G>, t: Transaction<G>, u: Transaction<G>)
    requires Sized(c, t) && Sized(c, u) && MODULUS <= Pow256(32)
    ensures UnsignedBytes(c, t) == UnsignedBytes(c, u) <==> SameButSignatures(t, u)
  {
    hide VecBytes, ClearUnsignedBytes, SpendBytes, OutputBytes, SameClear, SameInput, Pow256;
    var e, f := (x: ClearInput<G>) => ClearUnsignedBytes(c, x), (x: Input<G>) =>
      SpendBytes(c, x.spendProof, x.revealed);
    var g := (x: Output<G>) => OutputBytes(c, x);
    if SameButSignatures(t, u) { SignaturesNotSigned(c, t, u); }
    if UnsignedBytes(c, t) == UnsignedBytes(c, u) {
      var a, b := VecBytes(g, t.outputs), VecBytes(g, u.outputs);
      var p, q := VecBytes(f, t.inputs) + a, VecBytes(f, u.inputs) + b;
      assert UnsignedBytes(c, t) == VecBytes(e, t.clearInputs) + p
        && UnsignedBytes(c, u) == VecBytes(e, u.clearInputs) + q;
      forall x, y | x in t.clearInputs + u.clearInputs && y in t.clearInputs + u.clearInputs
        ensures |e(x)| == 72 && (e(x) == e(y) ==> SameClear(x, y))
      {
        ClearApart(c, x, y);
      }
      VecApart(e, (x, y) => SameClear(x, y), 72, t.clearInputs, u.clearInputs, p, q);
      forall x, y | x in t.inputs + u.inputs && y in t.inputs + u.inputs
        ensures |f(x)| == 320 && (f(x) == f(y) ==> SameInput(x, y))
      {
        InputApart(c, x, y);
      }
      VecApart(f, (x, y) => SameInput(x, y), 320, t.inputs, u.inputs, a, b);
      forall x, y | x in t.outputs + u.outputs && y in t.outputs + u.outputs
        ensures |g(x)| == 408 && (g(x) == g(y) ==> x == y)
      {
        OutputApart(c, x, y);
      }
      assert a + [] == a && b + [] == b;
      VecApart(g, (x, y) => x == y, 408, t.outputs, u.outputs, [], []);
    }
  }
}
