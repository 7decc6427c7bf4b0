/** tx.rs: the transaction builder, and what its transactions are accepted for. */
module TransactionBuilder {
  import opened Bytes
  import opened Field
  import opened Curves
  import opened Transactions

  /** What a coin is worth, and what its owner needs to spend it. */
  datatype Note = Note(serial: Fp, value: nat, coinBlind: Fp, valcomBlind: Fp)

  /** The hashes of a Merkle path, with the sides on which they stand. */
  type Path = seq<(seq<byte>, bool)>

  /** What the builder is given, with the scalars it draws at random. The random blind of the last output
      is not used. */
  datatype ClearInfo = ClearInfo(value: nat, signatureSecret: Fp, valcomBlind: Fp, mask: Fp)
  datatype InputInfo = InputInfo(note: Note, secret: Fp, merklePath: Path, signatureSecret: Fp, mask: Fp)
  datatype OutputInfo<G> = OutputInfo(value: nat, public: G, valcomBlind: Fp, serial: Fp, coinBlind: Fp)

  datatype Info<G> = Info(clearInputs: seq<ClearInfo>, inputs: seq<InputInfo>, outputs: seq<OutputInfo<G>>)

  /** The hashes that are revealed, the provers, and the encryption of notes. */
  datatype Provers<!G> = Provers(nullifier: (Fp, Fp) -> seq<byte>, coin: (G, nat, Fp, Fp) -> seq<byte>,
                                 root: (seq<byte>, Path) -> seq<byte>,
                                 spend: (Note, Fp, Path, Fp) -> seq<byte>,
                                 mint: (nat, Fp, Fp, Fp, G) -> seq<byte>,
                                 encrypt: (Note, G) -> seq<byte>)

  /* ----- the remainder ----- */

  function ClearBlinds<G>(info: Info<G>): (r: seq<Fp>)
    ensures |r| == |info.clearInputs|
  {
    seq(|info.clearInputs|, i requires 0 <= i < |info.clearInputs| => info.clearInputs[i].valcomBlind)
  }

  function InputBlinds<G>(info: Info<G>): (r: seq<Fp>)
    ensures |r| == |info.inputs|
  {
    seq(|info.inputs|, i requires 0 <= i < |info.inputs| => info.inputs[i].note.valcomBlind)
  }

  function Remainder(clear: seq<Fp>, ins: seq<Fp>, outs: seq<Fp>): Fp { Sub(Add(Sum(clear), Sum(ins)), Sum(outs)) }

  /** The blinds of the first n outputs: the last output takes what is left. */
  function OutputBlinds<G>(info: Info<G>, n: nat): (r: seq<Fp>)
    requires n <= |info.outputs|
    ensures |r| == n
  {
    if n == 0 then []
    else
      var before := OutputBlinds(info, n - 1);
      before + [if n == |info.outputs| then Remainder(ClearBlinds(info), InputBlinds(info), before)
                else info.outputs[n - 1].valcomBlind]
  }

  method ComputeRemainderBlind<G>(clearInputs: seq<PartialClear<G>>, inputBlinds: seq<Fp>, outputBlinds: seq<Fp>)
    returns (total: Fp)
    ensures total == Remainder(BlindsOfPartial(clearInputs), inputBlinds, outputBlinds)
  {
    hide Residue, Field.Add, Field.Sub;
    var clear := BlindsOfPartial(clearInputs);
    total := ZERO;
    for i := 0 to |clearInputs|
      invariant total == Sum(clear[..i])
    {
      assert clear[..i + 1][..i] == clear[..i];
      total := Field.Add(total, clearInputs[i].valcomBlind);
    }
    assert clear[..|clear|] == clear;
    Units(Sum(clear));
    for i := 0 to |inputBlinds|
      invariant total == Field.Add(Sum(clear), Sum(inputBlinds[..i]))
    {
      assert inputBlinds[..i + 1][..i] == inputBlinds[..i];
      AddAssoc(Sum(clear), Sum(inputBlinds[..i]), inputBlinds[i]);
      total := Field.Add(total, inputBlinds[i]);
    }
    assert inputBlinds[..|inputBlinds|] == inputBlinds;
    ghost var all := Field.Add(Sum(clear), Sum(inputBlinds));
    SubNothing(all);
    for i := 0 to |outputBlinds|
      invariant total == Field.Sub(all, Sum(outputBlinds[..i]))
    {
      assert outputBlinds[..i + 1][..i] == outputBlinds[..i];
      SubMore(all, Sum(outputBlinds[..i]), outputBlinds[i]);
      total := Field.Sub(total, outputBlinds[i]);
    }
    assert outputBlinds[..|outputBlinds|] == outputBlinds;
  }

  function BlindsOfPartial<G>(xs: seq<PartialClear<G>>): (r: seq<Fp>)
    ensures |r| == |xs|
  {
    seq(|xs|, i requires 0 <= i < |xs| => xs[i].valcomBlind)
  }

  lemma SubNothing(a: Fp)
    ensures Field.Sub(a, ZERO) == a
  {
    ResidueId(a);
  }

  lemma SubMore(a: Fp, b: Fp, c: Fp)
    ensures Field.Sub(Field.Sub(a, b), c) == Field.Sub(a, Field.Add(b, c))
  {
    ResidueSub(a - b, c);
    ResidueSub(a, b + c);
    ResidueId(a);
    ResidueId(c);
  }

  /* ----- the transaction ----- */

  function ClearOf<G>(s: System<G>, x: ClearInfo): PartialClear<G> {
    PartialClear(x.value, x.valcomBlind, PublicKey(s.c, s.g, x.signatureSecret))
  }

  function SpendOf<G>(s: System<G>, p: Provers<G>, x: InputInfo): SpendRevealed<G> {
    var coin := p.coin(PublicKey(s.c, s.g, x.secret), x.note.value, x.note.serial, x.note.coinBlind);
    SpendRevealed(Commit(s.c, s.g, Residue(x.note.value), x.note.valcomBlind), p.nullifier(x.secret, x.note.serial),
                  p.root(coin, x.merklePath), PublicKey(s.c, s.g, x.signatureSecret))
  }

  function InputOf<G>(s: System<G>, p: Provers<G>, x: InputInfo): PartialInput<G> {
    PartialInput(p.spend(x.note, x.secret, x.merklePath, x.signatureSecret), SpendOf(s, p, x))
  }

  function OutputOf<G>(s: System<G>, p: Provers<G>, x: OutputInfo<G>, blind: Fp): Output<G> {
    var revealed := MintRevealed(Commit(s.c, s.g, Residue(x.value), blind),
                                 p.coin(x.public, x.value, x.serial, x.coinBlind));
    var note := Note(x.serial, x.value, x.coinBlind, blind);
    Output(p.mint(x.value, blind, x.serial, x.coinBlind, x.public), revealed, p.encrypt(note, x.public))
  }

  function Partial<G>(s: System<G>, p: Provers<G>, info: Info<G>): PartialTx<G> {
    var blinds := OutputBlinds(info, |info.outputs|);
    PartialTx(seq(|info.clearInputs|, i requires 0 <= i < |info.clearInputs| => ClearOf(s, info.clearInputs[i])),
              seq(|info.inputs|, i requires 0 <= i < |info.inputs| => InputOf(s, p, info.inputs[i])),
              seq(|info.outputs|, i requires 0 <= i < |info.outputs| => OutputOf(s, p, info.outputs[i], blinds[i])))
  }

  function SignClear<G>(s: System<G>, x: PartialClear<G>, info: ClearInfo, message: seq<byte>): ClearInput<G> {
    ClearInput(x.value, x.valcomBlind, x.signaturePublic, Sign(s.c, s.g, info.signatureSecret, info.mask, message))
  }

  function SignInput<G>(s: System<G>, x: PartialInput<G>, info: InputInfo, message: seq<byte>): Input<G> {
    Input(x.spendProof, x.revealed, Sign(s.c, s.g, info.signatureSecret, info.mask, message))
  }

  /** Every input signs the bytes of the partial transaction. */
  function Built<G>(s: System<G>, p: Provers<G>, info: Info<G>): Transaction<G> {
    var partial := Partial(s, p, info);
    var message := PartialTxBytes(s.c, partial);
    Transaction(
      seq(|info.clearInputs|, i requires 0 <= i < |info.clearInputs| =>
        SignClear(s, partial.clearInputs[i], info.clearInputs[i], message)),
      seq(|info.inputs|, i requires 0 <= i < |info.inputs| =>
        SignInput(s, partial.inputs[i], info.inputs[i], message)),
      partial.outputs)
  }

  lemma ClearBlindsKept<G>(s: System<G>, info: Info<G>, clear: seq<PartialClear<G>>)
    requires |clear| == |info.clearInputs|
    requires forall i :: 0 <= i < |clear| ==> clear[i] == ClearOf(s, info.clearInputs[i])
    ensures BlindsOfPartial(clear) == ClearBlinds(info)
  {}

  /** The fields of a built transaction, one by one. */
  ghost predicate HasFields<G>(s: System<G>, p: Provers<G>, info: Info<G>, t: Transaction<G>) {
    var n := |info.outputs|;
    && |t.clearInputs| == |info.clearInputs| && |t.inputs| == |info.inputs| && |t.outputs| == n
    && (forall i :: 0 <= i < |t.clearInputs| ==>
          var (x, given) := (t.clearInputs[i], info.clearInputs[i]);
          && x.value == given.value && x.valcomBlind == given.valcomBlind
          && x.signaturePublic == s.c.scale(s.g.spending, given.signatureSecret))
    && (forall i :: 0 <= i < |t.inputs| ==>
          var (x, given, note) := (t.inputs[i], info.inputs[i], info.inputs[i].note);
          var coin := p.coin(s.c.scale(s.g.spending, given.secret), note.value, note.serial, note.coinBlind);
          && x.spendProof == p.spend(note, given.secret, given.merklePath, given.signatureSecret)
          && IsCommit(s, x.revealed.valueCommit, note.value, note.valcomBlind)
          && x.revealed.nullifier == p.nullifier(given.secret, note.serial)
          && x.revealed.merkleRoot == p.root(coin, given.merklePath)
          && x.revealed.signaturePublic == s.c.scale(s.g.spending, given.signatureSecret))
    && (forall i :: 0 <= i < n ==> OutputHasFields(s, p, info.outputs[i], t.outputs[i], BlindOf(info, i)))
  }

  ghost predicate IsCommit<G>(s: System<G>, p: G, value: nat, blind: Fp) {
    p == s.c.add(s.c.scale(s.g.value, Residue(value)), s.c.scale(s.g.randomness, blind))
  }

  /** One blind for the commitment, the proof and the note. */
  ghost predicate OutputHasFields<G>(s: System<G>, p: Provers<G>, given: OutputInfo<G>, x: Output<G>, blind: Fp) {
    && IsCommit(s, x.revealed.valueCommit, given.value, blind)
    && x.revealed.coin == p.coin(given.public, given.value, given.serial, given.coinBlind)
    && x.mintProof == p.mint(given.value, blind, given.serial, given.coinBlind, given.public)
    && x.encNote == p.encrypt(Note(given.serial, given.value, given.coinBlind, blind), given.public)
  }

  /** The blind of an output: its own, or for the last one what all the others leave of those going in. */
  ghost function BlindOf<G>(info: Info<G>, i: nat): Fp
    requires i < |info.outputs|
  {
    if i < |info.outputs| - 1 then info.outputs[i].valcomBlind
    else
      var clear := seq(|info.clearInputs|, k requires 0 <= k < |info.clearInputs| => info.clearInputs[k].valcomBlind);
      var ins := seq(|info.inputs|, k requires 0 <= k < |info.inputs| => info.inputs[k].note.valcomBlind);
      var others := seq(i, k requires 0 <= k < i => info.outputs[k].valcomBlind);
      Sub(Add(Sum(clear), Sum(ins)), Sum(others))
  }

  lemma {:induction false} BlindsAreThese<G>(info: Info<G>, n: nat)
    requires n <= |info.outputs|
    ensures forall i :: 0 <= i < n ==> OutputBlinds(info, n)[i] == BlindOf(info, i)
  {
    hide Residue, Sub, Add, Sum;
    if n > 0 {
      BlindsAreThese(info, n - 1);
      if n == |info.outputs| {
        assert OutputBlinds(info, n - 1) == seq(n - 1, k requires 0 <= k < n - 1 => info.outputs[k].valcomBlind);
      }
    }
  }

  lemma BuiltHasFields<G(!new)>(s: System<G>, p: Provers<G>, info: Info<G>)
    ensures HasFields(s, p, info, Built(s, p, info))
  {
    hide PartialTxBytes, Sign, Residue, OutputBlinds, BlindOf;
    BlindsAreThese(info, |info.outputs|);
  }

  method Build<G(!new)>(s: System<G>, p: Provers<G>, info: Info<G>) returns (t: Transaction<G>)
    ensures t == Built(s, p, info)
    ensures HasFields(s, p, info, t)
  {
    hide HasFields, PartialTxBytes, SignClear, SignInput, ClearOf, InputOf, OutputOf, Residue, Field.Add, Field.Sub,
         Sum;
    ghost var all := Partial(s, p, info);
    var clearInputs: seq<PartialClear<G>> := [];
    for i := 0 to |info.clearInputs|
      invariant clearInputs == all.clearInputs[..i]
    {
      clearInputs := clearInputs + [ClearOf(s, info.clearInputs[i])];
    }
    var inputs: seq<PartialInput<G>> := [];
    var inputBlinds: seq<Fp> := [];
    for i := 0 to |info.inputs|
      invariant inputs == all.inputs[..i] && inputBlinds == InputBlinds(info)[..i]
    {
      inputBlinds := inputBlinds + [info.inputs[i].note.valcomBlind];
      inputs := inputs + [InputOf(s, p, info.inputs[i])];
    }
    ClearBlindsKept(s, info, clearInputs);
    assert inputBlinds == InputBlinds(info);
    var outputs: seq<Output<G>> := [];
    var outputBlinds: seq<Fp> := [];
    for i := 0 to |info.outputs|
      invariant outputBlinds == OutputBlinds(info, i)
      invariant |outputs| == i && forall k :: 0 <= k < i ==>
        outputs[k] == OutputOf(s, p, info.outputs[k], outputBlinds[k])
    {
      var blind := info.outputs[i].valcomBlind;
      if i == |info.outputs| - 1 {
        blind := ComputeRemainderBlind(clearInputs, inputBlinds, outputBlinds);
      }
      outputBlinds := outputBlinds + [blind];
      outputs := outputs + [OutputOf(s, p, info.outputs[i], blind)];
    }
    var partial := PartialTx(clearInputs, inputs, outputs);
    assert partial.outputs == all.outputs;
    assert partial == all;
    var message := PartialTxBytes(s.c, partial);
    var signedClear: seq<ClearInput<G>> := [];
    for i := 0 to |clearInputs|
      invariant |signedClear| == i && forall k :: 0 <= k < i ==>
        signedClear[k] == SignClear(s, clearInputs[k], info.clearInputs[k], message)
    {
      signedClear := signedClear + [SignClear(s, clearInputs[i], info.clearInputs[i], message)];
    }
    var signed: seq<Input<G>> := [];
    for i := 0 to |inputs|
      invariant |signed| == i && forall k :: 0 <= k < i ==>
        signed[k] == SignInput(s, inputs[k], info.inputs[k], message)
    {
      signed := signed + [SignInput(s, inputs[i], info.inputs[i], message)];
    }
    t := Transaction(signedClear, signed, outputs);
    BuiltHasFields(s, p, info);
  }

  /* ----- what the builder's transactions are accepted for ----- */

  function ClearOpenings<G>(info: Info<G>): (r: seq<Opening>)
    ensures |r| == |info.clearInputs|
  {
    seq(|info.clearInputs|,
        i requires 0 <= i < |info.clearInputs| =>
          Opening(Residue(info.clearInputs[i].value), info.clearInputs[i].valcomBlind))
  }

  function InputOpenings<G>(info: Info<G>): (r: seq<Opening>)
    ensures |r| == |info.inputs|
  {
    seq(|info.inputs|,
        i requires 0 <= i < |info.inputs| =>
          Opening(Residue(info.inputs[i].note.value), info.inputs[i].note.valcomBlind))
  }

  function OutputOpenings<G>(info: Info<G>): (r: seq<Opening>)
    ensures |r| == |info.outputs|
  {
    var blinds := OutputBlinds(info, |info.outputs|);
    seq(|info.outputs|, i requires 0 <= i < |info.outputs| => Opening(Residue(info.outputs[i].value), blinds[i]))
  }

  lemma BuiltOpens<G(!new)>(s: System<G>, p: Provers<G>, info: Info<G>)
    ensures var t := Built(s, p, info);
            && Opens(s, ClearCommits(s, t), ClearOpenings(info)) && Opens(s, InputCommits(t), InputOpenings(info))
            && Opens(s, OutputCommits(t), OutputOpenings(info))
  {
    hide Residue, Sign, Commit, PartialTxBytes;
  }

  lemma BuiltIsSigned<G(!new)>(s: System<G>, p: Provers<G>, info: Info<G>)
    requires IsCurve(s.c)
    ensures SignaturesOk(s, Built(s, p, info))
  {
    hide IsCurve, PartialTxBytes, UnsignedBytes, VerifySignature, Sign, Residue, Commit, PublicKey;
    var t := Built(s, p, info);
    UnsignedIsPartial(s.c, t, Partial(s, p, info));
    var message := UnsignedBytes(s.c, t);
    forall i | 0 <= i < |t.clearInputs|
      ensures VerifySignature(s.c, s.g, t.clearInputs[i].signaturePublic, message, t.clearInputs[i].signature)
    {
      SignedVerifies(s.c, s.g, info.clearInputs[i].signatureSecret, info.clearInputs[i].mask, message);
    }
    forall i | 0 <= i < |t.inputs|
      ensures VerifySignature(s.c, s.g, t.inputs[i].revealed.signaturePublic, message, t.inputs[i].signature)
    {
      SignedVerifies(s.c, s.g, info.inputs[i].signatureSecret, info.inputs[i].mask, message);
    }
  }

  /** With an output to take the remainder, the blinds cancel. */
  lemma BlindsCancel<G>(info: Info<G>)
    requires info.outputs != []
    ensures Remainder(BlindsOf(ClearOpenings(info)), BlindsOf(InputOpenings(info)), BlindsOf(OutputOpenings(info)))
         == ZERO
  {
    hide Residue, Field.Add, Field.Sub, Sum;
    var n := |info.outputs|;
    var outs := OutputBlinds(info, n);
    assert BlindsOf(ClearOpenings(info)) == ClearBlinds(info) && BlindsOf(InputOpenings(info)) == InputBlinds(info);
    assert BlindsOf(OutputOpenings(info)) == outs;
    var before, all := OutputBlinds(info, n - 1), Field.Add(Sum(ClearBlinds(info)), Sum(InputBlinds(info)));
    SumGrows(before, Field.Sub(all, Sum(before)));
    SubMore(all, Sum(before), Field.Sub(all, Sum(before)));
    SubZero(Field.Sub(all, Sum(before)), Field.Sub(all, Sum(before)));
  }

  lemma {:induction false} SumGrows(xs: seq<Fp>, x: Fp)
    ensures Sum(xs + [x]) == Field.Add(Sum(xs), x)
  {
    hide Residue, Field.Add;
    assert (xs + [x])[..|xs|] == xs;
  }

  function Total(xs: seq<nat>): nat { if xs == [] then 0 else Total(xs[..|xs| - 1]) + xs[|xs| - 1] }

  function ClearValues<G>(info: Info<G>): (r: seq<nat>)
    ensures |r| == |info.clearInputs|
  {
    seq(|info.clearInputs|, i requires 0 <= i < |info.clearInputs| => info.clearInputs[i].value)
  }

  function InputValues<G>(info: Info<G>): (r: seq<nat>)
    ensures |r| == |info.inputs|
  {
    seq(|info.inputs|, i requires 0 <= i < |info.inputs| => info.inputs[i].note.value)
  }

  function OutputValues<G>(info: Info<G>): (r: seq<nat>)
    ensures |r| == |info.outputs|
  {
    seq(|info.outputs|, i requires 0 <= i < |info.outputs| => info.outputs[i].value)
  }

  lemma {:induction false} SumIsTotal(os: seq<Opening>, xs: seq<nat>)
    requires |os| == |xs| && forall i :: 0 <= i < |xs| ==> os[i].value == Residue(xs[i])
    ensures Sum(ValuesOf(os)) == Residue(Total(xs))
    decreases |xs|
  {
    hide Residue, Field.Add;
    if xs == [] {
      ResidueId(0);
    } else {
      var n := |xs| - 1;
      SumIsTotal(os[..n], xs[..n]);
      assert ValuesOf(os)[..n] == ValuesOf(os[..n]);
      ResidueAdd(Total(xs[..n]), xs[n]);
    }
  }

  /** If its proofs verify, a built transaction with at least one output is accepted exactly when, modulo the
      order of the
      group, as much goes out as came in; in particular always when the sums are equal. */
  lemma BuiltAcceptedIffBalanced<G(!new)>(s: System<G>, p: Provers<G>, info: Info<G>)
    requires IsCurve(s.c) && s.g.value != s.c.zero && ProofsOk(s, Built(s, p, info)) && info.outputs != []
    ensures Accepted(s, Built(s, p, info))
       <==> Residue(Total(ClearValues(info)) + Total(InputValues(info))) == Residue(Total(OutputValues(info)))
  {
    hide IsCurve, Residue, Field.Add, Field.Sub, Built, ProofsOk, SignaturesOk, Balance, Sum, ValuesOf, BlindsOf,
         OutputBlinds, Opens, ClearCommits, InputCommits, OutputCommits, Total;
    var clear, ins, outs := ClearOpenings(info), InputOpenings(info), OutputOpenings(info);
    BuiltOpens(s, p, info);
    BuiltIsSigned(s, p, info);
    BlindsCancel(info);
    BalanceOpens(s, Built(s, p, info), clear, ins, outs);
    SumIsTotal(clear, ClearValues(info));
    SumIsTotal(ins, InputValues(info));
    SumIsTotal(outs, OutputValues(info));
    ResidueAdd(Total(ClearValues(info)), Total(InputValues(info)));
    var v := Field.Sub(Field.Add(Sum(ValuesOf(clear)), Sum(ValuesOf(ins))), Sum(ValuesOf(outs)));
    ScaleByZero(s.c, s.g.randomness);
    Neutral(s.c, s.c.scale(s.g.value, v));
    ScaledToZero(s.c, s.g.value, v);
    SubZero(Field.Add(Sum(ValuesOf(clear)), Sum(ValuesOf(ins))), Sum(ValuesOf(outs)));
  }

  /** Without outputs nothing takes the remainder: the transaction is accepted exactly when the sums of
      its values and of its blinds, committed to, give the neutral point. */
  lemma NoOutputs<G(!new)>(s: System<G>, p: Provers<G>, info: Info<G>)
    requires IsCurve(s.c) && ProofsOk(s, Built(s, p, info)) && info.outputs == []
    ensures Accepted(s, Built(s, p, info))
       <==> Commit(s.c, s.g, Residue(Total(ClearValues(info)) + Total(InputValues(info))),
                   Field.Add(Sum(ClearBlinds(info)), Sum(InputBlinds(info)))) == s.c.zero
  {
    hide IsCurve, Residue, Field.Add, Field.Sub, Built, ProofsOk, SignaturesOk, Balance, Opens, ClearCommits,
         InputCommits, OutputCommits, Commit;
    var clear, ins := ClearOpenings(info), InputOpenings(info);
    BuiltOpens(s, p, info);
    BuiltIsSigned(s, p, info);
    BalanceOpens(s, Built(s, p, info), clear, ins, OutputOpenings(info));
    SumIsTotal(clear, ClearValues(info));
    SumIsTotal(ins, InputValues(info));
    ResidueAdd(Total(ClearValues(info)), Total(InputValues(info)));
    SubNothing(Field.Add(Sum(ValuesOf(clear)), Sum(ValuesOf(ins))));
    SubNothing(Field.Add(Sum(ClearBlinds(info)), Sum(InputBlinds(info))));
    assert BlindsOf(clear) == ClearBlinds(info) && BlindsOf(ins) == InputBlinds(info);
  }
}
