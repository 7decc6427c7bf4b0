/** The decoder accepts exactly the bytes of the format: everything has one form, and anything else is
    refused. */
module ContractCanonical {
  import opened Bytes
  import opened Endian
  import opened Utf8
  import opened Serial
  import opened Field
  import opened ContractFormat
  import W = Wire
  import C = Circuit
  import Vm

  /* ----- elements and vectors ----- */

  /** A parser reads exactly the bytes of the elements that fit. */
  ghost predicate ReadsOnly<T(!new)>(p: seq<byte> -> Parsed<T>, e: T -> seq<byte>, ok: T -> bool) {
    forall b: seq<byte>, x, rest :: p(b) == Parsed(x, rest) <==> ok(x) && b == e(x) + rest
  }

  lemma {:induction false} ManyReadIff<T(!new)>(p: seq<byte> -> Parsed<T>, e: T -> seq<byte>, ok: T -> bool, n: nat,
                                                b: seq<byte>, xs: seq<T>, rest: seq<byte>)
    requires ReadsOnly(p, e, ok)
    ensures ParseMany(p, n, b) == Parsed(xs, rest)
       <==> |xs| == n && (forall i :: 0 <= i < n ==> ok(xs[i])) && b == Joined(e, xs) + rest
    decreases n
  {
    if |xs| == n && (forall i :: 0 <= i < n ==> ok(xs[i])) && b == Joined(e, xs) + rest {
      forall i | 0 <= i < |xs| ensures ReadsBack(p, e, xs[i]) {
        forall tail: seq<byte> ensures p(e(xs[i]) + tail) == Parsed(xs[i], tail) {}
      }
      ManyRoundTrip(p, e, xs, rest);
    }
    if ParseMany(p, n, b) == Parsed(xs, rest) {
      if n == 0 {
        assert [] + rest == rest;
      } else {
        var x, more := p(b).value, p(b).rest;
        assert ok(x) && b == e(x) + more;
        assert xs == [x] + ParseMany(p, n - 1, more).value;
        ManyReadIff(p, e, ok, n - 1, more, xs[1..], rest);
        assert b == e(x) + (Joined(e, xs[1..]) + rest);
      }
    }
  }

  lemma {:induction false} VecReadIff<T(!new)>(p: seq<byte> -> Parsed<T>, e: T -> seq<byte>, ok: T -> bool,
                                               b: seq<byte>, xs: seq<T>, rest: seq<byte>)
    requires ReadsOnly(p, e, ok)
    ensures ParseVec(p, b) == Parsed(xs, rest)
       <==> |xs| < U64 && (forall i :: 0 <= i < |xs| ==> ok(xs[i])) && b == VecBytes(e, xs) + rest
  {
    hide VarIntBytes, ParseVarInt, ParseMany, ReadsOnly, Joined;
    match ParseVarInt(b)
    case Failure(_) =>
      OnlyMinimalVarInts(b, |xs|, Joined(e, xs) + rest);
      assert VecBytes(e, xs) + rest == VarIntBytes(|xs|) + (Joined(e, xs) + rest);
    case Parsed(n, more) =>
      OnlyMinimalVarInts(b, n, more);
      OnlyMinimalVarInts(b, |xs|, Joined(e, xs) + rest);
      ManyReadIff(p, e, ok, n, more, xs, rest);
      assert VecBytes(e, xs) + rest == VarIntBytes(|xs|) + (Joined(e, xs) + rest);
  }

  /* ----- numbers ----- */

  lemma {:induction false} LeReadIff(n: nat, b: seq<byte>, v: nat, rest: seq<byte>)
    ensures ParseLe(n, b) == Parsed(v, rest) <==> v < Pow256(n) && b == LeBytes(v, n) + rest
  {
    hide LeBytes, LeValue, Pow256;
    if v < Pow256(n) && b == LeBytes(v, n) + rest {
      LeRoundTrip(v, n, rest);
      SmallRemainder(v, Pow256(n));
    }
    if ParseLe(n, b) == Parsed(v, rest) {
      ValueThenBytes(b[..n]);
      assert b == b[..n] + b[n..];
    }
  }

  lemma {:induction false} IndexReadIff(b: seq<byte>, i: nat, rest: seq<byte>)
    ensures ParseLe(4, b) == Parsed(i, rest) <==> Fits(i) && b == LeBytes(i, 4) + rest
  {
    hide LeBytes, ParseLe, Pow256;
    Widths();
    LeReadIff(4, b, i, rest);
  }

  function FieldBytes(v: Fp): seq<byte> { ScalarBytes(v) }

  lemma {:induction false} ScalarReadIff(b: seq<byte>, v: Fp, rest: seq<byte>)
    ensures ParseScalar(b) == Parsed(v, rest) <==> v < Pow256(32) && b == ScalarBytes(v) + rest
  {
    hide LeBytes, ParseLe, Pow256;
    LeReadIff(32, b, v, rest);
  }

  lemma {:induction false} AllocReadIff(b: seq<byte>, a: (Vm.AllocType, nat), rest: seq<byte>)
    ensures ParseAlloc(b) == Parsed(a, rest) <==> Fits(a.1) && b == AllocBytes(a) + rest
  {
    hide LeBytes, ParseLe;
    if b != [] {
      IndexReadIff(b[1..], a.1, rest);
      assert b == [b[0]] + b[1..];
    }
    assert (AllocBytes(a) + rest)[1..] == LeBytes(a.1, 4) + rest;
  }

  lemma {:induction false} RefReadIff(b: seq<byte>, r: Vm.VariableRef, rest: seq<byte>)
    ensures ParseRef(b) == Parsed(r, rest) <==> Fits(r.index) && b == RefBytes(r) + rest
  {
    hide LeBytes, ParseLe;
    if b != [] {
      IndexReadIff(b[1..], r.index, rest);
      assert b == [b[0]] + b[1..];
    }
    assert (RefBytes(r) + rest)[1..] == LeBytes(r.index, 4) + rest;
  }

  lemma {:induction false} StringReadIff(b: seq<byte>, s: seq<byte>, rest: seq<byte>)
    ensures ParseString(b) == Parsed(s, rest) <==> ValidUtf8(s) && |s| < U64 && b == BytesBytes(s) + rest
  {
    hide ParseBytes, BytesBytes, ValidUtf8;
    W.BytesReadIff(b, s, rest);
  }

  lemma {:induction false} PairReadIff(b: seq<byte>, p: (Name, nat), rest: seq<byte>)
    ensures ParsePair(b) == Parsed(p, rest) <==> PairFits(p) && b == PairBytes(p) + rest
  {
    hide ParseString, BytesBytes, LeBytes, ParseLe, ValidUtf8;
    assert PairBytes(p) + rest == BytesBytes(p.0) + (LeBytes(p.1, 4) + rest);
    StringReadIff(b, p.0, LeBytes(p.1, 4) + rest);
    IndexReadIff(LeBytes(p.1, 4) + rest, p.1, rest);
    if ParsePair(b) == Parsed(p, rest) {
      var more := ParseString(b).rest;
      StringReadIff(b, p.0, more);
      IndexReadIff(more, p.1, rest);
    }
  }

  /* ----- operations and constraints ----- */

  /** An operation is determined by its tag, text, references and index, in either direction. */
  lemma MadeOp(tag: byte, text: seq<byte>, a: seq<Vm.VariableRef>, index: nat)
    requires tag <= 13 && |a| == RefCount(tag)
    ensures var op := MakeOp(tag, text, a, index);
            && OpTag(op) == tag && RefsOf(op) == a && (op.Debug? <==> tag == 11) && (op.Load? <==> tag == 10)
            && (op.Debug? ==> op.text == text) && (op.Load? ==> op.const_ == index)
  {}

  lemma {:induction false} RefsReadIff(n: nat, b: seq<byte>, refs: seq<Vm.VariableRef>, rest: seq<byte>)
    ensures ParseMany(ParseRef, n, b) == Parsed(refs, rest)
       <==> |refs| == n && (forall i :: 0 <= i < n ==> Fits(refs[i].index)) && b == Joined(RefBytes, refs) + rest
  {
    hide ParseMany, ParseRef, RefBytes, Joined;
    var ok := (r: Vm.VariableRef) => Fits(r.index);
    forall b: seq<byte>, r, rest ensures ParseRef(b) == Parsed(r, rest) <==> ok(r) && b == RefBytes(r) + rest {
      RefReadIff(b, r, rest);
    }
    ManyReadIff(ParseRef, RefBytes, ok, n, b, refs, rest);
  }

  lemma {:induction false} ReadOpIsWritten(b: seq<byte>, op: Vm.CryptoOperation, rest: seq<byte>)
    requires ParseOp(b) == Parsed(op, rest)
    ensures Encodable(op) && b == OpBytes(op) + rest
  {
    hide OpBytes, OpTag, RefsOf, MakeOp, RefCount, RefBytes, ParseRef, LeBytes, BytesBytes, ParseString, Joined,
         ParseMany, ParseLe, ValidUtf8;
    var tag := b[0];
    var p1 := if tag == 11 then ParseString(b[1..]) else Parsed([], b[1..]);
    var p2 := ParseMany(ParseRef, RefCount(tag), p1.rest);
    var p3 := if tag == 10 then ParseLe(4, p2.rest) else Parsed(0, p2.rest);
    var text, refs, index := p1.value, p2.value, p3.value;
    assert op == MakeOp(tag, text, refs, index) && rest == p3.rest;
    MadeOp(tag, text, refs, index);
    StringReadIff(b[1..], text, p1.rest);
    RefsReadIff(RefCount(tag), p1.rest, refs, p2.rest);
    IndexReadIff(p2.rest, index, rest);
    var first := if op.Debug? then BytesBytes(op.text) else [];
    var last := if op.Load? then LeBytes(op.const_, 4) else [];
    OpInParts(op, first, last, rest);
    assert p2.rest == last + rest;
    assert b[1..] == first + (Joined(RefBytes, refs) + (last + rest));
    assert b == [tag] + b[1..];
  }

  lemma {:induction false} OpInParts(op: Vm.CryptoOperation, first: seq<byte>, last: seq<byte>, rest: seq<byte>)
    requires first == if op.Debug? then BytesBytes(op.text) else []
    requires last == if op.Load? then LeBytes(op.const_, 4) else []
    ensures OpBytes(op) + rest == [OpTag(op)] + (first + (Joined(RefBytes, RefsOf(op)) + (last + rest)))
  {
    hide OpTag, RefsOf, LeBytes, BytesBytes, Joined;
  }

  lemma {:induction false} OpReadIff(b: seq<byte>, op: Vm.CryptoOperation, rest: seq<byte>)
    ensures ParseOp(b) == Parsed(op, rest) <==> Encodable(op) && b == OpBytes(op) + rest
  {
    hide ParseOp, OpBytes, Encodable;
    if ParseOp(b) == Parsed(op, rest) { ReadOpIsWritten(b, op, rest); }
    if Encodable(op) && b == OpBytes(op) + rest { OpRoundTrip(op, rest); }
  }

  lemma MadeConstraint(tag: byte, a: seq<nat>)
    requires tag <= 20 && |a| == ArgCount(tag)
    ensures ConstraintTag(MakeConstraint(tag, a)) == tag && ConstraintArgs(MakeConstraint(tag, a)) == a
  {}

  lemma {:induction false} ConstraintReadIff(b: seq<byte>, k: C.ConstraintInstruction, rest: seq<byte>)
    ensures ParseConstraint(b) == Parsed(k, rest) <==> ConstraintFits(k) && b == ConstraintBytes(k) + rest
  {
    hide ConstraintTag, ConstraintArgs, MakeConstraint, ArgCount, LeBytes, ParseLe, Joined, ParseMany, IndexBytes,
         ParseIndex;
    if ConstraintFits(k) && b == ConstraintBytes(k) + rest { ConstraintRoundTrip(k, rest); }
    if ParseConstraint(b) == Parsed(k, rest) {
      var tag := b[0];
      var args := ParseMany(ParseIndex, ArgCount(tag), b[1..]).value;
      MadeConstraint(tag, args);
      IndicesReadIff(ArgCount(tag), b[1..], args, rest);
      assert b == [tag] + b[1..];
      assert ConstraintBytes(k) + rest == [tag] + (Joined(IndexBytes, args) + rest);
    }
  }

  lemma {:induction false} IndicesReadIff(n: nat, b: seq<byte>, args: seq<nat>, rest: seq<byte>)
    ensures ParseMany(ParseIndex, n, b) == Parsed(args, rest)
       <==> |args| == n && (forall i :: 0 <= i < n ==> Fits(args[i])) && b == Joined(IndexBytes, args) + rest
  {
    hide ParseMany, Joined, LeBytes, ParseLe;
    var ok := (i: nat) => Fits(i);
    forall b: seq<byte>, i: nat, rest ensures ParseIndex(b) == Parsed(i, rest) <==> ok(i) && b == IndexBytes(i) + rest {
      IndexReadIff(b, i, rest);
    }
    ManyReadIff(ParseIndex, IndexBytes, ok, n, b, args, rest);
  }

  /* ----- contracts ----- */

  /** Everything fits its field. */
  ghost predicate Fitting(z: ZkContract, params: seq<(Name, nat)>, publics: seq<(Name, nat)>) {
    && ValidUtf8(z.name) && |z.name| < U64
    && |z.constants| < U64 && (forall i :: 0 <= i < |z.constants| ==> z.constants[i] < Pow256(32))
    && |z.alloc| < U64 && (forall i :: 0 <= i < |z.alloc| ==> Fits(z.alloc[i].1))
    && |z.ops| < U64 && (forall i :: 0 <= i < |z.ops| ==> Encodable(z.ops[i]))
    && |z.constraints| < U64 && (forall i :: 0 <= i < |z.constraints| ==> ConstraintFits(z.constraints[i]))
    && |params| < U64 && (forall i :: 0 <= i < |params| ==> PairFits(params[i]))
    && |publics| < U64 && (forall i :: 0 <= i < |publics| ==> PairFits(publics[i]))
  }

  /** The bytes of a contract whose name is counted in bytes, with the pairs of its two maps. */
  function FormBytes(z: ZkContract, params: seq<(Name, nat)>, publics: seq<(Name, nat)>): seq<byte> {
    BytesBytes(z.name)
    + (VecBytes(FieldBytes, z.constants)
       + (VecBytes(AllocBytes, z.alloc)
          + (VecBytes(OpBytes, z.ops)
             + (VecBytes(ConstraintBytes, z.constraints)
                + (VecBytes(PairBytes, params) + VecBytes(PairBytes, publics))))))
  }

  lemma {:induction false} ConstantsReadIff(b: seq<byte>, xs: seq<Fp>, rest: seq<byte>)
    ensures ParseVec(ParseScalar, b) == Parsed(xs, rest)
       <==> |xs| < U64 && (forall i :: 0 <= i < |xs| ==> xs[i] < Pow256(32)) && b == VecBytes(FieldBytes, xs) + rest
  {
    hide ParseVec, VecBytes, ParseScalar, ScalarBytes, Pow256;
    var ok := (v: Fp) => v < Pow256(32);
    forall b: seq<byte>, v: Fp, rest ensures ParseScalar(b) == Parsed(v, rest) <==> ok(v) && b == FieldBytes(v) + rest {
      ScalarReadIff(b, v, rest);
    }
    VecReadIff(ParseScalar, FieldBytes, ok, b, xs, rest);
  }

  lemma {:induction false} AllocsReadIff(b: seq<byte>, xs: seq<(Vm.AllocType, nat)>, rest: seq<byte>)
    ensures ParseVec(ParseAlloc, b) == Parsed(xs, rest)
       <==> |xs| < U64 && (forall i :: 0 <= i < |xs| ==> Fits(xs[i].1)) && b == VecBytes(AllocBytes, xs) + rest
  {
    hide ParseVec, VecBytes, ParseAlloc, AllocBytes;
    var ok := (a: (Vm.AllocType, nat)) => Fits(a.1);
    forall b: seq<byte>, x, rest ensures ParseAlloc(b) == Parsed(x, rest) <==> ok(x) && b == AllocBytes(x) + rest {
      AllocReadIff(b, x, rest);
    }
    VecReadIff(ParseAlloc, AllocBytes, ok, b, xs, rest);
  }

  lemma {:induction false} OpsReadIff(b: seq<byte>, xs: seq<Vm.CryptoOperation>, rest: seq<byte>)
    ensures ParseVec(ParseOp, b) == Parsed(xs, rest)
       <==> |xs| < U64 && (forall i :: 0 <= i < |xs| ==> Encodable(xs[i])) && b == VecBytes(OpBytes, xs) + rest
  {
    hide ParseVec, VecBytes, ParseOp, OpBytes, Encodable;
    var ok := (x: Vm.CryptoOperation) => Encodable(x);
    forall b: seq<byte>, x, rest ensures ParseOp(b) == Parsed(x, rest) <==> ok(x) && b == OpBytes(x) + rest {
      OpReadIff(b, x, rest);
    }
    VecReadIff(ParseOp, OpBytes, ok, b, xs, rest);
  }

  lemma {:induction false} ConstraintsReadIff(b: seq<byte>, xs: seq<C.ConstraintInstruction>, rest: seq<byte>)
    ensures ParseVec(ParseConstraint, b) == Parsed(xs, rest)
       <==> |xs| < U64 && (forall i :: 0 <= i < |xs| ==> ConstraintFits(xs[i]))
            && b == VecBytes(ConstraintBytes, xs) + rest
  {
    hide ParseVec, VecBytes, ParseConstraint, ConstraintBytes, ConstraintFits;
    var ok := (x: C.ConstraintInstruction) => ConstraintFits(x);
    forall b: seq<byte>, x, rest
      ensures ParseConstraint(b) == Parsed(x, rest) <==> ok(x) && b == ConstraintBytes(x) + rest
    {
      ConstraintReadIff(b, x, rest);
    }
    VecReadIff(ParseConstraint, ConstraintBytes, ok, b, xs, rest);
  }

  lemma {:induction false} PairsReadIff(b: seq<byte>, xs: seq<(Name, nat)>, rest: seq<byte>)
    ensures ParseVec(ParsePair, b) == Parsed(xs, rest)
       <==> |xs| < U64 && (forall i :: 0 <= i < |xs| ==> PairFits(xs[i])) && b == VecBytes(PairBytes, xs) + rest
  {
    hide ParseVec, VecBytes, ParsePair, PairBytes, PairFits;
    var ok := (x: (Name, nat)) => PairFits(x);
    forall b: seq<byte>, x, rest ensures ParsePair(b) == Parsed(x, rest) <==> ok(x) && b == PairBytes(x) + rest {
      PairReadIff(b, x, rest);
    }
    VecReadIff(ParsePair, PairBytes, ok, b, xs, rest);
  }

  /** What is decoded was written in the only form it has. */
  lemma {:induction false} DecodedIsForm(b: seq<byte>, z: ZkContract, rest: seq<byte>)
    returns (params: seq<(Name, nat)>, publics: seq<(Name, nat)>)
    requires ParseContract(b) == Parsed(z, rest)
    ensures z.paramsMap == CollectMap(params) && z.publicMap == CollectBiMap(publics)
    ensures Fitting(z, params, publics) && b == FormBytes(z, params, publics) + rest
  {
    hide ParseString, ParseVec, BytesBytes, VecBytes, ParseScalar, ScalarBytes, ParseAlloc, AllocBytes, ParseOp,
         OpBytes, ParseConstraint, ConstraintBytes, ParsePair, PairBytes, ValidUtf8, Pow256, Encodable, ConstraintFits,
         PairFits, CollectMap, CollectBiMap;
    var b1 := ParseString(b).rest;
    var b2 := ParseVec(ParseScalar, b1).rest;
    var b3 := ParseVec(ParseAlloc, b2).rest;
    var b4 := ParseVec(ParseOp, b3).rest;
    var b5 := ParseVec(ParseConstraint, b4).rest;
    params := ParseVec(ParsePair, b5).value;
    var b6 := ParseVec(ParsePair, b5).rest;
    publics := ParseVec(ParsePair, b6).value;
    StringReadIff(b, z.name, b1);
    ConstantsReadIff(b1, z.constants, b2);
    AllocsReadIff(b2, z.alloc, b3);
    OpsReadIff(b3, z.ops, b4);
    ConstraintsReadIff(b4, z.constraints, b5);
    PairsReadIff(b5, params, b6);
    PairsReadIff(b6, publics, rest);
    Nested(BytesBytes(z.name), VecBytes(FieldBytes, z.constants), VecBytes(AllocBytes, z.alloc),
           VecBytes(OpBytes, z.ops),
           VecBytes(ConstraintBytes, z.constraints), VecBytes(PairBytes, params), VecBytes(PairBytes, publics), rest);
  }

  lemma Nested(a: seq<byte>, b: seq<byte>, c: seq<byte>, d: seq<byte>, e: seq<byte>, f: seq<byte>, g: seq<byte>,
               rest: seq<byte>)
    ensures a + (b + (c + (d + (e + (f + g))))) + rest == a + (b + (c + (d + (e + (f + (g + rest))))))
  {
    assert e + (f + g) + rest == e + (f + (g + rest));
    assert c + (d + (e + (f + g))) + rest == c + (d + (e + (f + g) + rest));
  }

  lemma {:induction false} FormIsDecoded(z: ZkContract, params: seq<(Name, nat)>, publics: seq<(Name, nat)>,
                                         rest: seq<byte>)
    requires z.paramsMap == CollectMap(params) && z.publicMap == CollectBiMap(publics) && Fitting(z, params, publics)
    ensures ParseContract(FormBytes(z, params, publics) + rest) == Parsed(z, rest)
  {
    hide ParseString, ParseVec, BytesBytes, VecBytes, ParseScalar, ScalarBytes, ParseAlloc, AllocBytes, ParseOp,
         OpBytes, ParseConstraint, ConstraintBytes, ParsePair, PairBytes, ValidUtf8, Pow256, Encodable, ConstraintFits,
         PairFits, CollectMap, CollectBiMap;
    Nested(BytesBytes(z.name), VecBytes(FieldBytes, z.constants), VecBytes(AllocBytes, z.alloc),
           VecBytes(OpBytes, z.ops),
           VecBytes(ConstraintBytes, z.constraints), VecBytes(PairBytes, params), VecBytes(PairBytes, publics), rest);
    var b6 := VecBytes(PairBytes, publics) + rest;
    var b5 := VecBytes(PairBytes, params) + b6;
    var b4 := VecBytes(ConstraintBytes, z.constraints) + b5;
    var b3 := VecBytes(OpBytes, z.ops) + b4;
    var b2 := VecBytes(AllocBytes, z.alloc) + b3;
    var b1 := VecBytes(FieldBytes, z.constants) + b2;
    StringReadIff(BytesBytes(z.name) + b1, z.name, b1);
    ConstantsReadIff(b1, z.constants, b2);
    AllocsReadIff(b2, z.alloc, b3);
    OpsReadIff(b3, z.ops, b4);
    ConstraintsReadIff(b4, z.constraints, b5);
    PairsReadIff(b5, params, b6);
    PairsReadIff(b6, publics, rest);
  }

  /** A contract is decoded exactly from the form of its parts, with any pairs that collect into its maps. */
  lemma {:induction false} ContractReadIff(b: seq<byte>, z: ZkContract, rest: seq<byte>)
    ensures ParseContract(b) == Parsed(z, rest)
       <==> exists params, publics :: z.paramsMap == CollectMap(params) && z.publicMap == CollectBiMap(publics)
              && Fitting(z, params, publics) && b == FormBytes(z, params, publics) + rest
  {
    hide ParseContract, FormBytes, Fitting, CollectMap, CollectBiMap;
    if ParseContract(b) == Parsed(z, rest) {
      var params, publics := DecodedIsForm(b, z, rest);
    }
    if params, publics :| z.paramsMap == CollectMap(params) && z.publicMap == CollectBiMap(publics)
                          && Fitting(z, params, publics) && b == FormBytes(z, params, publics) + rest
    {
      FormIsDecoded(z, params, publics, rest);
    }
  }

  /* ----- refusals ----- */

  /** What stands where a number of a kind belongs but is none. */
  lemma WrongKinds(b: seq<byte>)
    requires b != []
    ensures b[0] >= 2 ==> ParseAlloc(b) == Failure(Panicked) && ParseRef(b) == Failure(BadVariableRefType)
    ensures b[0] >= 14 ==> ParseOp(b) == Failure(BadOperationType)
    ensures b[0] >= 21 ==> ParseConstraint(b) == Failure(BadConstraintType)
  {
    hide ParseMany, ParseLe, ParseString;
  }

  /** Numbers that are longer than they need be, constants that are too large, names that are no strings. */
  lemma {:induction false} WrongValues(v: nat, s: seq<byte>, rest: seq<byte>)
    ensures v < 0xFD ==> ParseVarInt([0xFD] + LeBytes(v, 2) + rest) == Failure(NonMinimalVarInt)
    ensures v < 0x1_0000 ==> ParseVarInt([0xFE] + LeBytes(v, 4) + rest) == Failure(NonMinimalVarInt)
    ensures v < 0x1_0000_0000 ==> ParseVarInt([0xFF] + LeBytes(v, 8) + rest) == Failure(NonMinimalVarInt)
    ensures MODULUS <= v < Pow256(32) ==> ParseScalar(LeBytes(v, 32) + rest) == Failure(ParseFailed)
    ensures |s| < U64 && !ValidUtf8(s) ==> ParseString(BytesBytes(s) + rest) == Failure(ParseFailed)
  {
    hide LeBytes, ParseLe, Pow256, ParseBytes, BytesBytes, ValidUtf8;
    Widths();
    LeReadIff(2, LeBytes(v, 2) + rest, v, rest);
    LeReadIff(4, LeBytes(v, 4) + rest, v, rest);
    LeReadIff(8, LeBytes(v, 8) + rest, v, rest);
    LeReadIff(32, LeBytes(v, 32) + rest, v, rest);
    assert ([0xFD] + LeBytes(v, 2) + rest)[1..] == LeBytes(v, 2) + rest;
    assert ([0xFE] + LeBytes(v, 4) + rest)[1..] == LeBytes(v, 4) + rest;
    assert ([0xFF] + LeBytes(v, 8) + rest)[1..] == LeBytes(v, 8) + rest;
    W.BytesReadIff(BytesBytes(s) + rest, s, rest);
  }

  /** Too few bytes, at the end of any field. */
  lemma TooShort(b: seq<byte>, n: nat)
    ensures |b| < n ==> ParseLe(n, b) == Failure(UnexpectedEof) && ParseExact(n, b) == Failure(UnexpectedEof)
    ensures ParseVarInt([]) == Failure(UnexpectedEof) && ParseOp([]) == Failure(UnexpectedEof)
    ensures ParseConstraint([]) == Failure(UnexpectedEof) && ParseAlloc([]) == Failure(UnexpectedEof)
    ensures ParseRef([]) == Failure(UnexpectedEof)
  {}
}
