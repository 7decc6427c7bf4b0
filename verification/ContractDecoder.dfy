/** vm_serial.rs: decoding a contract from a reader. Every vector is decoded by its own copy of the loop
    that the source's macro generates. */
module ContractDecoder {
  import opened Wrappers
  import opened Bytes
  import opened Endian
  import opened Serial
  import opened Field
  import opened ContractFormat
  import C = Circuit
  import Vm

  method DecodeScalar(d: Reader) returns (r: Result<Fp, Error>)
    requires d.Valid()
    modifies d
    ensures d.Valid() && Agrees(r, d.Rest(), ParseScalar(old(d.Rest())))
  {
    hide LeValue;
    var v := d.ReadLe(32);
    if v.Err? {
      return Err(v.error);
    }
    if v.value >= MODULUS {
      return Err(ParseFailed);
    }
    r := Ok(v.value);
  }

  method DecodeAlloc(d: Reader) returns (r: Result<(Vm.AllocType, nat), Error>)
    requires d.Valid()
    modifies d
    ensures d.Valid() && Agrees(r, d.Rest(), ParseAlloc(old(d.Rest())))
  {
    hide LeValue;
    var kind := d.ReadU8();
    if kind.Err? {
      return Err(kind.error);
    }
    if kind.value != 0 && kind.value != 1 {
      return Err(Panicked);
    }
    var index := d.ReadLe(4);
    if index.Err? {
      return Err(index.error);
    }
    r := Ok((if kind.value == 0 then Vm.Private else Vm.Public, index.value));
  }

  method DecodeRef(d: Reader) returns (r: Result<Vm.VariableRef, Error>)
    requires d.Valid()
    modifies d
    ensures d.Valid() && Agrees(r, d.Rest(), ParseRef(old(d.Rest())))
  {
    hide LeValue;
    var kind := d.ReadU8();
    if kind.Err? {
      return Err(kind.error);
    }
    if kind.value > 1 {
      return Err(BadVariableRefType);
    }
    var index := d.ReadLe(4);
    if index.Err? {
      return Err(index.error);
    }
    r := Ok(if kind.value == 0 then Vm.Aux(index.value) else Vm.Local(index.value));
  }

  /** The references of an operation, one after the other. */
  method DecodeRefs(d: Reader, n: nat) returns (r: Result<seq<Vm.VariableRef>, Error>)
    requires d.Valid()
    modifies d
    ensures d.Valid() && Agrees(r, d.Rest(), ParseMany(ParseRef, n, old(d.Rest())))
  {
    hide ParseRef;
    var refs: seq<Vm.VariableRef> := [];
    ManyEnds(ParseRef, n, d.Rest(), refs);
    for i := 0 to n
      invariant d.Valid()
      invariant Prepended(refs, ParseMany(ParseRef, n - i, d.Rest())) == ParseMany(ParseRef, n, old(d.Rest()))
    {
      ManyStep(ParseRef, n - i, d.Rest(), refs);
      var x := DecodeRef(d);
      if x.Err? {
        return Err(x.error);
      }
      refs := refs + [x.value];
    }
    ManyEnds(ParseRef, 0, d.Rest(), refs);
    r := Ok(refs);
  }

  method DecodeOp(d: Reader) returns (r: Result<Vm.CryptoOperation, Error>)
    requires d.Valid()
    modifies d
    ensures d.Valid() && Agrees(r, d.Rest(), ParseOp(old(d.Rest())))
  {
    hide LeValue, ParseString, ParseMany, RefCount, MakeOp;
    var tag := d.ReadU8();
    if tag.Err? {
      return Err(tag.error);
    }
    if tag.value > 13 {
      return Err(BadOperationType);
    }
    var text: seq<byte> := [];
    if tag.value == 11 {
      var s := d.DecodeString();
      if s.Err? {
        return Err(s.error);
      }
      text := s.value;
    }
    var refs := DecodeRefs(d, RefCount(tag.value));
    if refs.Err? {
      return Err(refs.error);
    }
    var index := 0;
    if tag.value == 10 {
      var i := d.ReadLe(4);
      if i.Err? {
        return Err(i.error);
      }
      index := i.value;
    }
    r := Ok(MakeOp(tag.value, text, refs.value, index));
  }

  method DecodeConstraint(d: Reader) returns (r: Result<C.ConstraintInstruction, Error>)
    requires d.Valid()
    modifies d
    ensures d.Valid() && Agrees(r, d.Rest(), ParseConstraint(old(d.Rest())))
  {
    hide LeValue, ParseIndex, ArgCount, MakeConstraint;
    var tag := d.ReadU8();
    if tag.Err? {
      return Err(tag.error);
    }
    if tag.value > 20 {
      return Err(BadConstraintType);
    }
    var n, args: seq<nat> := ArgCount(tag.value), [];
    ghost var start := d.Rest();
    ManyEnds(ParseIndex, n, start, args);
    for i := 0 to n
      invariant d.Valid() && |args| == i
      invariant Prepended(args, ParseMany(ParseIndex, n - i, d.Rest())) == ParseMany(ParseIndex, n, start)
    {
      ManyStep(ParseIndex, n - i, d.Rest(), args);
      var x := DecodeIndex(d);
      if x.Err? {
        return Err(x.error);
      }
      args := args + [x.value];
    }
    ManyEnds(ParseIndex, 0, d.Rest(), args);
    r := Ok(MakeConstraint(tag.value, args));
  }

  method DecodeIndex(d: Reader) returns (r: Result<nat, Error>)
    requires d.Valid()
    modifies d
    ensures d.Valid() && Agrees(r, d.Rest(), ParseIndex(old(d.Rest())))
  {
    r := d.ReadLe(4);
  }

  method DecodePair(d: Reader) returns (r: Result<(Name, nat), Error>)
    requires d.Valid()
    modifies d
    ensures d.Valid() && Agrees(r, d.Rest(), ParsePair(old(d.Rest())))
  {
    hide LeValue, ParseString;
    var name := d.DecodeString();
    if name.Err? {
      return Err(name.error);
    }
    var index := d.ReadLe(4);
    if index.Err? {
      return Err(index.error);
    }
    r := Ok((name.value, index.value));
  }

  method DecodeScalars(d: Reader) returns (r: Result<seq<Fp>, Error>)
    requires d.Valid()
    modifies d
    ensures d.Valid() && Agrees(r, d.Rest(), ParseVec(ParseScalar, old(d.Rest())))
  {
    hide ParseScalar, ParseVarInt;
    var len := d.DecodeVarInt();
    if len.Err? {
      return Err(len.error);
    }
    var ret: seq<Fp> := [];
    ghost var start := d.Rest();
    ManyEnds(ParseScalar, len.value, start, ret);
    for i := 0 to len.value
      invariant d.Valid()
      invariant Prepended(ret, ParseMany(ParseScalar, len.value - i, d.Rest()))
        == ParseMany(ParseScalar, len.value, start)
    {
      ManyStep(ParseScalar, len.value - i, d.Rest(), ret);
      var x := DecodeScalar(d);
      if x.Err? {
        return Err(x.error);
      }
      ret := ret + [x.value];
    }
    ManyEnds(ParseScalar, 0, d.Rest(), ret);
    r := Ok(ret);
  }

  method DecodeAllocs(d: Reader) returns (r: Result<seq<(Vm.AllocType, nat)>, Error>)
    requires d.Valid()
    modifies d
    ensures d.Valid() && Agrees(r, d.Rest(), ParseVec(ParseAlloc, old(d.Rest())))
  {
    hide ParseAlloc, ParseVarInt;
    var len := d.DecodeVarInt();
    if len.Err? {
      return Err(len.error);
    }
    var ret: seq<(Vm.AllocType, nat)> := [];
    ghost var start := d.Rest();
    ManyEnds(ParseAlloc, len.value, start, ret);
    for i := 0 to len.value
      invariant d.Valid()
      invariant Prepended(ret, ParseMany(ParseAlloc, len.value - i, d.Rest()))
        == ParseMany(ParseAlloc, len.value, start)
    {
      ManyStep(ParseAlloc, len.value - i, d.Rest(), ret);
      var x := DecodeAlloc(d);
      if x.Err? {
        return Err(x.error);
      }
      ret := ret + [x.value];
    }
    ManyEnds(ParseAlloc, 0, d.Rest(), ret);
    r := Ok(ret);
  }

  method DecodeOps(d: Reader) returns (r: Result<seq<Vm.CryptoOperation>, Error>)
    requires d.Valid()
    modifies d
    ensures d.Valid() && Agrees(r, d.Rest(), ParseVec(ParseOp, old(d.Rest())))
  {
    hide ParseOp, ParseVarInt;
    var len := d.DecodeVarInt();
    if len.Err? {
      return Err(len.error);
    }
    var ret: seq<Vm.CryptoOperation> := [];
    ghost var start := d.Rest();
    ManyEnds(ParseOp, len.value, start, ret);
    for i := 0 to len.value
      invariant d.Valid()
      invariant Prepended(ret, ParseMany(ParseOp, len.value - i, d.Rest())) == ParseMany(ParseOp, len.value, start)
    {
      ManyStep(ParseOp, len.value - i, d.Rest(), ret);
      var x := DecodeOp(d);
      if x.Err? {
        return Err(x.error);
      }
      ret := ret + [x.value];
    }
    ManyEnds(ParseOp, 0, d.Rest(), ret);
    r := Ok(ret);
  }

  method DecodeConstraints(d: Reader) returns (r: Result<seq<C.ConstraintInstruction>, Error>)
    requires d.Valid()
    modifies d
    ensures d.Valid() && Agrees(r, d.Rest(), ParseVec(ParseConstraint, old(d.Rest())))
  {
    hide ParseConstraint, ParseVarInt;
    var len := d.DecodeVarInt();
    if len.Err? {
      return Err(len.error);
    }
    var ret: seq<C.ConstraintInstruction> := [];
    ghost var start := d.Rest();
    ManyEnds(ParseConstraint, len.value, start, ret);
    for i := 0 to len.value
      invariant d.Valid()
      invariant Prepended(ret, ParseMany(ParseConstraint, len.value - i, d.Rest()))
        == ParseMany(ParseConstraint, len.value, start)
    {
      ManyStep(ParseConstraint, len.value - i, d.Rest(), ret);
      var x := DecodeConstraint(d);
      if x.Err? {
        return Err(x.error);
      }
      ret := ret + [x.value];
    }
    ManyEnds(ParseConstraint, 0, d.Rest(), ret);
    r := Ok(ret);
  }

  method DecodePairs(d: Reader) returns (r: Result<seq<(Name, nat)>, Error>)
    requires d.Valid()
    modifies d
    ensures d.Valid() && Agrees(r, d.Rest(), ParseVec(ParsePair, old(d.Rest())))
  {
    hide ParsePair, ParseVarInt;
    var len := d.DecodeVarInt();
    if len.Err? {
      return Err(len.error);
    }
    var ret: seq<(Name, nat)> := [];
    ghost var start := d.Rest();
    ManyEnds(ParsePair, len.value, start, ret);
    for i := 0 to len.value
      invariant d.Valid()
      invariant Prepended(ret, ParseMany(ParsePair, len.value - i, d.Rest())) == ParseMany(ParsePair, len.value, start)
    {
      ManyStep(ParsePair, len.value - i, d.Rest(), ret);
      var x := DecodePair(d);
      if x.Err? {
        return Err(x.error);
      }
      ret := ret + [x.value];
    }
    ManyEnds(ParsePair, 0, d.Rest(), ret);
    r := Ok(ret);
  }

  method DecodeContract(d: Reader) returns (r: Result<ZkContract, Error>)
    requires d.Valid()
    modifies d
    ensures d.Valid() && Agrees(r, d.Rest(), ParseContract(old(d.Rest())))
  {
    hide ParseString, ParseVec, CollectMap, CollectBiMap;
    var name := d.DecodeString();
    if name.Err? {
      return Err(name.error);
    }
    var constants := DecodeScalars(d);
    if constants.Err? {
      return Err(constants.error);
    }
    var alloc := DecodeAllocs(d);
    if alloc.Err? {
      return Err(alloc.error);
    }
    var ops := DecodeOps(d);
    if ops.Err? {
      return Err(ops.error);
    }
    var constraints := DecodeConstraints(d);
    if constraints.Err? {
      return Err(constraints.error);
    }
    var params := DecodePairs(d);
    if params.Err? {
      return Err(params.error);
    }
    var publics := DecodePairs(d);
    if publics.Err? {
      return Err(publics.error);
    }
    r := Ok(ZkContract(name.value, constants.value, alloc.value, ops.value, constraints.value,
                       CollectMap(params.value), CollectBiMap(publics.value)));
  }
}
