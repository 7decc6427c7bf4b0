/** serial.rs: reading values from bytes and writing them, with Bitcoin's variable-length integers. */
module Serial {
  import opened Wrappers
  import opened Bytes
  import opened Endian
  import opened Utf8

  datatype Error =
    | UnexpectedEof | NonMinimalVarInt | ParseFailed | Utf8Error | MalformedPacket
    | Panicked | BadVariableRefType | BadOperationType | BadConstraintType

  /** What reading from bytes gives: a value and the bytes after it, or an error. */
  datatype Parsed<+T> = Parsed(value: T, rest: seq<byte>) | Failure(error: Error)

  /* ----- integers ----- */

  function ParseExact(n: nat, b: seq<byte>): Parsed<seq<byte>> {
    if n <= |b| then Parsed(b[..n], b[n..]) else Failure(UnexpectedEof)
  }

  function ParseLe(n: nat, b: seq<byte>): Parsed<nat> {
    if n <= |b| then Parsed(LeValue(b[..n]), b[n..]) else Failure(UnexpectedEof)
  }

  lemma {:induction false} LeRoundTrip(v: nat, n: nat, tail: seq<byte>)
    ensures ParseLe(n, LeBytes(v, n) + tail) == Parsed(v % Pow256(n), tail)
  {
    BytesThenValue(v, n);
    assert (LeBytes(v, n) + tail)[..n] == LeBytes(v, n) && (LeBytes(v, n) + tail)[n..] == tail;
  }

  const U64: nat := 0x1_0000_0000_0000_0000

  /** The shortest of the four forms. */
  function VarIntBytes(v: nat): seq<byte> {
    if v <= 0xFC then [v]
    else if v <= 0xFFFF then [0xFD] + LeBytes(v, 2)
    else if v <= 0xFFFF_FFFF then [0xFE] + LeBytes(v, 4)
    else [0xFF] + LeBytes(v, 8)
  }

  /** The four forms, byte by byte. */
  lemma VarIntLayout(v: nat)
    ensures v < 0xFD ==> VarIntBytes(v) == [v]
    ensures 0xFD <= v < 0x1_0000 ==> VarIntBytes(v) == [0xFD, v % 0x100, v / 0x100]
    ensures 0x1_0000 <= v < 0x1_0000_0000 ==>
      VarIntBytes(v) == [0xFE, v % 0x100, v / 0x100 % 0x100, v / 0x1_0000 % 0x100, v / 0x100_0000]
    ensures 0x1_0000_0000 <= v ==> |VarIntBytes(v)| == 9 && VarIntBytes(v)[0] == 0xFF
  {
    LeFour(v);
  }

  lemma LeFour(v: nat)
    ensures v < 0x1_0000 ==> LeBytes(v, 2) == [v % 0x100, v / 0x100]
    ensures v < 0x1_0000_0000 ==>
      LeBytes(v, 4) == [v % 0x100, v / 0x100 % 0x100, v / 0x1_0000 % 0x100, v / 0x100_0000]
  {
    var (a, b, c) := (v / 256, v / 256 / 256, v / 256 / 256 / 256);
    assert LeBytes(v, 2) == [v % 256] + ([a % 256] + []);
    assert LeBytes(v, 4) == [v % 256] + LeBytes(a, 3) && LeBytes(a, 3) == [a % 256] + LeBytes(b, 2);
    assert LeBytes(b, 2) == [b % 256] + LeBytes(c, 1) && LeBytes(c, 1) == [c % 256] + [];
  }

  /** `VarInt::len` */
  function VarIntLen(v: nat): nat {
    if v <= 0xFC then 1 else if v <= 0xFFFF then 3 else if v <= 0xFFFF_FFFF then 5 else 9
  }

  function AtLeast(p: Parsed<nat>, least: nat): Parsed<nat> {
    if p.Parsed? && p.value < least then Failure(NonMinimalVarInt) else p
  }

  function ParseVarInt(b: seq<byte>): Parsed<nat> {
    if b == [] then Failure(UnexpectedEof)
    else if b[0] == 0xFF then AtLeast(ParseLe(8, b[1..]), 0x1_0000_0000)
    else if b[0] == 0xFE then AtLeast(ParseLe(4, b[1..]), 0x1_0000)
    else if b[0] == 0xFD then AtLeast(ParseLe(2, b[1..]), 0xFD)
    else Parsed(b[0], b[1..])
  }

  lemma Widths()
    ensures Pow256(2) == 0x1_0000 && Pow256(4) == 0x1_0000_0000 && Pow256(8) == U64
  {
    assert Pow256(1) == 256 && Pow256(2) == 256 * 256 && Pow256(3) == 256 * Pow256(2) && Pow256(4) == 256 * Pow256(3);
    assert Pow256(5) == 256 * Pow256(4) && Pow256(6) == 256 * Pow256(5) && Pow256(7) == 256 * Pow256(6)
      && Pow256(8) == 256 * Pow256(7);
  }

  lemma {:induction false} VarIntRoundTrip(v: nat, tail: seq<byte>)
    requires v < U64
    ensures |VarIntBytes(v)| == VarIntLen(v) && ParseVarInt(VarIntBytes(v) + tail) == Parsed(v, tail)
  {
    hide LeBytes, LeValue, Pow256;
    Widths();
    var b, n := VarIntBytes(v) + tail, VarIntLen(v) - 1;
    if n > 0 {
      LeRoundTrip(v, n, tail);
      assert b[1..] == LeBytes(v, n) + tail;
    } else {
      assert b[1..] == tail;
    }
  }

  /** Reading succeeds exactly on the bytes that writing produces: every other form is refused. */
  lemma {:induction false} OnlyMinimalVarInts(b: seq<byte>, v: nat, rest: seq<byte>)
    ensures ParseVarInt(b) == Parsed(v, rest) <==> v < U64 && b == VarIntBytes(v) + rest
  {
    hide LeBytes, LeValue, Pow256;
    Widths();
    if v < U64 && b == VarIntBytes(v) + rest { VarIntRoundTrip(v, rest); }
    if ParseVarInt(b) == Parsed(v, rest) {
      var n := if b[0] == 0xFF then 8 else if b[0] == 0xFE then 4 else if b[0] == 0xFD then 2 else 0;
      ValueThenBytes(b[1..][..n]);
      assert b == [b[0]] + b[1..][..n] + b[1..][n..];
      assert [v] + rest == b || n > 0;
    }
  }

  /* ----- sequences and strings ----- */

  function ParseMany<T>(p: seq<byte> -> Parsed<T>, count: nat, b: seq<byte>): (r: Parsed<seq<T>>)
    ensures r.Parsed? ==> |r.value| == count
  {
    if count == 0 then Parsed([], b)
    else
      match p(b)
      case Failure(e) => Failure(e)
      case Parsed(x, rest) => Prepended([x], ParseMany(p, count - 1, rest))
  }

  function Prepended<T>(found: seq<T>, p: Parsed<seq<T>>): Parsed<seq<T>> {
    match p
    case Failure(e) => Failure(e)
    case Parsed(xs, rest) => Parsed(found + xs, rest)
  }

  function ParseVec<T>(p: seq<byte> -> Parsed<T>, b: seq<byte>): Parsed<seq<T>> {
    match ParseVarInt(b)
    case Failure(e) => Failure(e)
    case Parsed(n, rest) => ParseMany(p, n, rest)
  }

  /** One iteration of a decoding loop. */
  lemma {:induction false} ManyStep<T>(p: seq<byte> -> Parsed<T>, count: nat, b: seq<byte>, found: seq<T>)
    requires count > 0
    ensures Prepended(found, ParseMany(p, count, b))
         == match p(b)
            case Failure(e) => Failure(e)
            case Parsed(x, rest) => Prepended(found + [x], ParseMany(p, count - 1, rest))
  {
    match p(b)
    case Failure(e) =>
    case Parsed(x, rest) =>
      match ParseMany(p, count - 1, rest)
      case Failure(e) =>
      case Parsed(xs, _) => assert found + ([x] + xs) == found + [x] + xs;
  }

  lemma {:induction false} ManyEnds<T>(p: seq<byte> -> Parsed<T>, count: nat, b: seq<byte>, found: seq<T>)
    ensures Prepended([], ParseMany(p, count, b)) == ParseMany(p, count, b)
    ensures Prepended(found, ParseMany(p, 0, b)) == Parsed(found, b)
  {
    assert found + [] == found;
    match ParseMany(p, count, b)
    case Failure(e) =>
    case Parsed(xs, _) => assert [] + xs == xs;
  }

  function Joined<T>(e: T -> seq<byte>, xs: seq<T>): seq<byte> {
    if xs == [] then [] else e(xs[0]) + Joined(e, xs[1..])
  }

  function VecBytes<T>(e: T -> seq<byte>, xs: seq<T>): seq<byte> { VarIntBytes(|xs|) + Joined(e, xs) }

  lemma {:induction false} JoinedGrows<T>(e: T -> seq<byte>, xs: seq<T>, x: T)
    ensures Joined(e, xs + [x]) == Joined(e, xs) + e(x)
  {
    if xs == [] {
      assert xs + [x] == [x] && [x][1..] == [];
      assert e(x) + [] == e(x) == [] + e(x);
    } else {
      JoinedGrows(e, xs[1..], x);
      assert (xs + [x])[1..] == xs[1..] + [x];
      assert e(xs[0]) + (Joined(e, xs[1..]) + e(x)) == e(xs[0]) + Joined(e, xs[1..]) + e(x);
    }
  }

  /** Reading gives back what was written, and stops there. */
  ghost predicate ReadsBack<T>(p: seq<byte> -> Parsed<T>, e: T -> seq<byte>, x: T) {
    forall tail: seq<byte> :: p(e(x) + tail) == Parsed(x, tail)
  }

  lemma {:induction false} ManyRoundTrip<T>(p: seq<byte> -> Parsed<T>, e: T -> seq<byte>, xs: seq<T>, tail: seq<byte>)
    requires forall i :: 0 <= i < |xs| ==> ReadsBack(p, e, xs[i])
    ensures ParseMany(p, |xs|, Joined(e, xs) + tail) == Parsed(xs, tail)
  {
    if xs == [] {
      assert [] + tail == tail;
    } else {
      forall i | 0 <= i < |xs| - 1 ensures ReadsBack(p, e, xs[1..][i]) { assert xs[1..][i] == xs[i + 1]; }
      ManyRoundTrip(p, e, xs[1..], tail);
      var more := Joined(e, xs[1..]) + tail;
      assert Joined(e, xs) + tail == e(xs[0]) + more;
      assert ReadsBack(p, e, xs[0]) && p(e(xs[0]) + more) == Parsed(xs[0], more);
      assert [xs[0]] + xs[1..] == xs;
    }
  }

  lemma {:induction false} VecRoundTrip<T>(p: seq<byte> -> Parsed<T>, e: T -> seq<byte>, xs: seq<T>, tail: seq<byte>)
    requires |xs| < U64 && forall i :: 0 <= i < |xs| ==> ReadsBack(p, e, xs[i])
    ensures ParseVec(p, VecBytes(e, xs) + tail) == Parsed(xs, tail)
  {
    VarIntRoundTrip(|xs|, Joined(e, xs) + tail);
    assert VecBytes(e, xs) + tail == VarIntBytes(|xs|) + (Joined(e, xs) + tail);
    ManyRoundTrip(p, e, xs, tail);
  }

  /** `Vec<u8>`: the length, and the bytes as they are. */
  function ParseBytes(b: seq<byte>): Parsed<seq<byte>> {
    match ParseVarInt(b)
    case Failure(e) => Failure(e)
    case Parsed(n, rest) => ParseExact(n, rest)
  }

  function BytesBytes(s: seq<byte>): seq<byte> { VarIntBytes(|s|) + s }

  function ParseString(b: seq<byte>): Parsed<seq<byte>> {
    match ParseBytes(b)
    case Failure(e) => Failure(e)
    case Parsed(s, rest) => if ValidUtf8(s) then Parsed(s, rest) else Failure(ParseFailed)
  }

  lemma {:induction false} BytesRoundTrip(s: seq<byte>, tail: seq<byte>)
    requires |s| < U64
    ensures ParseBytes(BytesBytes(s) + tail) == Parsed(s, tail)
    ensures ValidUtf8(s) ==> ParseString(BytesBytes(s) + tail) == Parsed(s, tail)
  {
    hide VarIntBytes, ParseVarInt, ValidUtf8;
    VarIntRoundTrip(|s|, s + tail);
    assert BytesBytes(s) + tail == VarIntBytes(|s|) + (s + tail);
    assert (s + tail)[..|s|] == s && (s + tail)[|s|..] == tail;
  }

  /* ----- the reader ----- */

  /** A result and the bytes left to read are what the parse says; after an error anything may be left. */
  predicate Agrees<T(==)>(r: Result<T, Error>, left: seq<byte>, p: Parsed<T>) {
    match p
    case Parsed(v, rest) => r == Ok(v) && left == rest
    case Failure(e) => r == Err(e)
  }

  class Reader {
    const data: seq<byte>
    var pos: nat

    ghost predicate Valid()
      reads this
    {
      pos <= |data|
    }

    function Rest(): seq<byte>
      requires Valid()
      reads this
    {
      data[pos..]
    }

    constructor (data: seq<byte>)
      ensures Valid() && Rest() == data && this.data == data
    {
      this.data := data;
      pos := 0;
    }

    method ReadExact(n: nat) returns (r: Result<seq<byte>, Error>)
      requires Valid()
      modifies this
      ensures Valid() && Agrees(r, Rest(), ParseExact(n, old(Rest())))
    {
      if n > |data| - pos {
        return Err(UnexpectedEof);
      }
      assert data[pos..][..n] == data[pos..pos + n] && data[pos..][n..] == data[pos + n..];
      r := Ok(data[pos..pos + n]);
      pos := pos + n;
    }

    method ReadLe(n: nat) returns (r: Result<nat, Error>)
      requires Valid()
      modifies this
      ensures Valid() && Agrees(r, Rest(), ParseLe(n, old(Rest())))
    {
      var slice := ReadExact(n);
      if slice.Err? {
        return Err(slice.error);
      }
      var v := SliceToLe(slice.value);
      r := Ok(v);
    }

    method ReadU8() returns (r: Result<byte, Error>)
      requires Valid()
      modifies this
      ensures Valid()
      ensures if old(Rest()) == [] then r == Err(UnexpectedEof)
        else r == Ok(old(Rest())[0]) && Rest() == old(Rest())[1..]
    {
      var slice := ReadExact(1);
      if slice.Err? {
        return Err(slice.error);
      }
      r := Ok(slice.value[0]);
    }

    method DecodeVarInt() returns (r: Result<nat, Error>)
      requires Valid()
      modifies this
      ensures Valid() && Agrees(r, Rest(), ParseVarInt(old(Rest())))
    {
      hide LeValue;
      var n := ReadU8();
      if n.Err? {
        return Err(n.error);
      }
      match n.value {
        case 0xFF =>
          var x := ReadLe(8);
          r := if x.Ok? && x.value < 0x1_0000_0000 then Err(NonMinimalVarInt) else x;
        case 0xFE =>
          var x := ReadLe(4);
          r := if x.Ok? && x.value < 0x1_0000 then Err(NonMinimalVarInt) else x;
        case 0xFD =>
          var x := ReadLe(2);
          r := if x.Ok? && x.value < 0xFD then Err(NonMinimalVarInt) else x;
        case _ =>
          r := Ok(n.value);
      }
    }

    method DecodeString() returns (r: Result<seq<byte>, Error>)
      requires Valid()
      modifies this
      ensures Valid() && Agrees(r, Rest(), ParseString(old(Rest())))
    {
      hide ValidUtf8, ParseVarInt;
      var n := DecodeVarInt();
      if n.Err? {
        return Err(n.error);
      }
      r := ReadExact(n.value);
      if r.Ok? && !ValidUtf8(r.value) {
        r := Err(ParseFailed);
      }
    }
  }

  /* ----- the writer ----- */

  class Writer {
    var output: seq<byte>

    constructor ()
      ensures output == []
    {
      output := [];
    }

    method WriteSlice(s: seq<byte>)
      modifies this
      ensures output == old(output) + s
    {
      output := output + s;
    }

    method WriteLe(v: nat, n: nat)
      modifies this
      ensures output == old(output) + LeBytes(v, n)
    {
      var a := ToArrayLe(v, n);
      WriteSlice(a[..]);
    }

    /** The result is the number of bytes written. */
    method EncodeVarInt(v: nat) returns (len: nat)
      requires v < U64
      modifies this
      ensures output == old(output) + VarIntBytes(v) && len == |VarIntBytes(v)|
    {
      hide LeBytes;
      if v <= 0xFC {
        WriteSlice([v]);
        len := 1;
      } else if v <= 0xFFFF {
        WriteSlice([0xFD]);
        WriteLe(v, 2);
        len := 3;
      } else if v <= 0xFFFF_FFFF {
        WriteSlice([0xFE]);
        WriteLe(v, 4);
        len := 5;
      } else {
        WriteSlice([0xFF]);
        WriteLe(v, 8);
        len := 9;
      }
    }
  }
}
