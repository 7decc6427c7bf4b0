/** net/messages.rs and async_serial.rs: packets on a stream. */
module Wire {
  import opened Wrappers
  import opened Bytes
  import opened Endian
  import opened Utf8
  import opened Serial

  const MAGIC_BYTES: seq<byte> := [0xd9, 0xef, 0xb6, 0x7d]

  datatype Packet = Packet(command: seq<byte>, payload: seq<byte>)

  function PacketBytes(p: Packet): seq<byte> { MAGIC_BYTES + BytesBytes(p.command) + BytesBytes(p.payload) }

  function ParsePacket(b: seq<byte>): Parsed<Packet> {
    match ParseExact(4, b)
    case Failure(e) => Failure(e)
    case Parsed(magic, b1) =>
      if magic != MAGIC_BYTES then Failure(MalformedPacket)
      else
        match ParseBytes(b1)
        case Failure(e) => Failure(e)
        case Parsed(command, b2) =>
          if !ValidUtf8(command) then Failure(Utf8Error)
          else
            match ParseBytes(b2)
            case Failure(e) => Failure(e)
            case Parsed(payload, b3) => Parsed(Packet(command, payload), b3)
  }

  /** What a packet may hold: the command is a string, which may be empty. */
  predicate WellFormed(p: Packet) { ValidUtf8(p.command) && |p.command| < U64 && |p.payload| < U64 }

  lemma {:induction false} BytesReadIff(b: seq<byte>, s: seq<byte>, rest: seq<byte>)
    ensures ParseBytes(b) == Parsed(s, rest) <==> |s| < U64 && b == BytesBytes(s) + rest
  {
    hide VarIntBytes, ParseVarInt;
    if |s| < U64 && b == BytesBytes(s) + rest { BytesRoundTrip(s, rest); }
    match ParseVarInt(b)
    case Failure(_) =>
    case Parsed(n, after) =>
      OnlyMinimalVarInts(b, n, after);
      if ParseBytes(b) == Parsed(s, rest) { assert after == s + rest; }
  }

  /** There is exactly one form of every packet that is read, those with an empty command included. */
  lemma {:induction false} PacketReadIff(b: seq<byte>, p: Packet, rest: seq<byte>)
    ensures ParsePacket(b) == Parsed(p, rest) <==> WellFormed(p) && b == PacketBytes(p) + rest
  {
    hide ParseBytes, BytesBytes, ValidUtf8;
    var afterCommand := BytesBytes(p.payload) + rest;
    var afterMagic := BytesBytes(p.command) + afterCommand;
    assert PacketBytes(p) + rest == MAGIC_BYTES + afterMagic;
    if b == MAGIC_BYTES + afterMagic { assert b[..4] == MAGIC_BYTES && b[4..] == afterMagic; }
    BytesReadIff(afterMagic, p.command, afterCommand);
    BytesReadIff(afterCommand, p.payload, rest);
    if ParsePacket(b) == Parsed(p, rest) {
      var b1 := b[4..];
      var b2 := ParseBytes(b1).rest;
      BytesReadIff(b1, p.command, b2);
      BytesReadIff(b2, p.payload, rest);
      assert b == b[..4] + b1;
    }
  }

  /** A packet with short parts, byte by byte. */
  lemma PacketLayout(command: seq<byte>, payload: seq<byte>)
    requires |command| < 0xFD && |payload| < 0xFD
    ensures PacketBytes(Packet(command, payload))
         == [0xd9, 0xef, 0xb6, 0x7d, |command|] + command + [|payload|] + payload
  {}

  /** What is refused: bytes that do not start as a packet does, and a command that is no string. */
  lemma {:induction false} NoPacket(b: seq<byte>, command: seq<byte>, rest: seq<byte>)
    ensures |b| >= 4 && b[..4] != MAGIC_BYTES ==> ParsePacket(b) == Failure(MalformedPacket)
    ensures |b| < 4 ==> ParsePacket(b) == Failure(UnexpectedEof)
    ensures |command| < U64 && !ValidUtf8(command) ==>
      ParsePacket(MAGIC_BYTES + (BytesBytes(command) + rest)) == Failure(Utf8Error)
  {
    hide ParseBytes, BytesBytes, ValidUtf8;
    var more := BytesBytes(command) + rest;
    BytesReadIff(more, command, rest);
    assert (MAGIC_BYTES + more)[..4] == MAGIC_BYTES && (MAGIC_BYTES + more)[4..] == more;
  }

  /** What sending puts on the stream before it ends: the assertion that the command is not empty comes after
      its length. */
  function SentBytes(p: Packet): seq<byte> {
    if p.command == [] then MAGIC_BYTES + VarIntBytes(0) else PacketBytes(p)
  }

  /** A packet with an empty command is read. */
  lemma EmptyCommandIsRead(payload: seq<byte>, rest: seq<byte>)
    requires |payload| < U64
    ensures ParsePacket(PacketBytes(Packet([], payload)) + rest) == Parsed(Packet([], payload), rest)
  {
    var p := Packet([], payload);
    PacketReadIff(PacketBytes(p) + rest, p, rest);
  }

  /** Sending a packet that was read reproduces the bytes it was read from exactly when its command is not
      empty. */
  lemma {:induction false} ResentIffCommandNotEmpty(b: seq<byte>, p: Packet, rest: seq<byte>)
    requires ParsePacket(b) == Parsed(p, rest)
    ensures SentBytes(p) + rest == b <==> p.command != []
  {
    hide ParsePacket, VarIntBytes, ValidUtf8;
    PacketReadIff(b, p, rest);
    if p.command == [] {
      var length := VarIntBytes(|p.payload|);
      assert |length| > 0 by { LengthNotEmpty(|p.payload|); }
      assert |b| == |MAGIC_BYTES| + |VarIntBytes(0)| + |length| + |p.payload| + |rest|;
    }
  }

  lemma LengthNotEmpty(n: nat)
    requires n < U64
    ensures |VarIntBytes(n)| > 0
  {}

  /** Packets written one after the other are read back as the same packets, with nothing left over. */
  lemma {:induction false} PacketStream(ps: seq<Packet>, tail: seq<byte>)
    requires forall i :: 0 <= i < |ps| ==> WellFormed(ps[i])
    ensures ParseMany(ParsePacket, |ps|, Joined(PacketBytes, ps) + tail) == Parsed(ps, tail)
  {
    forall i | 0 <= i < |ps| ensures ReadsBack(ParsePacket, PacketBytes, ps[i]) {
      forall tail: seq<byte> ensures ParsePacket(PacketBytes(ps[i]) + tail) == Parsed(ps[i], tail) {
        PacketReadIff(PacketBytes(ps[i]) + tail, ps[i], tail);
      }
    }
    ManyRoundTrip(ParsePacket, PacketBytes, ps, tail);
  }

  /** The two directions of a connection: the bytes not yet received and the bytes sent. */
  class Stream {
    var incoming: seq<byte>
    var sent: seq<byte>

    constructor (incoming: seq<byte>)
      ensures this.incoming == incoming && sent == []
    {
      this.incoming := incoming;
      sent := [];
    }

    method ReadExact(n: nat) returns (r: Result<seq<byte>, Error>)
      modifies this`incoming
      ensures Agrees(r, incoming, ParseExact(n, old(incoming)))
    {
      if n > |incoming| {
        incoming := [];
        return Err(UnexpectedEof);
      }
      r := Ok(incoming[..n]);
      incoming := incoming[n..];
    }

    method ReadLe(n: nat) returns (r: Result<nat, Error>)
      modifies this`incoming
      ensures Agrees(r, incoming, ParseLe(n, old(incoming)))
    {
      var slice := ReadExact(n);
      if slice.Err? {
        return Err(slice.error);
      }
      var v := SliceToLe(slice.value);
      r := Ok(v);
    }

    /** `decode_async`: reads what the synchronous decoder reads. */
    method DecodeAsync() returns (r: Result<nat, Error>)
      modifies this`incoming
      ensures Agrees(r, incoming, ParseVarInt(old(incoming)))
    {
      hide LeValue;
      var n := ReadExact(1);
      if n.Err? {
        return Err(n.error);
      }
      match n.value[0] {
        case 0xFF =>
          var x := ReadLe(8);
          r := if x.Ok? && x.value < 0x1_0000_0000 then Err(NonMinimalVarInt) else x;
        case 0xFE =>
          var x := ReadLe(4);
          r := if x.Ok? && x.value < 0x1_0000 then Err(NonMinimalVarInt) else x;
        case 0xFD =>
          var x := ReadLe(2);
          r := if x.Ok? && x.value < 0xFD then Err(NonMinimalVarInt) else x;
        case small =>
          r := Ok(small);
      }
    }

    method WriteAll(s: seq<byte>)
      modifies this`sent
      ensures sent == old(sent) + s
    {
      sent := sent + s;
    }

    method WriteLe(v: nat, n: nat)
      modifies this`sent
      ensures sent == old(sent) + LeBytes(v, n)
    {
      var a := ToArrayLe(v, n);
      WriteAll(a[..]);
    }

    /** `encode_async`: writes what the synchronous encoder writes. */
    method EncodeAsync(v: nat) returns (len: nat)
      requires v < U64
      modifies this`sent
      ensures sent == old(sent) + VarIntBytes(v) && len == |VarIntBytes(v)|
    {
      hide LeBytes;
      if v <= 0xFC {
        WriteAll([v]);
        len := 1;
      } else if v <= 0xFFFF {
        WriteAll([0xFD]);
        WriteLe(v, 2);
        len := 3;
      } else if v <= 0xFFFF_FFFF {
        WriteAll([0xFE]);
        WriteLe(v, 4);
        len := 5;
      } else {
        WriteAll([0xFF]);
        WriteLe(v, 8);
        len := 9;
      }
    }

    method ReadPacket() returns (r: Result<Packet, Error>)
      modifies this`incoming
      ensures Agrees(r, incoming, ParsePacket(old(incoming)))
    {
      hide ParseVarInt, ValidUtf8;
      var magic := ReadExact(4);
      if magic.Err? {
        return Err(magic.error);
      }
      if magic.value != MAGIC_BYTES {
        return Err(MalformedPacket);
      }
      var commandLen := DecodeAsync();
      if commandLen.Err? {
        return Err(commandLen.error);
      }
      var command := Ok([]);
      if commandLen.value > 0 {
        command := ReadExact(commandLen.value);
        if command.Err? {
          return Err(command.error);
        }
      }
      if !ValidUtf8(command.value) {
        return Err(Utf8Error);
      }
      var payloadLen := DecodeAsync();
      if payloadLen.Err? {
        return Err(payloadLen.error);
      }
      var payload := Ok([]);
      if payloadLen.value > 0 {
        payload := ReadExact(payloadLen.value);
        if payload.Err? {
          return Err(payload.error);
        }
      }
      r := Ok(Packet(command.value, payload.value));
    }

    /** The source asserts that the command is not empty, after its length has been written: `ok` says that
        the assertion holds and sending comes to its end. */
    method SendPacket(p: Packet) returns (ok: bool)
      requires |p.command| < U64 && |p.payload| < U64
      modifies this`sent
      ensures ok <==> p.command != []
      ensures sent == old(sent) + SentBytes(p)
    {
      hide VarIntBytes;
      WriteAll(MAGIC_BYTES);
      var _ := EncodeAsync(|p.command|);
      if p.command == [] {
        return false;
      }
      WriteAll(p.command);
      var _ := EncodeAsync(|p.payload|);
      if |p.payload| > 0 {
        WriteAll(p.payload);
      }
      assert sent
           == old(sent) + MAGIC_BYTES + (VarIntBytes(|p.command|) + p.command) + (VarIntBytes(|p.payload|) + p.payload);
      ok := true;
    }
  }
}
