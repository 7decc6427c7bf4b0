/** Strings as the bytes that encode them in UTF-8, as RFC 3629 defines it. */
module Utf8 {
  import opened Bytes

  predicate Continues(s: seq<byte>, k: nat) { k < |s| && 0x80 <= s[k] <= 0xBF }

  /** The number of bytes of the first character; zero when there is none. */
  function CharLength(s: seq<byte>): (n: nat)
    ensures n <= |s|
  {
    if s == [] then 0
    else if s[0] < 0x80 then 1
    else if 0xC2 <= s[0] <= 0xDF && Continues(s, 1) then 2
    else if 0xE0 <= s[0] <= 0xEF && Continues(s, 1) && Continues(s, 2)
            && (s[0] == 0xE0 ==> s[1] >= 0xA0) && (s[0] == 0xED ==> s[1] <= 0x9F) then 3
    else if 0xF0 <= s[0] <= 0xF4 && Continues(s, 1) && Continues(s, 2) && Continues(s, 3)
            && (s[0] == 0xF0 ==> s[1] >= 0x90) && (s[0] == 0xF4 ==> s[1] <= 0x8F) then 4
    else 0
  }

  predicate ValidUtf8(s: seq<byte>) {
    s == [] || (CharLength(s) > 0 && ValidUtf8(s[CharLength(s)..]))
  }

  /** The number of characters. */
  function CharCount(s: seq<byte>): nat
    requires ValidUtf8(s)
  {
    if s == [] then 0 else 1 + CharCount(s[CharLength(s)..])
  }

  predicate IsAscii(s: seq<byte>) { forall i :: 0 <= i < |s| ==> s[i] < 0x80 }

  /** A string has as many characters as bytes exactly when it is ASCII. */
  lemma {:induction false} CountIsLengthIffAscii(s: seq<byte>)
    requires ValidUtf8(s)
    ensures CharCount(s) <= |s| && (CharCount(s) == |s| <==> IsAscii(s))
  {
    if s != [] {
      var rest := s[CharLength(s)..];
      CountIsLengthIffAscii(rest);
      if CharLength(s) == 1 {
        assert s == [s[0]] + rest;
      } else {
        assert s[0] >= 0x80;
      }
    }
  }

  /* ----- against the definition of the encoding ----- */

  /** Unicode scalar values: code points that are no surrogates. */
  predicate IsScalarValue(c: nat) { c < 0xD800 || 0xE000 <= c <= 0x10FFFF }

  /** The bytes of one character: six bits in every byte after the first. */
  function EncodeChar(c: nat): (r: seq<byte>)
    requires IsScalarValue(c)
    ensures 0 < |r| <= 4
  {
    if c < 0x80 then [c]
    else if c < 0x800 then [0xC0 + c / 0x40, 0x80 + c % 0x40]
    else if c < 0x1_0000 then [0xE0 + c / 0x1000, 0x80 + c / 0x40 % 0x40, 0x80 + c % 0x40]
    else [0xF0 + c / 0x4_0000, 0x80 + c / 0x1000 % 0x40, 0x80 + c / 0x40 % 0x40, 0x80 + c % 0x40]
  }

  predicate AreScalarValues(cs: seq<nat>) { forall i :: 0 <= i < |cs| ==> IsScalarValue(cs[i]) }

  function EncodeText(cs: seq<nat>): seq<byte>
    requires AreScalarValues(cs)
  {
    if cs == [] then [] else EncodeChar(cs[0]) + EncodeText(cs[1..])
  }

  lemma {:induction false} EncodedChar(c: nat, rest: seq<byte>)
    requires IsScalarValue(c)
    ensures CharLength(EncodeChar(c) + rest) == |EncodeChar(c)|
  {
    var s := EncodeChar(c) + rest;
    assert forall i :: 0 <= i < |EncodeChar(c)| ==> s[i] == EncodeChar(c)[i];
  }

  /** The character that a prefix encodes. */
  function DecodeChar(s: seq<byte>): (c: nat)
    requires CharLength(s) > 0
  {
    var n := CharLength(s);
    var (a: int, b: int) := (s[0], if n > 1 then s[1] - 0x80 else 0);
    var (c: int, d: int) := (if n > 2 then s[2] - 0x80 else 0, if n > 3 then s[3] - 0x80 else 0);
    if n == 1 then a
    else if n == 2 then (a - 0xC0) * 0x40 + b
    else if n == 3 then (a - 0xE0) * 0x1000 + b * 0x40 + c
    else (a - 0xF0) * 0x4_0000 + b * 0x1000 + c * 0x40 + d
  }

  lemma Sixes(a: nat, b: nat, c: nat, d: nat)
    requires b < 0x40 && c < 0x40 && d < 0x40
    ensures (a * 0x40 + b) / 0x40 == a && (a * 0x40 + b) % 0x40 == b
    ensures var m := a * 0x1000 + b * 0x40 + c; m / 0x1000 == a && m / 0x40 % 0x40 == b && m % 0x40 == c
    ensures var m := a * 0x4_0000 + b * 0x1000 + c * 0x40 + d;
            m / 0x4_0000 == a && m / 0x1000 % 0x40 == b && m / 0x40 % 0x40 == c && m % 0x40 == d
  {}

  lemma {:induction false} DecodedTwo(s: seq<byte>)
    requires CharLength(s) == 2
    ensures IsScalarValue(DecodeChar(s)) && EncodeChar(DecodeChar(s)) == s[..2]
  {
    Sixes(s[0] - 0xC0, s[1] - 0x80, 0, 0);
  }

  lemma {:induction false} DecodedThree(s: seq<byte>)
    requires CharLength(s) == 3
    ensures IsScalarValue(DecodeChar(s)) && EncodeChar(DecodeChar(s)) == s[..3]
  {
    Sixes(s[0] - 0xE0, s[1] - 0x80, s[2] - 0x80, 0);
  }

  lemma {:induction false} DecodedFour(s: seq<byte>)
    requires CharLength(s) == 4
    ensures IsScalarValue(DecodeChar(s)) && EncodeChar(DecodeChar(s)) == s[..4]
  {
    Sixes(s[0] - 0xF0, s[1] - 0x80, s[2] - 0x80, s[3] - 0x80);
  }

  lemma {:induction false} DecodedOne(s: seq<byte>)
    requires CharLength(s) == 1
    ensures IsScalarValue(DecodeChar(s)) && EncodeChar(DecodeChar(s)) == s[..1]
  {}

  lemma {:induction false} LengthUpToFour(s: seq<byte>)
    ensures CharLength(s) <= 4
  {}

  lemma {:induction false} DecodedChar(s: seq<byte>)
    requires CharLength(s) > 0
    ensures IsScalarValue(DecodeChar(s)) && EncodeChar(DecodeChar(s)) == s[..CharLength(s)]
  {
    hide CharLength, DecodeChar, EncodeChar, IsScalarValue;
    LengthUpToFour(s);
    var n := CharLength(s);
    if n == 1 {
      DecodedOne(s);
    } else if n == 2 {
      DecodedTwo(s);
    } else if n == 3 {
      DecodedThree(s);
    } else {
      DecodedFour(s);
    }
  }

  lemma {:induction false} EncodedIsValid(cs: seq<nat>)
    requires AreScalarValues(cs)
    ensures ValidUtf8(EncodeText(cs)) && CharCount(EncodeText(cs)) == |cs|
  {
    hide EncodeChar, CharLength;
    if cs != [] {
      EncodedIsValid(cs[1..]);
      EncodedChar(cs[0], EncodeText(cs[1..]));
      assert EncodeText(cs)[|EncodeChar(cs[0])|..] == EncodeText(cs[1..]);
    }
  }

  lemma {:induction false} ValidIsEncoded(s: seq<byte>) returns (cs: seq<nat>)
    requires ValidUtf8(s)
    ensures AreScalarValues(cs) && EncodeText(cs) == s
  {
    hide EncodeChar, CharLength, DecodeChar, IsScalarValue;
    if s == [] {
      cs := [];
    } else {
      var rest := ValidIsEncoded(s[CharLength(s)..]);
      DecodedChar(s);
      cs := [DecodeChar(s)] + rest;
      assert cs[1..] == rest;
    }
  }

  /** Valid bytes are exactly the encodings of texts; the number of characters is that of the text. */
  lemma {:induction false} ValidIffEncoded(s: seq<byte>)
    ensures ValidUtf8(s) <==> exists cs: seq<nat> :: AreScalarValues(cs) && EncodeText(cs) == s
    ensures forall cs: seq<nat> :: AreScalarValues(cs) && EncodeText(cs) == s ==> ValidUtf8(s) && CharCount(s) == |cs|
  {
    if ValidUtf8(s) { var cs := ValidIsEncoded(s); }
    forall cs: seq<nat> | AreScalarValues(cs) && EncodeText(cs) == s ensures ValidUtf8(s) && CharCount(s) == |cs| {
      EncodedIsValid(cs);
    }
  }
}
