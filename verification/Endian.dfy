/** endian.rs: integers as little- and big-endian bytes. */
module Endian {
  import opened Bytes
  import opened Euclid

  function Pow256(n: nat): (r: nat)
    ensures r >= 1
  {
    if n == 0 then 1 else 256 * Pow256(n - 1)
  }

  function LeBytes(v: nat, n: nat): (r: seq<byte>)
    ensures |r| == n
  {
    if n == 0 then [] else [v % 256] + LeBytes(v / 256, n - 1)
  }

  function LeValue(s: seq<byte>): nat {
    if s == [] then 0 else s[0] + 256 * LeValue(s[1..])
  }

  /** Dividing byte by byte. */
  lemma NextByte(v: nat, p: nat)
    requires p > 0
    ensures v / (256 * p) == v / 256 / p && v % (256 * p) == 256 * (v / 256 % p) + v % 256
  {
    NextByteFrom(v, p, v / 256, v % 256, v / 256 / p, v / 256 % p);
  }

  lemma NextByteFrom(v: nat, p: nat, w: nat, b: nat, q: nat, r: nat)
    requires v == 256 * w + b && w == q * p + r && b < 256 && r < p
    ensures v / (256 * p) == q && v % (256 * p) == 256 * r + b
  {
    var m := 256 * p;
    assert q * m == 256 * (q * p);
    QuotientUnique(m, v / m, v % m, q, 256 * r + b);
  }

  /** Writing and reading back keeps the low bytes. */
  lemma {:induction false} BytesThenValue(v: nat, n: nat)
    ensures LeValue(LeBytes(v, n)) == v % Pow256(n)
  {
    if n > 0 {
      BytesThenValue(v / 256, n - 1);
      NextByte(v, Pow256(n - 1));
      assert LeBytes(v, n)[1..] == LeBytes(v / 256, n - 1);
    }
  }

  /** Reading and writing back keeps all bytes. */
  lemma {:induction false} ValueThenBytes(s: seq<byte>)
    ensures LeValue(s) < Pow256(|s|) && LeBytes(LeValue(s), |s|) == s
  {
    if s != [] {
      ValueThenBytes(s[1..]);
      QuotientUnique(256, LeValue(s) / 256, LeValue(s) % 256, LeValue(s[1..]), s[0]);
    }
  }

  lemma {:induction false} ByteAt(v: nat, n: nat, i: nat)
    requires i < n
    ensures LeBytes(v, n)[i] == v / Pow256(i) % 256
    decreases i
  {
    if i > 0 {
      ByteAt(v / 256, n - 1, i - 1);
      NextByte(v, Pow256(i - 1));
    }
  }

  lemma {:induction false} ValueGrows(s: seq<byte>, b: byte)
    ensures LeValue(s + [b]) == LeValue(s) + b * Pow256(|s|)
  {
    if s == [] {
      assert s + [b] == [b] && [b][1..] == [];
    } else {
      ValueGrows(s[1..], b);
      assert (s + [b])[1..] == s[1..] + [b];
      assert 256 * (b * Pow256(|s| - 1)) == b * Pow256(|s|);
    }
  }

  /** `u16_to_array_le` and the like. Shifting right by whole bytes and masking is division and
      remainder. */
  method ToArrayLe(val: nat, n: nat) returns (res: array<byte>)
    ensures fresh(res) && res[..] == LeBytes(val, n)
  {
    res := new byte[n](_ => 0);
    for i := 0 to n
      invariant forall k :: 0 <= k < i ==> res[k] == LeBytes(val, n)[k]
    {
      ByteAt(val, n, i);
      res[i] := val / Pow256(i) % 256;
    }
  }

  /** `slice_to_u16_le` and the like. The bytes are shifted to disjoint bits, so that joining them with
      "or" is addition. */
  method SliceToLe(slice: seq<byte>) returns (res: nat)
    ensures res == LeValue(slice)
  {
    res := 0;
    for i := 0 to |slice|
      invariant res == LeValue(slice[..i])
    {
      ValueGrows(slice[..i], slice[i]);
      assert slice[..i + 1] == slice[..i] + [slice[i]];
      res := res + slice[i] * Pow256(i);
    }
    assert slice[..|slice|] == slice;
  }

  function Reversed(s: seq<byte>): (r: seq<byte>)
    ensures |r| == |s| && forall i :: 0 <= i < |s| ==> r[i] == s[|s| - 1 - i]
  {
    seq(|s|, i requires 0 <= i < |s| => s[|s| - 1 - i])
  }

  /** `u32_to_array_be` */
  method ToArrayBe(val: nat, n: nat) returns (res: array<byte>)
    ensures fresh(res) && res[..] == Reversed(LeBytes(val, n))
  {
    res := new byte[n](_ => 0);
    for i := 0 to n
      invariant forall k :: 0 <= k < i ==> res[k] == Reversed(LeBytes(val, n))[k]
    {
      ByteAt(val, n, n - i - 1);
      res[i] := val / Pow256(n - i - 1) % 256;
    }
  }

  /** `slice_to_u32_be` */
  method SliceToBe(slice: seq<byte>) returns (res: nat)
    ensures res == LeValue(Reversed(slice))
  {
    res := 0;
    var n := |slice|;
    assert Reversed(slice)[..n] == Reversed(slice);
    for i := 0 to n
      invariant LeValue(Reversed(slice)) == res + LeValue(Reversed(slice)[..n - i])
    {
      var rest := Reversed(slice)[..n - i];
      ValueGrows(rest[..n - i - 1], slice[i]);
      assert rest == rest[..n - i - 1] + [slice[i]];
      assert rest[..n - i - 1] == Reversed(slice)[..n - i - 1];
      res := res + slice[i] * Pow256(n - i - 1);
    }
    assert Reversed(slice)[..0] == [];
  }
}
