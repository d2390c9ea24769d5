/** Bytes, byte strings and the fixed-width integer encodings of nabu_proto.h. */
module Bytes {

  type byte = x: int | 0 <= x < 256

  type bytes = seq<byte>

  const UINT16_MAX: nat := 0xffff
  const UINT32_MAX: nat := 0xffff_ffff

  function Min(a: int, b: int): int { if a < b then a else b }

  function Max(a: int, b: int): int { if a < b then b else a }

  function Zeros(n: nat): (z: bytes)
    ensures |z| == n && forall k :: 0 <= k < n ==> z[k] == 0
  {
    seq(n, _ => 0)
  }

  lemma ConcatAssociative<T>(x: seq<T>, y: seq<T>, z: seq<T>)
    ensures x + (y + z) == (x + y) + z
  {
  }

  function SetU16(v: nat): (b: bytes)
    requires v <= UINT16_MAX
  {
    [v % 256, v / 256]
  }

  function GetU16(b: bytes): nat
    requires |b| == 2
  {
    b[0] as int + 256 * b[1] as int
  }

  function SetU16Be(v: nat): (b: bytes)
    requires v <= UINT16_MAX
  {
    [v / 256, v % 256]
  }

  function GetU16Be(b: bytes): nat
    requires |b| == 2
  {
    256 * b[0] as int + b[1] as int
  }

  function SetU24Be(v: nat): (b: bytes)
    requires v <= UINT32_MAX
  {
    [v / 0x1_0000 % 256, v / 256 % 256, v % 256]
  }

  function SetU32Be(v: nat): (b: bytes)
    requires v <= UINT32_MAX
  {
    [v / 0x100_0000, v / 0x1_0000 % 256, v / 256 % 256, v % 256]
  }

  function GetU32Be(b: bytes): (v: nat)
    requires |b| == 4
    ensures v <= UINT32_MAX
  {
    0x100_0000 * b[0] as int + 0x1_0000 * b[1] as int + 256 * b[2] as int + b[3] as int
  }

  lemma U16Inverse(v: nat, b: bytes)
    requires v <= UINT16_MAX && |b| == 2
    ensures GetU16(SetU16(v)) == v && SetU16(GetU16(b)) == b
    ensures GetU16Be(SetU16Be(v)) == v && SetU16Be(GetU16Be(b)) == b
  {
    assert b == [b[0], b[1]];
  }

  /** Reading a network-order word undoes writing it, and the other way round. */
  lemma U32BeInverse(v: nat, b: bytes)
    requires v <= UINT32_MAX && |b| == 4
    ensures GetU32Be(SetU32Be(v)) == v
    ensures SetU32Be(GetU32Be(b)) == b
  {
    var w := GetU32Be(b);
    assert w / 256 == 0x1_0000 * b[0] as int + 256 * b[1] as int + b[2] as int;
    assert w / 0x1_0000 == 256 * b[0] as int + b[1] as int;
    assert w / 0x100_0000 == b[0];
    assert SetU32Be(w) == b;
    assert v / 0x1_0000 == v / 256 / 256 && v / 0x100_0000 == v / 256 / 256 / 256;
  }

  /** The number that bytes denote, most significant first. */
  function Big(b: bytes): nat {
    if b == [] then 0 else 256 * Big(b[..|b| - 1]) + b[|b| - 1] as int
  }

  /** The number that bytes denote, least significant first. */
  function Little(b: bytes): nat {
    if b == [] then 0 else b[0] as int + 256 * Little(b[1..])
  }

  lemma BigSnoc(b: bytes, c: byte)
    ensures Big(b + [c]) == 256 * Big(b) + c as int
  {
    assert (b + [c])[..|b|] == b;
  }

  lemma LittleCons(c: byte, b: bytes)
    ensures Little([c] + b) == c as int + 256 * Little(b)
  {
    assert ([c] + b)[1..] == b;
  }

  lemma LittlePair(c: byte, d: byte)
    ensures Little([c, d]) == c as int + 256 * d as int
  {
    LittleCons(d, []);
    LittleCons(c, [d]);
    assert [d] + [] == [d] && [c] + [d] == [c, d];
  }

  lemma BigTriple(b: byte, c: byte, d: byte)
    ensures Big([b, c]) == 256 * b as int + c as int
    ensures Big([b, c, d]) == 0x1_0000 * b as int + 256 * c as int + d as int
  {
    BigSnoc([], b);
    BigSnoc([b], c);
    BigSnoc([b, c], d);
    assert [] + [b] == [b] && [b] + [c] == [b, c] && [b, c] + [d] == [b, c, d];
  }

  /** The fixed-width encodings write their number, in the order their name says. */
  lemma WordsDenote(v: nat)
    requires v <= UINT32_MAX
    ensures v <= UINT16_MAX ==> Little(SetU16(v)) == v && Big(SetU16Be(v)) == v
    ensures Big(SetU24Be(v)) == v % 0x100_0000
    ensures Big(SetU32Be(v)) == v
  {
    if v <= UINT16_MAX {
      LittlePair(v % 256, v / 256);
      BigTriple(v / 256, v % 256, 0);
    }
    var b := SetU24Be(v);
    BigTriple(b[0], b[1], b[2]);
    assert b == [b[0], b[1], b[2]];
    assert v / 0x1_0000 == v / 256 / 256;
    var w := SetU32Be(v);
    BigTriple(w[0], w[1], w[2]);
    BigSnoc([w[0], w[1], w[2]], w[3]);
    assert w == [w[0], w[1], w[2]] + [w[3]];
    assert v / 0x100_0000 == v / 256 / 256 / 256;
  }
}
