/** CRC-8/CDMA2000 (libnabud/crc8_cdma2000.c): generator 0x9b, initial value 0xff, no final xor. */
module Crc8Cdma2000 {
  import opened Bytes
  import opened Gf2

  const POLY: bv8 := 0x9b

  /** POLY's coefficients, highest power first. */
  const G: bits :=
    [true, false, false, true, true, false, true, true]

  /** The register as a coefficient sequence. */
  function Reg(x: bv8): (r: bits)
    ensures |r| == |G| == 8
  {
    Top(x, |G|)
  }

  function Shift1(x: bv8): bv8 { if x >= 0x80 then (x << 1) ^ POLY else x << 1 }

  function Shifts(x: bv8, n: nat): bv8
    decreases n, x
  {
    if n == 0 then x else Shifts(Shift1(x), n - 1)
  }

  function Shift8(x: bv8): bv8 {
    Shift1(Shift1(Shift1(Shift1(Shift1(Shift1(Shift1(Shift1(x))))))))
  }

  lemma EightShift1s(x: bv8)
    ensures Shifts(x, 8) == Shift8(x)
  {
    var y := Shift1(Shift1(x));
    var z := Shift1(Shift1(y));
    var u := Shift1(Shift1(z));
    assert Shifts(x, 8) == Shifts(y, 6) == Shifts(z, 4) == Shifts(u, 2);
    assert Shifts(u, 2) == Shifts(Shift1(u), 1) == Shift1(Shift1(u));
  }

  // ----- The constant table, sixteen entries a row -----

  function Row0(lo: bv8): (r: bv8)
    requires lo < 16
    ensures r == Shift8(0x00 | lo)
  {
    match lo
    case 0 => 0x00 case 1 => 0x9b case 2 => 0xad case 3 => 0x36
    case 4 => 0xc1 case 5 => 0x5a case 6 => 0x6c case 7 => 0xf7
    case 8 => 0x19 case 9 => 0x82 case 10 => 0xb4 case 11 => 0x2f
    case 12 => 0xd8 case 13 => 0x43 case 14 => 0x75 case _ => 0xee
  }

  function Row1(lo: bv8): (r: bv8)
    requires lo < 16
    ensures r == Shift8(0x10 | lo)
  {
    match lo
    case 0 => 0x32 case 1 => 0xa9 case 2 => 0x9f case 3 => 0x04
    case 4 => 0xf3 case 5 => 0x68 case 6 => 0x5e case 7 => 0xc5
    case 8 => 0x2b case 9 => 0xb0 case 10 => 0x86 case 11 => 0x1d
    case 12 => 0xea case 13 => 0x71 case 14 => 0x47 case _ => 0xdc
  }

  function Row2(lo: bv8): (r: bv8)
    requires lo < 16
    ensures r == Shift8(0x20 | lo)
  {
    match lo
    case 0 => 0x64 case 1 => 0xff case 2 => 0xc9 case 3 => 0x52
    case 4 => 0xa5 case 5 => 0x3e case 6 => 0x08 case 7 => 0x93
    case 8 => 0x7d case 9 => 0xe6 case 10 => 0xd0 case 11 => 0x4b
    case 12 => 0xbc case 13 => 0x27 case 14 => 0x11 case _ => 0x8a
  }

  function Row3(lo: bv8): (r: bv8)
    requires lo < 16
    ensures r == Shift8(0x30 | lo)
  {
    match lo
    case 0 => 0x56 case 1 => 0xcd case 2 => 0xfb case 3 => 0x60
    case 4 => 0x97 case 5 => 0x0c case 6 => 0x3a case 7 => 0xa1
    case 8 => 0x4f case 9 => 0xd4 case 10 => 0xe2 case 11 => 0x79
    case 12 => 0x8e case 13 => 0x15 case 14 => 0x23 case _ => 0xb8
  }

  function Row4(lo: bv8): (r: bv8)
    requires lo < 16
    ensures r == Shift8(0x40 | lo)
  {
    match lo
    case 0 => 0xc8 case 1 => 0x53 case 2 => 0x65 case 3 => 0xfe
    case 4 => 0x09 case 5 => 0x92 case 6 => 0xa4 case 7 => 0x3f
    case 8 => 0xd1 case 9 => 0x4a case 10 => 0x7c case 11 => 0xe7
    case 12 => 0x10 case 13 => 0x8b case 14 => 0xbd case _ => 0x26
  }

  function Row5(lo: bv8): (r: bv8)
    requires lo < 16
    ensures r == Shift8(0x50 | lo)
  {
    match lo
    case 0 => 0xfa case 1 => 0x61 case 2 => 0x57 case 3 => 0xcc
    case 4 => 0x3b case 5 => 0xa0 case 6 => 0x96 case 7 => 0x0d
    case 8 => 0xe3 case 9 => 0x78 case 10 => 0x4e case 11 => 0xd5
    case 12 => 0x22 case 13 => 0xb9 case 14 => 0x8f case _ => 0x14
  }

  function Row6(lo: bv8): (r: bv8)
    requires lo < 16
    ensures r == Shift8(0x60 | lo)
  {
    match lo
    case 0 => 0xac case 1 => 0x37 case 2 => 0x01 case 3 => 0x9a
    case 4 => 0x6d case 5 => 0xf6 case 6 => 0xc0 case 7 => 0x5b
    case 8 => 0xb5 case 9 => 0x2e case 10 => 0x18 case 11 => 0x83
    case 12 => 0x74 case 13 => 0xef case 14 => 0xd9 case _ => 0x42
  }

  function Row7(lo: bv8): (r: bv8)
    requires lo < 16
    ensures r == Shift8(0x70 | lo)
  {
    match lo
    case 0 => 0x9e case 1 => 0x05 case 2 => 0x33 case 3 => 0xa8
    case 4 => 0x5f case 5 => 0xc4 case 6 => 0xf2 case 7 => 0x69
    case 8 => 0x87 case 9 => 0x1c case 10 => 0x2a case 11 => 0xb1
    case 12 => 0x46 case 13 => 0xdd case 14 => 0xeb case _ => 0x70
  }

  function Row8(lo: bv8): (r: bv8)
    requires lo < 16
    ensures r == Shift8(0x80 | lo)
  {
    match lo
    case 0 => 0x0b case 1 => 0x90 case 2 => 0xa6 case 3 => 0x3d
    case 4 => 0xca case 5 => 0x51 case 6 => 0x67 case 7 => 0xfc
    case 8 => 0x12 case 9 => 0x89 case 10 => 0xbf case 11 => 0x24
    case 12 => 0xd3 case 13 => 0x48 case 14 => 0x7e case _ => 0xe5
  }

  function Row9(lo: bv8): (r: bv8)
    requires lo < 16
    ensures r == Shift8(0x90 | lo)
  {
    match lo
    case 0 => 0x39 case 1 => 0xa2 case 2 => 0x94 case 3 => 0x0f
    case 4 => 0xf8 case 5 => 0x63 case 6 => 0x55 case 7 => 0xce
    case 8 => 0x20 case 9 => 0xbb case 10 => 0x8d case 11 => 0x16
    case 12 => 0xe1 case 13 => 0x7a case 14 => 0x4c case _ => 0xd7
  }

  function RowA(lo: bv8): (r: bv8)
    requires lo < 16
    ensures r == Shift8(0xa0 | lo)
  {
    match lo
    case 0 => 0x6f case 1 => 0xf4 case 2 => 0xc2 case 3 => 0x59
    case 4 => 0xae case 5 => 0x35 case 6 => 0x03 case 7 => 0x98
    case 8 => 0x76 case 9 => 0xed case 10 => 0xdb case 11 => 0x40
    case 12 => 0xb7 case 13 => 0x2c case 14 => 0x1a case _ => 0x81
  }

  function RowB(lo: bv8): (r: bv8)
    requires lo < 16
    ensures r == Shift8(0xb0 | lo)
  {
    match lo
    case 0 => 0x5d case 1 => 0xc6 case 2 => 0xf0 case 3 => 0x6b
    case 4 => 0x9c case 5 => 0x07 case 6 => 0x31 case 7 => 0xaa
    case 8 => 0x44 case 9 => 0xdf case 10 => 0xe9 case 11 => 0x72
    case 12 => 0x85 case 13 => 0x1e case 14 => 0x28 case _ => 0xb3
  }

  function RowC(lo: bv8): (r: bv8)
    requires lo < 16
    ensures r == Shift8(0xc0 | lo)
  {
    match lo
    case 0 => 0xc3 case 1 => 0x58 case 2 => 0x6e case 3 => 0xf5
    case 4 => 0x02 case 5 => 0x99 case 6 => 0xaf case 7 => 0x34
    case 8 => 0xda case 9 => 0x41 case 10 => 0x77 case 11 => 0xec
    case 12 => 0x1b case 13 => 0x80 case 14 => 0xb6 case _ => 0x2d
  }

  function RowD(lo: bv8): (r: bv8)
    requires lo < 16
    ensures r == Shift8(0xd0 | lo)
  {
    match lo
    case 0 => 0xf1 case 1 => 0x6a case 2 => 0x5c case 3 => 0xc7
    case 4 => 0x30 case 5 => 0xab case 6 => 0x9d case 7 => 0x06
    case 8 => 0xe8 case 9 => 0x73 case 10 => 0x45 case 11 => 0xde
    case 12 => 0x29 case 13 => 0xb2 case 14 => 0x84 case _ => 0x1f
  }

  function RowE(lo: bv8): (r: bv8)
    requires lo < 16
    ensures r == Shift8(0xe0 | lo)
  {
    match lo
    case 0 => 0xa7 case 1 => 0x3c case 2 => 0x0a case 3 => 0x91
    case 4 => 0x66 case 5 => 0xfd case 6 => 0xcb case 7 => 0x50
    case 8 => 0xbe case 9 => 0x25 case 10 => 0x13 case 11 => 0x88
    case 12 => 0x7f case 13 => 0xe4 case 14 => 0xd2 case _ => 0x49
  }

  function RowF(lo: bv8): (r: bv8)
    requires lo < 16
    ensures r == Shift8(0xf0 | lo)
  {
    match lo
    case 0 => 0x95 case 1 => 0x0e case 2 => 0x38 case 3 => 0xa3
    case 4 => 0x54 case 5 => 0xcf case 6 => 0xf9 case 7 => 0x62
    case 8 => 0x8c case 9 => 0x17 case 10 => 0x21 case 11 => 0xba
    case 12 => 0x4d case 13 => 0xd6 case 14 => 0xe0 case _ => 0x7b
  }

  /** A byte at the top of the register, shifted out: what crctab holds. */
  function ByteRemainder(v: bv8): bv8 { Shifts(v, 8) }

  /** crctab[c]. */
  method CrcTab(c: bv8) returns (r: bv8)
    ensures r == ByteRemainder(c)
  {
    var hi, lo := c >> 4, c & 15;
    if hi == 0 { r := Row0(lo); }
    else if hi == 1 { r := Row1(lo); }
    else if hi == 2 { r := Row2(lo); }
    else if hi == 3 { r := Row3(lo); }
    else if hi == 4 { r := Row4(lo); }
    else if hi == 5 { r := Row5(lo); }
    else if hi == 6 { r := Row6(lo); }
    else if hi == 7 { r := Row7(lo); }
    else if hi == 8 { r := Row8(lo); }
    else if hi == 9 { r := Row9(lo); }
    else if hi == 10 { r := RowA(lo); }
    else if hi == 11 { r := RowB(lo); }
    else if hi == 12 { r := RowC(lo); }
    else if hi == 13 { r := RowD(lo); }
    else if hi == 14 { r := RowE(lo); }
    else { r := RowF(lo); }
    NibblesJoin(c);
    EightShift1s(c);
  }

  lemma NibblesJoin(c: bv8)
    ensures ((c >> 4) << 4) | (c & 15) == c && c & 15 < 16 && c >> 4 < 16
  {
  }

  /** One iteration of the update loop. */
  function NextOctet(crc: bv8, v: bv8): bv8 {
    ByteRemainder(crc ^ v)
  }

  function Next(crc: bv8, b: byte): bv8 { NextOctet(crc, b as bv8) }

  function Updated(buf: bytes, crc: bv8): bv8
    decreases |buf|
  {
    if buf == [] then crc else Updated(buf[1..], Next(crc, buf[0]))
  }

  // ----- A machine word as a coefficient sequence -----

  function Dropped(w: bv8, n: nat): bv8
    decreases n, w
  {
    if n == 0 then w else Dropped(w << 1, n - 1)
  }

  lemma {:induction false} TopExtend(x: bv8, n: nat)
    ensures Top(x, n + 1) == Top(x, n) + [Dropped(x, n) >= 0x80]
    decreases n
  {
    if n > 0 {
      TopExtend(x << 1, n - 1);
    }
  }

  lemma {:induction false} DroppedMore(x: bv8, m: nat, n: nat)
    ensures Dropped(x, m + n) == Dropped(Dropped(x, m), n)
    decreases m
  {
    if m > 0 {
      DroppedMore(x << 1, m - 1, n);
    }
  }

  lemma FourShifts(x: bv8)
    ensures x << 1 << 1 << 1 << 1 == x << 4
  {
  }

  lemma DroppedFour(x: bv8)
    ensures Dropped(x, 4) == x << 4
  {
    FourShifts(x);
    assert Dropped(x, 4) == Dropped(x << 1 << 1, 2) == Dropped(x << 1 << 1 << 1, 1) == x << 1 << 1 << 1 << 1;
  }

  lemma EightShifts(x: bv8)
    ensures x << 4 << 4 == 0
  {
  }

  lemma AllDropped(x: bv8)
    ensures Dropped(x, |G|) == 0
  {
    DroppedFour(x);
    DroppedFour(x << 4);
    DroppedMore(x, 4, 4);
    EightShifts(x);
  }

  lemma ShiftTop(x: bv8)
    ensures Reg(x)[0] == (x >= 0x80)
    ensures Reg(x << 1) == Reg(x)[1..] + [false]
  {
    TopExtend(x, |G|);
    AllDropped(x);
    assert Top(x, |G| + 1)[1..] == Top(x << 1, |G|);
  }

  lemma PolyTop()
    ensures Reg(POLY) == G && Generator(G)
  {
    assert Top(0x9b, 8) == [true, false, false] + Top(0xd8, 5);
    assert Top(0xd8, 5) == [true, true, false] + Top(0xc0, 2) == G[3..];
  }

  lemma Shift1IsStep(x: bv8)
    ensures Reg(Shift1(x)) == Step(G, Reg(x), false)
  {
    ShiftTop(x);
    if x >= 0x80 {
      XorTop(x << 1, POLY, |G|);
      PolyTop();
    }
  }

  lemma {:induction false} ShiftsAreSteps(x: bv8, n: nat)
    ensures Reg(Shifts(x, n)) == Divide(G, Reg(x), Falses(n))
    decreases n
  {
    if n > 0 {
      Shift1IsStep(x);
      ShiftsAreSteps(Shift1(x), n - 1);
      assert Falses(n)[1..] == Falses(n - 1);
    }
  }

  /** One table lookup divides by the eight bits of the byte. */
  lemma NextIsDivision(crc: bv8, b: byte)
    ensures Reg(Next(crc, b)) == Divide(G, Reg(crc), BitsOf(b))
  {
    ShiftsAreSteps(crc ^ b as bv8, 8);
    XorTop(crc, b as bv8, |G|);
    TopOfByte(b, |G|);
    Absorb(G, Reg(crc), BitsOf(b));
  }

  /** The table-driven register is the polynomial remainder, for every message. */
  lemma {:induction false} UpdatedIsRemainder(buf: bytes, crc: bv8)
    ensures Reg(Updated(buf, crc)) == Remainder(G, buf, Reg(crc))
    decreases |buf|
  {
    if buf != [] {
      NextIsDivision(crc, buf[0]);
      UpdatedIsRemainder(buf[1..], Next(crc, buf[0]));
      MessageBitsByte(buf[0]);
      RemainderConcat(G, [buf[0]], buf[1..], Reg(crc));
      assert buf == [buf[0]] + buf[1..];
    }
  }

  lemma {:induction false} UpdatedConcat(a: bytes, b: bytes, crc: bv8)
    ensures Updated(a + b, crc) == Updated(b, Updated(a, crc))
    decreases |a|
  {
    if a == [] {
      assert a + b == b;
    } else {
      UpdatedConcat(a[1..], b, Next(crc, a[0]));
      assert (a + b)[1..] == a[1..] + b && (a + b)[0] == a[0];
    }
  }

  method Update(buf: bytes, start: bv8) returns (crc: bv8)
    ensures crc == Updated(buf, start)
  {
    crc := start;
    var i := 0;
    assert buf[0..] == buf;
    while i < |buf|
      invariant 0 <= i <= |buf|
      invariant Updated(buf[i..], crc) == Updated(buf, start)
    {
      assert buf[i..][1..] == buf[i + 1..];
      crc := CrcTab(crc ^ buf[i] as bv8);
      i := i + 1;
    }
  }

  // ----- The frame check sequence -----

  const INIT: bv8 := 0xff

  /** The check byte of a message; crc8_cdma2000_fini is the identity. */
  function Crc(msg: bytes): (c: byte) { Updated(msg, INIT) as int }

  /** The check byte is the remainder of the message, from a register of ones. */
  lemma CrcIsRemainder(msg: bytes)
    ensures BitsOf(Crc(msg)) == Remainder(G, msg, Trues(8))
  {
    UpdatedIsRemainder(msg, INIT);
    TopOfOctet(Updated(msg, INIT));
    TopOfOctet(0xff);
    OnesOf255();
  }

  /** Corrupting one byte changes the check byte of a message of any length. */
  lemma CorruptionDetected(pre: bytes, x: byte, y: byte, post: bytes, crc: bv8)
    requires x != y
    ensures Updated(pre + [x] + post, crc) != Updated(pre + [y] + post, crc)
  {
    UpdatedIsRemainder(pre + [x] + post, crc);
    UpdatedIsRemainder(pre + [y] + post, crc);
    PolyTop();
    assert [x][0] != [y][0];
    SubstitutionDetected(G, Reg(crc), pre, [x], [y], post);
  }

  lemma {:induction false} ZeroShifts(n: nat)
    ensures Shifts(0, n) == 0
  {
    if n > 0 {
      ZeroShifts(n - 1);
    }
  }

  lemma SelfXor(v: bv8)
    ensures v ^ v == 0
  {
  }

  /** The byte `b`, which is the octet `v`, takes the register from `crc` to `next`. */
  lemma FirstByte(b: byte, v: bv8, rest: bytes, crc: bv8, next: bv8)
    requires b as bv8 == v && Shift8(crc ^ v) == next
    ensures Updated([b] + rest, crc) == Updated(rest, next)
  {
    EightShift1s(crc ^ v);
    assert ([b] + rest)[1..] == rest;
  }

  lemma ThreeBytes(b: byte, v: bv8, c: byte, w: bv8, d: byte, x: bv8, rest: bytes, crc: bv8, r: bv8, s: bv8, next: bv8)
    requires b as bv8 == v && c as bv8 == w && d as bv8 == x
    requires Shift8(crc ^ v) == r && Shift8(r ^ w) == s && Shift8(s ^ x) == next
    ensures Updated([b, c, d] + rest, crc) == Updated(rest, next)
  {
    FirstByte(b, v, [c] + ([d] + rest), crc, r);
    FirstByte(c, w, [d] + rest, r, s);
    FirstByte(d, x, rest, s, next);
    assert [b, c, d] + rest == [b] + ([c] + ([d] + rest));
  }

  /** Two messages whose CRC is zero. */
  lemma ZeroRequest()
    ensures Updated([0x8f, 0x00, 0x03] + ([0x00, 0x05, 0x43] + []), INIT) == 0
  {
    ThreeBytes(0x8f, 0x8f, 0x00, 0x00, 0x03, 0x03, [0x00, 0x05, 0x43] + [], 0xff, 0x9e, 0x4c, 0x26);
    ThreeBytes(0x00, 0x00, 0x05, 0x05, 0x43, 0x43, [], 0x26, 0x08, 0x43, 0x00);
  }

  lemma ZeroReply()
    ensures Updated([0x04, 0x00, 0x84] + ([0x0a, 0x00, 0xd6] + []), INIT) == 0
  {
    ThreeBytes(0x04, 0x04, 0x00, 0x00, 0x84, 0x84, [0x0a, 0x00, 0xd6] + [], 0xff, 0xba, 0xe9, 0xef);
    ThreeBytes(0x0a, 0x0a, 0x00, 0x00, 0xd6, 0xd6, [], 0xef, 0xfd, 0xd6, 0x00);
  }

  /** Appending a byte leaves residue zero exactly when it is the check byte. */
  lemma ResidueZero(msg: bytes, b: byte)
    ensures Updated(msg + [b], INIT) == 0 <==> b == Crc(msg)
  {
    var crc, c := Updated(msg, INIT), Crc(msg);
    UpdatedConcat(msg, [c], INIT);
    assert [c][1..] == [];
    OctetRoundTrip(crc);
    SelfXor(crc);
    ZeroShifts(8);
    assert Updated(msg + [c], INIT) == 0;
    if b != c {
      assert msg + [b] + [] == msg + [b] && msg + [c] + [] == msg + [c];
      CorruptionDetected(msg, b, c, [], INIT);
    }
  }
}
