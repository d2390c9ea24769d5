/** CRC-16/GENIBUS (libnabud/crc16_genibus.c): generator 0x1021, initial value and final xor 0xffff. */
module Crc16Genibus {
  import opened Bytes
  import opened Gf2

  const POLY: bv16 := 0x1021

  /** POLY's coefficients, highest power first. */
  const G: bits :=
    [false, false, false, true, false, false, false, false,
     false, false, true, false, false, false, false, true]

  function Top(w: bv16, n: nat): (s: bits)
    ensures |s| == n
    decreases n, w
  {
    if n == 0 then [] else [w >= 0x8000] + Top(w << 1, n - 1)
  }

  /** The register as a coefficient sequence. */
  function Reg(x: bv16): (r: bits)
    ensures |r| == |G| == 16
  {
    Top(x, |G|)
  }

  function Shift1(x: bv16): bv16 { if x >= 0x8000 then (x << 1) ^ POLY else x << 1 }

  function Shifts(x: bv16, n: nat): bv16
    decreases n, x
  {
    if n == 0 then x else Shifts(Shift1(x), n - 1)
  }

  function Shift8(x: bv16): bv16 {
    Shift1(Shift1(Shift1(Shift1(Shift1(Shift1(Shift1(Shift1(x))))))))
  }

  lemma EightShift1s(x: bv16)
    ensures Shifts(x, 8) == Shift8(x)
  {
    var y := Shift1(Shift1(x));
    var z := Shift1(Shift1(y));
    var u := Shift1(Shift1(z));
    assert Shifts(x, 8) == Shifts(y, 6) == Shifts(z, 4) == Shifts(u, 2);
    assert Shifts(u, 2) == Shifts(Shift1(u), 1) == Shift1(Shift1(u));
  }

  // ----- The constant table, sixteen entries a row -----

  function Row0(lo: bv8): (r: bv16)
    requires lo < 16
    ensures r == Shift8(((0x00 | lo) as bv16) << 8)
  {
    match lo
    case 0 => 0x0000 case 1 => 0x1021 case 2 => 0x2042 case 3 => 0x3063
    case 4 => 0x4084 case 5 => 0x50a5 case 6 => 0x60c6 case 7 => 0x70e7
    case 8 => 0x8108 case 9 => 0x9129 case 10 => 0xa14a case 11 => 0xb16b
    case 12 => 0xc18c case 13 => 0xd1ad case 14 => 0xe1ce case _ => 0xf1ef
  }

  function Row1(lo: bv8): (r: bv16)
    requires lo < 16
    ensures r == Shift8(((0x10 | lo) as bv16) << 8)
  {
    match lo
    case 0 => 0x1231 case 1 => 0x0210 case 2 => 0x3273 case 3 => 0x2252
    case 4 => 0x52b5 case 5 => 0x4294 case 6 => 0x72f7 case 7 => 0x62d6
    case 8 => 0x9339 case 9 => 0x8318 case 10 => 0xb37b case 11 => 0xa35a
    case 12 => 0xd3bd case 13 => 0xc39c case 14 => 0xf3ff case _ => 0xe3de
  }

  function Row2(lo: bv8): (r: bv16)
    requires lo < 16
    ensures r == Shift8(((0x20 | lo) as bv16) << 8)
  {
    match lo
    case 0 => 0x2462 case 1 => 0x3443 case 2 => 0x0420 case 3 => 0x1401
    case 4 => 0x64e6 case 5 => 0x74c7 case 6 => 0x44a4 case 7 => 0x5485
    case 8 => 0xa56a case 9 => 0xb54b case 10 => 0x8528 case 11 => 0x9509
    case 12 => 0xe5ee case 13 => 0xf5cf case 14 => 0xc5ac case _ => 0xd58d
  }

  function Row3(lo: bv8): (r: bv16)
    requires lo < 16
    ensures r == Shift8(((0x30 | lo) as bv16) << 8)
  {
    match lo
    case 0 => 0x3653 case 1 => 0x2672 case 2 => 0x1611 case 3 => 0x0630
    case 4 => 0x76d7 case 5 => 0x66f6 case 6 => 0x5695 case 7 => 0x46b4
    case 8 => 0xb75b case 9 => 0xa77a case 10 => 0x9719 case 11 => 0x8738
    case 12 => 0xf7df case 13 => 0xe7fe case 14 => 0xd79d case _ => 0xc7bc
  }

  function Row4(lo: bv8): (r: bv16)
    requires lo < 16
    ensures r == Shift8(((0x40 | lo) as bv16) << 8)
  {
    match lo
    case 0 => 0x48c4 case 1 => 0x58e5 case 2 => 0x6886 case 3 => 0x78a7
    case 4 => 0x0840 case 5 => 0x1861 case 6 => 0x2802 case 7 => 0x3823
    case 8 => 0xc9cc case 9 => 0xd9ed case 10 => 0xe98e case 11 => 0xf9af
    case 12 => 0x8948 case 13 => 0x9969 case 14 => 0xa90a case _ => 0xb92b
  }

  function Row5(lo: bv8): (r: bv16)
    requires lo < 16
    ensures r == Shift8(((0x50 | lo) as bv16) << 8)
  {
    match lo
    case 0 => 0x5af5 case 1 => 0x4ad4 case 2 => 0x7ab7 case 3 => 0x6a96
    case 4 => 0x1a71 case 5 => 0x0a50 case 6 => 0x3a33 case 7 => 0x2a12
    case 8 => 0xdbfd case 9 => 0xcbdc case 10 => 0xfbbf case 11 => 0xeb9e
    case 12 => 0x9b79 case 13 => 0x8b58 case 14 => 0xbb3b case _ => 0xab1a
  }

  function Row6(lo: bv8): (r: bv16)
    requires lo < 16
    ensures r == Shift8(((0x60 | lo) as bv16) << 8)
  {
    match lo
    case 0 => 0x6ca6 case 1 => 0x7c87 case 2 => 0x4ce4 case 3 => 0x5cc5
    case 4 => 0x2c22 case 5 => 0x3c03 case 6 => 0x0c60 case 7 => 0x1c41
    case 8 => 0xedae case 9 => 0xfd8f case 10 => 0xcdec case 11 => 0xddcd
    case 12 => 0xad2a case 13 => 0xbd0b case 14 => 0x8d68 case _ => 0x9d49
  }

  function Row7(lo: bv8): (r: bv16)
    requires lo < 16
    ensures r == Shift8(((0x70 | lo) as bv16) << 8)
  {
    match lo
    case 0 => 0x7e97 case 1 => 0x6eb6 case 2 => 0x5ed5 case 3 => 0x4ef4
    case 4 => 0x3e13 case 5 => 0x2e32 case 6 => 0x1e51 case 7 => 0x0e70
    case 8 => 0xff9f case 9 => 0xefbe case 10 => 0xdfdd case 11 => 0xcffc
    case 12 => 0xbf1b case 13 => 0xaf3a case 14 => 0x9f59 case _ => 0x8f78
  }

  function Row8(lo: bv8): (r: bv16)
    requires lo < 16
    ensures r == Shift8(((0x80 | lo) as bv16) << 8)
  {
    match lo
    case 0 => 0x9188 case 1 => 0x81a9 case 2 => 0xb1ca case 3 => 0xa1eb
    case 4 => 0xd10c case 5 => 0xc12d case 6 => 0xf14e case 7 => 0xe16f
    case 8 => 0x1080 case 9 => 0x00a1 case 10 => 0x30c2 case 11 => 0x20e3
    case 12 => 0x5004 case 13 => 0x4025 case 14 => 0x7046 case _ => 0x6067
  }

  function Row9(lo: bv8): (r: bv16)
    requires lo < 16
    ensures r == Shift8(((0x90 | lo) as bv16) << 8)
  {
    match lo
    case 0 => 0x83b9 case 1 => 0x9398 case 2 => 0xa3fb case 3 => 0xb3da
    case 4 => 0xc33d case 5 => 0xd31c case 6 => 0xe37f case 7 => 0xf35e
    case 8 => 0x02b1 case 9 => 0x1290 case 10 => 0x22f3 case 11 => 0x32d2
    case 12 => 0x4235 case 13 => 0x5214 case 14 => 0x6277 case _ => 0x7256
  }

  function RowA(lo: bv8): (r: bv16)
    requires lo < 16
    ensures r == Shift8(((0xa0 | lo) as bv16) << 8)
  {
    match lo
    case 0 => 0xb5ea case 1 => 0xa5cb case 2 => 0x95a8 case 3 => 0x8589
    case 4 => 0xf56e case 5 => 0xe54f case 6 => 0xd52c case 7 => 0xc50d
    case 8 => 0x34e2 case 9 => 0x24c3 case 10 => 0x14a0 case 11 => 0x0481
    case 12 => 0x7466 case 13 => 0x6447 case 14 => 0x5424 case _ => 0x4405
  }

  function RowB(lo: bv8): (r: bv16)
    requires lo < 16
    ensures r == Shift8(((0xb0 | lo) as bv16) << 8)
  {
    match lo
    case 0 => 0xa7db case 1 => 0xb7fa case 2 => 0x8799 case 3 => 0x97b8
    case 4 => 0xe75f case 5 => 0xf77e case 6 => 0xc71d case 7 => 0xd73c
    case 8 => 0x26d3 case 9 => 0x36f2 case 10 => 0x0691 case 11 => 0x16b0
    case 12 => 0x6657 case 13 => 0x7676 case 14 => 0x4615 case _ => 0x5634
  }

  function RowC(lo: bv8): (r: bv16)
    requires lo < 16
    ensures r == Shift8(((0xc0 | lo) as bv16) << 8)
  {
    match lo
    case 0 => 0xd94c case 1 => 0xc96d case 2 => 0xf90e case 3 => 0xe92f
    case 4 => 0x99c8 case 5 => 0x89e9 case 6 => 0xb98a case 7 => 0xa9ab
    case 8 => 0x5844 case 9 => 0x4865 case 10 => 0x7806 case 11 => 0x6827
    case 12 => 0x18c0 case 13 => 0x08e1 case 14 => 0x3882 case _ => 0x28a3
  }

  function RowD(lo: bv8): (r: bv16)
    requires lo < 16
    ensures r == Shift8(((0xd0 | lo) as bv16) << 8)
  {
    match lo
    case 0 => 0xcb7d case 1 => 0xdb5c case 2 => 0xeb3f case 3 => 0xfb1e
    case 4 => 0x8bf9 case 5 => 0x9bd8 case 6 => 0xabbb case 7 => 0xbb9a
    case 8 => 0x4a75 case 9 => 0x5a54 case 10 => 0x6a37 case 11 => 0x7a16
    case 12 => 0x0af1 case 13 => 0x1ad0 case 14 => 0x2ab3 case _ => 0x3a92
  }

  function RowE(lo: bv8): (r: bv16)
    requires lo < 16
    ensures r == Shift8(((0xe0 | lo) as bv16) << 8)
  {
    match lo
    case 0 => 0xfd2e case 1 => 0xed0f case 2 => 0xdd6c case 3 => 0xcd4d
    case 4 => 0xbdaa case 5 => 0xad8b case 6 => 0x9de8 case 7 => 0x8dc9
    case 8 => 0x7c26 case 9 => 0x6c07 case 10 => 0x5c64 case 11 => 0x4c45
    case 12 => 0x3ca2 case 13 => 0x2c83 case 14 => 0x1ce0 case _ => 0x0cc1
  }

  function RowF(lo: bv8): (r: bv16)
    requires lo < 16
    ensures r == Shift8(((0xf0 | lo) as bv16) << 8)
  {
    match lo
    case 0 => 0xef1f case 1 => 0xff3e case 2 => 0xcf5d case 3 => 0xdf7c
    case 4 => 0xaf9b case 5 => 0xbfba case 6 => 0x8fd9 case 7 => 0x9ff8
    case 8 => 0x6e17 case 9 => 0x7e36 case 10 => 0x4e55 case 11 => 0x5e74
    case 12 => 0x2e93 case 13 => 0x3eb2 case 14 => 0x0ed1 case _ => 0x1ef0
  }

  /** A byte at the top of the register, shifted out: what crctab holds. */
  function ByteRemainder(v: bv8): bv16 { Shifts((v as bv16) << 8, 8) }

  /** crctab[c]. */
  method CrcTab(c: bv8) returns (r: bv16)
    ensures r == ByteRemainder(c)
  {
    var hi, lo := c >> 4, c & 15;
    if hi == 0 { r := Row0(lo); }
    else if hi == 1 { r := Row1(lo); }
    else if hi == 2 { r := Row2(lo); }
    else if hi == 3 { r := Row3(lo); }
    else if hi == 4 { r := Row4(lo); }
    else if hi == 5 { r := Row5(lo); }
    else if hi == 6 { r := Row6(lo); }
    else if hi == 7 { r := Row7(lo); }
    else if hi == 8 { r := Row8(lo); }
    else if hi == 9 { r := Row9(lo); }
    else if hi == 10 { r := RowA(lo); }
    else if hi == 11 { r := RowB(lo); }
    else if hi == 12 { r := RowC(lo); }
    else if hi == 13 { r := RowD(lo); }
    else if hi == 14 { r := RowE(lo); }
    else { r := RowF(lo); }
    NibblesJoin(c);
    EightShift1s((c as bv16) << 8);
  }

  lemma NibblesJoin(c: bv8)
    ensures ((c >> 4) << 4) | (c & 15) == c && c & 15 < 16 && c >> 4 < 16
  {
  }

  function Index(crc: bv16, v: bv8): bv8 { (crc >> 8) as bv8 ^ v }

  function Combine(crc: bv16, t: bv16): bv16 { (crc << 8) ^ t }

  /** One iteration of the update loop. */
  function NextOctet(crc: bv16, v: bv8): bv16 {
    Combine(crc, ByteRemainder(Index(crc, v)))
  }

  function Next(crc: bv16, b: byte): bv16 { NextOctet(crc, b as bv8) }

  function Updated(buf: bytes, crc: bv16): bv16
    decreases |buf|
  {
    if buf == [] then crc else Updated(buf[1..], Next(crc, buf[0]))
  }

  // ----- A machine word as a coefficient sequence -----

  lemma XorShift(x: bv16, y: bv16)
    ensures (x ^ y) << 1 == (x << 1) ^ (y << 1)
    ensures (x ^ y >= 0x8000) == ((x >= 0x8000) != (y >= 0x8000))
  {
  }

  lemma {:induction false} XorTop(x: bv16, y: bv16, n: nat)
    ensures Top(x ^ y, n) == Xor(Top(x, n), Top(y, n))
    decreases n
  {
    if n > 0 {
      XorShift(x, y);
      XorTop(x << 1, y << 1, n - 1);
      XorCons(x >= 0x8000, Top(x << 1, n - 1), y >= 0x8000, Top(y << 1, n - 1));
    }
  }

  function Dropped(w: bv16, n: nat): bv16
    decreases n, w
  {
    if n == 0 then w else Dropped(w << 1, n - 1)
  }

  lemma {:induction false} TopExtend(x: bv16, n: nat)
    ensures Top(x, n + 1) == Top(x, n) + [Dropped(x, n) >= 0x8000]
    decreases n
  {
    if n > 0 {
      TopExtend(x << 1, n - 1);
    }
  }

  lemma {:induction false} DroppedMore(x: bv16, m: nat, n: nat)
    ensures Dropped(x, m + n) == Dropped(Dropped(x, m), n)
    decreases m
  {
    if m > 0 {
      DroppedMore(x << 1, m - 1, n);
    }
  }

  lemma FourShifts(x: bv16)
    ensures x << 1 << 1 << 1 << 1 == x << 4
  {
  }

  lemma DroppedFour(x: bv16)
    ensures Dropped(x, 4) == x << 4
  {
    FourShifts(x);
    assert Dropped(x, 4) == Dropped(x << 1 << 1, 2) == Dropped(x << 1 << 1 << 1, 1) == x << 1 << 1 << 1 << 1;
  }

  lemma EightShifts(x: bv16)
    ensures x << 4 << 4 << 4 << 4 == 0
  {
  }

  lemma {:induction false} TopSplit(x: bv16, m: nat, n: nat)
    ensures Top(x, m + n) == Top(x, m) + Top(Dropped(x, m), n)
    decreases m
  {
    if m > 0 {
      TopSplit(x << 1, m - 1, n);
    }
  }

  lemma DroppedEight(x: bv16)
    ensures Dropped(x, 8) == x << 4 << 4
  {
    DroppedFour(x);
    DroppedFour(x << 4);
    DroppedMore(x, 4, 4);
  }

  lemma AllDropped(x: bv16)
    ensures Dropped(x, |G|) == 0
  {
    DroppedFour(x);
    DroppedFour(x << 4);
    DroppedMore(x, 4, 4);
    EightShifts(x);
    DroppedEight(x << 4 << 4);
    DroppedMore(x, 8, 8);
  }

  lemma ShiftTop(x: bv16)
    ensures Reg(x)[0] == (x >= 0x8000)
    ensures Reg(x << 1) == Reg(x)[1..] + [false]
  {
    TopExtend(x, |G|);
    AllDropped(x);
    assert Top(x, |G| + 1)[1..] == Top(x << 1, |G|);
  }

  lemma PolyHigh()
    ensures Top(0x1021, 8) == G[..8]
  {
    assert Top(0x1021, 8) == [false, false] + Top(0x4084, 6) == [false, false, false, true] + Top(0x0210, 4);
    assert Top(0x0210, 4) == [false, false] + Top(0x0840, 2) == G[4..8];
  }

  lemma PolyLow()
    ensures Top(0x2100, 8) == G[8..]
  {
    assert Top(0x2100, 8) == [false, false] + Top(0x8400, 6) == [false, false, true, false] + Top(0x1000, 4);
    assert Top(0x1000, 4) == [false, false] + Top(0x4000, 2) == G[12..];
  }

  lemma PolyTop()
    ensures Reg(POLY) == G && Generator(G)
  {
    TopSplit(POLY, 8, 8);
    DroppedEight(POLY);
    PolyHigh();
    PolyLow();
  }

  lemma Shift1IsStep(x: bv16)
    ensures Reg(Shift1(x)) == Step(G, Reg(x), false)
  {
    ShiftTop(x);
    if x >= 0x8000 {
      XorTop(x << 1, POLY, |G|);
      PolyTop();
    }
  }

  lemma {:induction false} ShiftsAreSteps(x: bv16, n: nat)
    ensures Reg(Shifts(x, n)) == Divide(G, Reg(x), Falses(n))
    decreases n
  {
    if n > 0 {
      Shift1IsStep(x);
      ShiftsAreSteps(Shift1(x), n - 1);
      assert Falses(n)[1..] == Falses(n - 1);
    }
  }

  lemma AlignedShift(v: bv8)
    ensures (((v as bv16) << 8) >= 0x8000) == (v >= 0x80)
    ensures ((v as bv16) << 8) << 1 == ((v << 1) as bv16) << 8
  {
  }

  lemma {:induction false} TopOfAligned(v: bv8, n: nat)
    ensures Top((v as bv16) << 8, n) == Gf2.Top(v, n)
    decreases n
  {
    if n > 0 {
      AlignedShift(v);
      TopOfAligned(v << 1, n - 1);
    }
  }

  lemma {:induction false} DroppedTop(x: bv16, n: nat)
    requires n <= |G|
    ensures Reg(Dropped(x, n)) == Reg(x)[n..] + Falses(n)
    decreases n
  {
    if n == 0 {
      assert Reg(x)[0..] + Falses(0) == Reg(x);
    } else {
      ShiftTop(x);
      DroppedTop(x << 1, n - 1);
      TailShifted(Reg(x), n);
    }
  }

  lemma ShiftByte(x: bv16)
    ensures x << 4 << 4 == x << 8
  {
  }

  lemma HighLow(x: bv16)
    ensures x == (((x >> 8) as bv8 as bv16) << 8) ^ (x & 0xff) && x & 0xff < 256
  {
  }

  lemma LowByteTop(x: bv16)
    requires x < 256
    ensures Top(x, 8) == Falses(8)
  {
    assert x < 0x8000 && x << 1 < 0x8000 && x << 1 << 1 < 0x8000 && x << 1 << 1 << 1 < 0x8000;
    assert x << 4 < 0x8000 && x << 4 << 1 < 0x8000 && x << 4 << 1 << 1 < 0x8000 && x << 4 << 1 << 1 << 1 < 0x8000;
    FourShifts(x);
    assert Top(x, 8) == [false, false] + Top(x << 1 << 1, 6) == [false, false, false, false] + Top(x << 4, 4);
    assert Top(x << 4, 4) == [false, false] + Top(x << 4 << 1 << 1, 2) == [false, false, false, false];
  }

  lemma XorLowTop(hi: bv16, lo: bv16)
    requires lo < 256
    ensures Top(hi ^ lo, 8) == Top(hi, 8)
  {
    XorTop(hi, lo, 8);
    LowByteTop(lo);
  }

  lemma HighByteTop(x: bv16)
    ensures Gf2.Top((x >> 8) as bv8, 8) == Reg(x)[..8]
  {
    var v := (x >> 8) as bv8;
    HighLow(x);
    XorLowTop((v as bv16) << 8, x & 0xff);
    TopOfAligned(v, 8);
    TopSplit(x, 8, |G| - 8);
  }

  lemma IndexTop(crc: bv16, v: bv8)
    ensures Gf2.Top(Index(crc, v), 8) == Xor(Reg(crc)[..8], Gf2.Top(v, 8))
  {
    HighByteTop(crc);
    Gf2.XorTop((crc >> 8) as bv8, v, 8);
  }

  lemma NextOctetIsDivision(crc: bv16, v: bv8, w: bits)
    requires w == Gf2.Top(v, 8)
    ensures Reg(NextOctet(crc, v)) == Divide(G, Reg(crc), w)
  {
    IndexTop(crc, v);
    RegCombine(crc, ByteRemainder(Index(crc, v)));
    RegByteRemainder(Index(crc, v));
    TableSplit(G, Reg(crc), w, 8, Xor(Reg(crc)[..8], w) + Falses(8));
  }

  /** One table lookup divides by the eight bits of the byte. */
  lemma NextIsDivision(crc: bv16, b: byte)
    ensures Reg(Next(crc, b)) == Divide(G, Reg(crc), BitsOf(b))
  {
    TopOfByte(b, 8);
    assert BitsOf(b) + Falses(0) == BitsOf(b);
    NextOctetIsDivision(crc, b as bv8, BitsOf(b));
  }

  lemma RegShifted(x: bv16)
    ensures Reg(x << 8) == Reg(x)[8..] + Falses(8)
  {
    DroppedTop(x, 8);
    DroppedEight(x);
    ShiftByte(x);
  }

  lemma RegXor(x: bv16, y: bv16, z: bv16)
    requires z == x ^ y
    ensures Reg(z) == Xor(Reg(x), Reg(y))
  {
    XorTop(x, y, |G|);
  }

  lemma RegCombine(crc: bv16, t: bv16)
    ensures Reg(Combine(crc, t)) == Xor(Reg(crc)[8..] + Falses(8), Reg(t))
  {
    RegXor(crc << 8, t, Combine(crc, t));
    RegShifted(crc);
  }

  lemma RegByteRemainder(c: bv8)
    ensures Reg(ByteRemainder(c)) == Divide(G, Gf2.Top(c, 8) + Falses(8), Falses(8))
  {
    ShiftsAreSteps((c as bv16) << 8, 8);
    TopOfAligned(c, |G|);
    OctetThenZeros(c);
  }

  lemma OctetThenZeros(c: bv8)
    ensures Gf2.Top(c, |G|) == Gf2.Top(c, 8) + Falses(8)
  {
    TopIsDigits(c, |G|);
    TopIsDigits(c, 8);
    var d := Digits(c as int, 8);
    assert (d + Falses(16))[..16] == d + Falses(8) && (d + Falses(8))[..8] == d;
  }

  /** The table-driven register is the polynomial remainder, for every message. */
  lemma {:induction false} UpdatedIsRemainder(buf: bytes, crc: bv16)
    ensures Reg(Updated(buf, crc)) == Remainder(G, buf, Reg(crc))
    decreases |buf|
  {
    if buf != [] {
      NextIsDivision(crc, buf[0]);
      UpdatedIsRemainder(buf[1..], Next(crc, buf[0]));
      MessageBitsByte(buf[0]);
      RemainderConcat(G, [buf[0]], buf[1..], Reg(crc));
      assert buf == [buf[0]] + buf[1..];
    }
  }

  lemma {:induction false} UpdatedConcat(a: bytes, b: bytes, crc: bv16)
    ensures Updated(a + b, crc) == Updated(b, Updated(a, crc))
    decreases |a|
  {
    if a == [] {
      assert a + b == b;
    } else {
      UpdatedConcat(a[1..], b, Next(crc, a[0]));
      assert (a + b)[1..] == a[1..] + b && (a + b)[0] == a[0];
    }
  }

  method TableStep(crc: bv16, v: bv8) returns (r: bv16)
    ensures r == NextOctet(crc, v)
  {
    var t := CrcTab(Index(crc, v));
    r := Combine(crc, t);
  }

  method Update(buf: bytes, start: bv16) returns (crc: bv16)
    ensures crc == Updated(buf, start)
  {
    crc := start;
    var i := 0;
    assert buf[0..] == buf;
    while i < |buf|
      invariant 0 <= i <= |buf|
      invariant Updated(buf[i..], crc) == Updated(buf, start)
    {
      assert buf[i..][1..] == buf[i + 1..];
      crc := TableStep(crc, buf[i] as bv8);
      i := i + 1;
    }
  }

  // ----- The packet check sequence -----

  const INIT: bv16 := 0xffff

  function Fini(crc: bv16): bv16 { crc ^ 0xffff }

  function Crc(msg: bytes): bv16 { Fini(Updated(msg, INIT)) }

  /** nabu_set_crc: most significant byte first. */
  function CrcBytes(crc: bv16): (b: bytes)
    ensures |b| == 2
  {
    [((crc >> 8) as bv8) as int, ((crc & 0xff) as bv8) as int]
  }

  /** nabu_get_crc. */
  function GetCrc(b: bytes): bv16
    requires |b| == 2
  {
    ((b[0] as bv8 as bv16) << 8) | (b[1] as bv8 as bv16)
  }

  lemma JoinBytes(crc: bv16)
    ensures (((crc >> 8) as bv8 as bv16) << 8) | ((crc & 0xff) as bv8 as bv16) == crc
  {
  }

  lemma GetSetCrc(crc: bv16)
    ensures GetCrc(CrcBytes(crc)) == crc
  {
    OctetRoundTrip((crc >> 8) as bv8);
    OctetRoundTrip((crc & 0xff) as bv8);
    JoinBytes(crc);
  }

  /** The lower half of the register is the lower byte. */
  lemma LowHalf(x: bv16)
    ensures Reg(x)[8..] == Gf2.Top((x & 0xff) as bv8, 8)
  {
    TopSplit(x, 8, 8);
    DroppedEight(x);
    LowAligned(x);
    TopOfAligned((x & 0xff) as bv8, 8);
  }

  lemma LowAligned(x: bv16)
    ensures x << 8 == ((x & 0xff) as bv8 as bv16) << 8
  {
  }

  /** The two bytes of a CRC, first the upper one, are the register's bits in order. */
  lemma CrcBytesBits(crc: bv16)
    ensures MessageBits(CrcBytes(crc)) == Reg(crc)
  {
    var hi, lo := (crc >> 8) as bv8, (crc & 0xff) as bv8;
    TopOfOctet(hi);
    TopOfOctet(lo);
    HighByteTop(crc);
    LowHalf(crc);
    MessageBitsConcat([hi as int], [lo as int]);
    MessageBitsByte(hi as int);
    MessageBitsByte(lo as int);
    assert CrcBytes(crc) == [hi as int] + [lo as int];
    assert Reg(crc) == Reg(crc)[..8] + Reg(crc)[8..];
  }

  lemma AllOnes()
    ensures Reg(0xffff) == Trues(16)
  {
    CrcBytesBits(0xffff);
    OnesOf255();
    var b: byte := 255;
    assert CrcBytes(0xffff) == [b] + [b];
    MessageBitsConcat([b], [b]);
    MessageBitsByte(b);
    assert Trues(8) + Trues(8) == Trues(16);
  }

  /** The bytes that go out are the remainder of the message, from a register of ones, with every
      bit inverted. */
  lemma CrcIsRemainder(msg: bytes)
    ensures MessageBits(CrcBytes(Crc(msg))) == Xor(Remainder(G, msg, Trues(16)), Trues(16))
  {
    CrcBytesBits(Crc(msg));
    AllOnes();
    UpdatedIsRemainder(msg, INIT);
    RegXor(Updated(msg, INIT), 0xffff, Crc(msg));
  }

  lemma FiniInjective(a: bv16, b: bv16)
    requires Fini(a) == Fini(b)
    ensures a == b
  {
  }

  /** Corrupting one byte, or two adjacent ones, changes the CRC of a message of any length. */
  lemma CorruptionDetected(pre: bytes, x: bytes, y: bytes, post: bytes)
    requires |x| == |y| <= 2 && x != y
    ensures Crc(pre + x + post) != Crc(pre + y + post)
  {
    var u, v := Updated(pre + x + post, INIT), Updated(pre + y + post, INIT);
    UpdatedIsRemainder(pre + x + post, INIT);
    UpdatedIsRemainder(pre + y + post, INIT);
    PolyTop();
    SubstitutionDetected(G, Reg(INIT), pre, x, y, post);
    assert u != v;
    if Fini(u) == Fini(v) {
      FiniInjective(u, v);
      assert false;
    }
  }
}
