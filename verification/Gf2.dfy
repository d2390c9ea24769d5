/** Polynomial division over GF(2), the reference both frame check sequences are measured against.

    A register is the coefficient sequence of a remainder, highest power first.  The divisor
    is given by its coefficients below the leading one; both generators in use have a constant
    term, which is what makes a shift register run backwards. */
module Gf2 {
  import opened Bytes

  type bits = seq<bool>

  ghost predicate Generator(g: bits) { |g| > 0 && g[|g| - 1] }

  function Xor(a: bits, b: bits): (r: bits)
    requires |a| == |b|
    ensures |r| == |a| && forall i :: 0 <= i < |r| ==> r[i] == (a[i] != b[i])
  {
    seq(|a|, i requires 0 <= i < |a| => a[i] != b[i])
  }

  lemma XorCons(a: bool, u: bits, b: bool, v: bits)
    requires |u| == |v|
    ensures Xor([a] + u, [b] + v) == [a != b] + Xor(u, v)
  {
  }

  function Trues(n: nat): (r: bits)
    ensures |r| == n && forall i :: 0 <= i < n ==> r[i]
  {
    seq(n, _ => true)
  }

  function Falses(n: nat): (r: bits)
    ensures |r| == n && forall i :: 0 <= i < n ==> !r[i]
  {
    seq(n, _ => false)
  }

  predicate Carry(reg: bits, bit: bool)
    requires reg != []
  {
    reg[0] != bit
  }

  /** One step of long division: bring down `bit`, subtract the divisor on a carry. */
  function Step(g: bits, reg: bits, bit: bool): (r: bits)
    requires |reg| == |g| > 0
    ensures |r| == |g|
  {
    var shifted := reg[1..] + [false];
    if Carry(reg, bit) then Xor(shifted, g) else shifted
  }

  function Divide(g: bits, reg: bits, msg: bits): (r: bits)
    requires |reg| == |g| > 0
    ensures |r| == |g|
    decreases |msg|
  {
    if msg == [] then reg else Divide(g, Step(g, reg, msg[0]), msg[1..])
  }

  lemma {:induction false} DivideConcat(g: bits, reg: bits, a: bits, b: bits)
    requires |reg| == |g| > 0
    ensures Divide(g, reg, a + b) == Divide(g, Divide(g, reg, a), b)
    decreases |a|
  {
    if a == [] {
      assert a + b == b;
    } else {
      DivideConcat(g, Step(g, reg, a[0]), a[1..], b);
      assert (a + b)[1..] == a[1..] + b;
    }
  }

  // ----- Bits of bytes -----

  /** The low `n` binary digits of `v`, most significant first. */
  function Digits(v: nat, n: nat): (s: bits)
    ensures |s| == n
    decreases n, v
  {
    if n == 0 then [] else Digits(v / 2, n - 1) + [v % 2 == 1]
  }

  function BitsOf(b: byte): (s: bits)
    ensures |s| == 8
  {
    Digits(b, 8)
  }

  /** The digits of every byte in turn, each byte spelled by `spell`. */
  function Spelled(spell: byte -> bits, msg: bytes): bits {
    if msg == [] then [] else spell(msg[0]) + Spelled(spell, msg[1..])
  }

  lemma {:induction false} SpelledConcat(spell: byte -> bits, a: bytes, b: bytes)
    ensures Spelled(spell, a + b) == Spelled(spell, a) + Spelled(spell, b)
  {
    if a == [] {
      assert a + b == b;
    } else {
      SpelledConcat(spell, a[1..], b);
      assert (a + b)[1..] == a[1..] + b;
    }
  }

  lemma {:induction false} SpelledInjective(spell: byte -> bits, w: nat, x: bytes, y: bytes)
    requires forall b :: |spell(b)| == w
    requires forall b, c :: spell(b) == spell(c) ==> b == c
    ensures |Spelled(spell, x)| == w * |x|
    ensures |x| == |y| && Spelled(spell, x) == Spelled(spell, y) ==> x == y
  {
    if x != [] {
      SpelledInjective(spell, w, x[1..], if y == [] then [] else y[1..]);
      assert w * |x| == w + w * |x[1..]|;
      if |x| == |y| && Spelled(spell, x) == Spelled(spell, y) {
        assert spell(x[0]) == Spelled(spell, x)[..w] == Spelled(spell, y)[..w] == spell(y[0]);
        assert Spelled(spell, x)[w..] == Spelled(spell, x[1..]);
        assert Spelled(spell, y)[w..] == Spelled(spell, y[1..]);
      }
    }
  }

  function MessageBits(msg: bytes): bits { Spelled(BitsOf, msg) }

  lemma MessageBitsConcat(a: bytes, b: bytes)
    ensures MessageBits(a + b) == MessageBits(a) + MessageBits(b)
  {
    SpelledConcat(BitsOf, a, b);
  }

  lemma MessageBitsByte(b: byte)
    ensures MessageBits([b]) == BitsOf(b)
  {
    assert Spelled(BitsOf, [b][1..]) == [];
  }

  function Pow2(n: nat): (p: nat)
    ensures p > 0
  {
    if n == 0 then 1 else 2 * Pow2(n - 1)
  }

  lemma {:induction false} DigitsInjective(x: nat, y: nat, n: nat)
    requires x < Pow2(n) && y < Pow2(n) && Digits(x, n) == Digits(y, n)
    ensures x == y
    decreases n
  {
    if n > 0 {
      var dx, dy := Digits(x, n), Digits(y, n);
      assert dx[..n - 1] == Digits(x / 2, n - 1) && dy[..n - 1] == Digits(y / 2, n - 1);
      assert dx[n - 1] == dy[n - 1];
      DigitsInjective(x / 2, y / 2, n - 1);
    }
  }

  lemma {:induction false} DigitsHead(v: nat, n: nat)
    requires n > 0 && v < Pow2(n)
    ensures Digits(v, n)[0] == (v >= Pow2(n - 1))
    decreases n
  {
    if n > 1 {
      DigitsHead(v / 2, n - 1);
    }
  }

  lemma {:induction false} DigitsTail(v: nat, n: nat)
    requires n > 0
    ensures Digits(v, n)[1..] == Digits(v, n - 1)
    decreases n
  {
    if n > 1 {
      DigitsTail(v / 2, n - 1);
      assert Digits(v, n)[1..] == Digits(v / 2, n - 1)[1..] + [v % 2 == 1];
    }
  }

  lemma {:induction false} DigitsWrap(v: nat, n: nat)
    ensures Digits(v + Pow2(n), n) == Digits(v, n)
    decreases n
  {
    if n > 0 {
      assert (v + Pow2(n)) / 2 == v / 2 + Pow2(n - 1);
      DigitsWrap(v / 2, n - 1);
    }
  }

  /** The remainder of a byte message, from register `reg`. */
  function Remainder(g: bits, msg: bytes, reg: bits): (r: bits)
    requires |reg| == |g| > 0
    ensures |r| == |g|
  {
    Divide(g, reg, MessageBits(msg))
  }

  /** Remainders compose over concatenation, so a check sequence may be computed piecewise. */
  lemma RemainderConcat(g: bits, a: bytes, b: bytes, reg: bits)
    requires |reg| == |g| > 0
    ensures Remainder(g, a + b, reg) == Remainder(g, b, Remainder(g, a, reg))
  {
    MessageBitsConcat(a, b);
    DivideConcat(g, reg, MessageBits(a), MessageBits(b));
  }

  lemma AbsorbStep(g: bits, reg: bits, w: bits)
    requires 0 < |w| <= |g| == |reg|
    ensures Xor(Step(g, reg, w[0]), w[1..] + Falses(|g| - |w| + 1))
         == Step(g, Xor(reg, w + Falses(|g| - |w|)), false)
  {
  }

  /** Bringing down |w| bits equals adding them to the register's top and shifting. */
  lemma {:induction false} Absorb(g: bits, reg: bits, w: bits)
    requires |w| <= |g| == |reg| && |g| > 0
    ensures Divide(g, reg, w) == Divide(g, Xor(reg, w + Falses(|g| - |w|)), Falses(|w|))
    decreases |w|
  {
    var padded := w + Falses(|g| - |w|);
    if w == [] {
      assert Xor(reg, padded) == reg;
    } else {
      var next := Step(g, reg, w[0]);
      Absorb(g, next, w[1..]);
      AbsorbStep(g, reg, w);
      assert Falses(|w|)[1..] == Falses(|w| - 1);
    }
  }

  lemma StepLinear(g: bits, a: bits, b: bits)
    requires |a| == |b| == |g| > 0
    ensures Step(g, Xor(a, b), false) == Xor(Step(g, a, false), Step(g, b, false))
  {
  }

  lemma {:induction false} DivideLinear(g: bits, a: bits, b: bits, k: nat)
    requires |a| == |b| == |g| > 0
    ensures Divide(g, Xor(a, b), Falses(k)) == Xor(Divide(g, a, Falses(k)), Divide(g, b, Falses(k)))
    decreases k
  {
    if k > 0 {
      StepLinear(g, a, b);
      DivideLinear(g, Step(g, a, false), Step(g, b, false), k - 1);
      assert Falses(k)[1..] == Falses(k - 1);
    }
  }

  lemma {:induction false} ShiftWithoutCarry(g: bits, low: bits, k: nat)
    requires k + |low| == |g| > 0
    ensures Divide(g, Falses(k) + low, Falses(k)) == low + Falses(k)
    decreases k
  {
    if k > 0 {
      assert (Falses(k) + low)[1..] + [false] == Falses(k - 1) + (low + [false]);
      ShiftWithoutCarry(g, low + [false], k - 1);
      assert low + [false] + Falses(k - 1) == low + Falses(k);
      assert Falses(k)[1..] == Falses(k - 1);
    } else {
      assert Falses(k) + low == low == low + Falses(k);
    }
  }

  lemma XorSplit(reg: bits, w: bits, k: nat, high: bits)
    requires k == |w| <= |reg| && high == Xor(reg[..k], w) + Falses(|reg| - k)
    ensures Xor(reg, w + Falses(|reg| - k)) == Xor(Falses(k) + reg[k..], high)
  {
  }

  /** Why a table works: only the top k places decide what is subtracted. */
  lemma TableSplit(g: bits, reg: bits, w: bits, k: nat, high: bits)
    requires k == |w| <= |g| == |reg| && |g| > 0
    requires high == Xor(reg[..k], w) + Falses(|g| - k)
    ensures Divide(g, reg, w) == Xor(reg[k..] + Falses(k), Divide(g, high, Falses(k)))
  {
    var sum := Xor(reg, w + Falses(|g| - k));
    assert Divide(g, reg, w) == Divide(g, sum, Falses(k)) by { Absorb(g, reg, w); }
    assert sum == Xor(Falses(k) + reg[k..], high) by { XorSplit(reg, w, k, high); }
    SplitDivide(g, Falses(k) + reg[k..], high, reg[k..], k);
  }

  lemma SplitDivide(g: bits, low: bits, high: bits, rest: bits, k: nat)
    requires |low| == |high| == |g| > 0 && k + |rest| == |g| && low == Falses(k) + rest
    ensures Divide(g, Xor(low, high), Falses(k)) == Xor(rest + Falses(k), Divide(g, high, Falses(k)))
  {
    DivideLinear(g, low, high, k);
    ShiftWithoutCarry(g, rest, k);
  }

  lemma TailShifted(r: bits, n: nat)
    requires 0 < n <= |r|
    ensures (r[1..] + [false])[n - 1..] + Falses(n - 1) == r[n..] + Falses(n)
  {
  }

  // ----- Bytes as machine words -----

  /** The first n bits shifted out of an octet. */
  function Top(w: bv8, n: nat): (s: bits)
    ensures |s| == n
    decreases n, w
  {
    if n == 0 then [] else [w >= 0x80] + Top(w << 1, n - 1)
  }

  lemma DoubledOctet(w: bv8)
    ensures (w >= 0x80) == (w as int >= 128)
    ensures (w << 1) as int == if w >= 0x80 then 2 * (w as int) - 256 else 2 * (w as int)
  {
  }

  lemma DoubledDigits(v: nat, n: nat)
    requires n > 0 && v < Pow2(n)
    ensures Digits(v, n)[0] == (v >= Pow2(n - 1))
    ensures Digits(if v >= Pow2(n - 1) then 2 * v - Pow2(n) else 2 * v, n) == Digits(v, n)[1..] + [false]
  {
    DigitsHead(v, n);
    DigitsTail(v, n);
    if v >= Pow2(n - 1) {
      DigitsWrap(v - Pow2(n - 1), n - 1);
    }
  }

  lemma TakeShifted(d: bits, n: nat)
    requires n > 0 && d != []
    ensures [d[0]] + (d[1..] + [false] + Falses(n - 1))[..n - 1] == (d + Falses(n))[..n]
  {
  }

  lemma OctetDigits(w: bv8)
    ensures Digits(w as int, 8)[0] == (w >= 0x80)
    ensures Digits((w << 1) as int, 8) == Digits(w as int, 8)[1..] + [false]
  {
    assert Pow2(8) == 256 && Pow2(7) == 128;
    DoubledOctet(w);
    DoubledDigits(w as int, 8);
  }

  lemma {:induction false} TopIsDigits(w: bv8, n: nat)
    ensures Top(w, n) == (Digits(w as int, 8) + Falses(n))[..n]
    decreases n
  {
    if n > 0 {
      var d := Digits(w as int, 8);
      OctetDigits(w);
      TopIsDigits(w << 1, n - 1);
      TakeShifted(d, n);
    }
  }

  lemma XorShift(x: bv8, y: bv8)
    ensures (x ^ y) << 1 == (x << 1) ^ (y << 1)
    ensures (x ^ y >= 0x80) == ((x >= 0x80) != (y >= 0x80))
  {
  }

  lemma {:induction false} XorTop(x: bv8, y: bv8, n: nat)
    ensures Top(x ^ y, n) == Xor(Top(x, n), Top(y, n))
    decreases n
  {
    if n > 0 {
      XorShift(x, y);
      XorTop(x << 1, y << 1, n - 1);
      XorCons(x >= 0x80, Top(x << 1, n - 1), y >= 0x80, Top(y << 1, n - 1));
    }
  }

  lemma OctetRoundTrip(v: bv8)
    ensures 0 <= v as int < 256 && (v as int) as bv8 == v
  {
  }

  lemma OctetSuccessor(v: bv8)
    requires v != 255
    ensures (v + 1) as int == v as int + 1
  {
  }

  lemma {:induction false} OctetAt(b: byte) returns (v: bv8)
    ensures v as int == b
  {
    if b == 0 {
      v := 0;
    } else {
      var u := OctetAt(b - 1);
      OctetSuccessor(u);
      v := u + 1;
    }
  }

  lemma OctetValue(b: byte)
    ensures (b as bv8) as int == b
  {
    var v := OctetAt(b);
    OctetRoundTrip(v);
  }

  /** The bits of a byte, and then zeros, leave the top of its octet. */
  lemma TopOfByte(b: byte, n: nat)
    requires n >= 8
    ensures Top(b as bv8, n) == BitsOf(b) + Falses(n - 8)
  {
    OctetValue(b);
    TopIsDigits(b as bv8, n);
    assert (BitsOf(b) + Falses(n))[..n] == BitsOf(b) + Falses(n - 8);
  }

  lemma {:induction false} DigitsOfOnes(n: nat)
    ensures Digits(Pow2(n) - 1, n) == Trues(n)
  {
    if n > 0 {
      DigitsOfOnes(n - 1);
      assert (Pow2(n) - 1) / 2 == Pow2(n - 1) - 1 && (Pow2(n) - 1) % 2 == 1;
    }
  }

  lemma OnesOf255()
    ensures BitsOf(255) == Trues(8)
  {
    DigitsOfOnes(8);
    assert Pow2(8) == 256;
  }

  /** An octet's top bits are those of its value. */
  lemma TopOfOctet(v: bv8)
    ensures 0 <= v as int < 256 && BitsOf(v as int) == Top(v, 8)
  {
    OctetRoundTrip(v);
    TopOfByte(v as int, 8);
    assert BitsOf(v as int) + Falses(0) == BitsOf(v as int);
  }

  // ----- Error detection -----

  /** If two successors agree on their last m > 0 places, the carries were equal. */
  lemma StepBack(g: bits, a: bits, x: bool, b: bits, y: bool, m: nat)
    requires Generator(g) && |a| == |b| == |g| && 0 < m <= |g|
    requires Step(g, a, x)[|g| - m..] == Step(g, b, y)[|g| - m..]
    ensures Carry(a, x) == Carry(b, y)
    ensures a[|g| - m + 1..] == b[|g| - m + 1..]
  {
    var n, a', b' := |g|, Step(g, a, x), Step(g, b, y);
    assert a'[n - 1] == a'[n - m..][m - 1] == b'[n - m..][m - 1] == b'[n - 1];
    forall i | n - m + 1 <= i < n
      ensures a[i] == b[i]
    {
      assert a'[i - 1] == a'[n - m..][i - 1 - (n - m)] == b'[n - m..][i - 1 - (n - m)] == b'[i - 1];
    }
  }

  function Carries(g: bits, reg: bits, msg: bits): (c: bits)
    requires |reg| == |g| > 0
    ensures |c| == |msg|
    decreases |msg|
  {
    if msg == [] then [] else [Carry(reg, msg[0])] + Carries(g, Step(g, reg, msg[0]), msg[1..])
  }

  /** Equal remainders after at most |g| bits force equal carries on the way there. */
  lemma {:induction false} EqualCarries(g: bits, a: bits, u: bits, b: bits, v: bits)
    requires Generator(g) && |a| == |b| == |g| && |u| == |v| <= |g|
    requires Divide(g, a, u) == Divide(g, b, v)
    ensures Carries(g, a, u) == Carries(g, b, v)
    ensures a[|u|..] == b[|u|..]
    decreases |u|
  {
    if u != [] {
      var a', b' := Step(g, a, u[0]), Step(g, b, v[0]);
      EqualCarries(g, a', u[1..], b', v[1..]);
      StepBack(g, a, u[0], b, v[0], |g| - |u| + 1);
    }
  }

  /** From one register, the carries determine the message. */
  lemma {:induction false} CarriesDetermineBits(g: bits, reg: bits, u: bits, v: bits)
    requires |reg| == |g| > 0
    requires |u| == |v| && Carries(g, reg, u) == Carries(g, reg, v)
    ensures u == v
    decreases |u|
  {
    if u != [] {
      var cu, cv := Carries(g, reg, u), Carries(g, reg, v);
      assert cu[0] == cv[0] && cu[1..] == cv[1..];
      CarriesDetermineBits(g, Step(g, reg, u[0]), u[1..], v[1..]);
      assert u == [u[0]] + u[1..] && v == [v[0]] + v[1..];
    }
  }

  /** Appending the same bits keeps different registers different. */
  lemma {:induction false} DivideInjective(g: bits, a: bits, b: bits, msg: bits)
    requires Generator(g) && |a| == |b| == |g|
    requires Divide(g, a, msg) == Divide(g, b, msg)
    ensures a == b
    decreases |msg|
  {
    if msg != [] {
      DivideInjective(g, Step(g, a, msg[0]), Step(g, b, msg[0]), msg[1..]);
      StepBack(g, a, msg[0], b, msg[0], |g|);
      assert a == [a[0]] + a[1..] && b == [b[0]] + b[1..];
    }
  }

  /** Every error confined to |g| consecutive bits of a message of any length is detected. */
  lemma BurstDetected(g: bits, reg: bits, pre: bits, u: bits, v: bits, post: bits)
    requires Generator(g) && |reg| == |g|
    requires |u| == |v| <= |g| && u != v
    ensures Divide(g, reg, pre + u + post) != Divide(g, reg, pre + v + post)
  {
    var r := Divide(g, reg, pre);
    DivideConcat(g, reg, pre + u, post);
    DivideConcat(g, reg, pre, u);
    DivideConcat(g, reg, pre + v, post);
    DivideConcat(g, reg, pre, v);
    if Divide(g, reg, pre + u + post) == Divide(g, reg, pre + v + post) {
      DivideInjective(g, Divide(g, r, u), Divide(g, r, v), post);
      EqualCarries(g, r, u, r, v);
      CarriesDetermineBits(g, r, u, v);
      assert false;
    }
  }

  /** Any corruption of |g| / 8 adjacent bytes of a message of any length is detected. */
  lemma SubstitutionDetected(g: bits, reg: bits, pre: bytes, x: bytes, y: bytes, post: bytes)
    requires Generator(g) && |reg| == |g|
    requires |x| == |y| && 8 * |x| <= |g| && x != y
    ensures Remainder(g, pre + x + post, reg) != Remainder(g, pre + y + post, reg)
  {
    MessageBitsConcat(pre + x, post);
    MessageBitsConcat(pre, x);
    MessageBitsConcat(pre + y, post);
    MessageBitsConcat(pre, y);
    MessageBitsInjective(x, y);
    MessageBitsInjective(y, x);
    BurstDetected(g, reg, MessageBits(pre), MessageBits(x), MessageBits(y), MessageBits(post));
  }

  lemma MessageBitsInjective(x: bytes, y: bytes)
    ensures |MessageBits(x)| == 8 * |x|
    ensures |x| == |y| && MessageBits(x) == MessageBits(y) ==> x == y
  {
    assert Pow2(8) == 256;
    forall b: byte, c: byte | BitsOf(b) == BitsOf(c)
      ensures b == c
    {
      DigitsInjective(b, c, 8);
    }
    SpelledInjective(BitsOf, 8, x, y);
  }
}
