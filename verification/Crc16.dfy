/** CRC-16/CCITT-FALSE: polynomial 0x1021, initial value 0xFFFF, no reflection. */
module Crc16 {
  import opened Bytes

  /** The 16-bit register of the loop as its bits, most significant first. */
  type Word = w: seq<bool> | |w| == 16 witness
    [false, false, false, false, false, false, false, false,
     false, false, false, false, false, false, false, false]

  function Zeros(n: nat): (z: seq<bool>)
    ensures |z| == n
  {
    seq(n, _ => false)
  }

  /** 0x1021 is x^12 + x^5 + 1; the leading x^16 is the bit that is shifted out. */
  const POLY: Word :=
    [false, false, false, true, false, false, false, false,
     false, false, true, false, false, false, false, true]

  /** 0xFFFF */
  const INIT: Word :=
    [true, true, true, true, true, true, true, true,
     true, true, true, true, true, true, true, true]

  function Xor(a: Word, b: Word): Word {
    seq(16, i requires 0 <= i < 16 => a[i] != b[i])
  }

  /** Shift left by one and keep 16 bits. */
  function Shl(a: Word): Word {
    a[1..] + [false]
  }

  /** The width low-order bits of x, most significant first. */
  function BitsOf(x: nat, width: nat): (bits: seq<bool>)
    ensures |bits| == width
    decreases width
  {
    if width == 0 then [] else BitsOf(x / 2, width - 1) + [x % 2 == 1]
  }

  /** A byte shifted left by eight. */
  function High(b: byte): Word {
    BitsOf(b, 8) + Zeros(8)
  }

  /** A bit string read as an unsigned integer. */
  function Value(bits: seq<bool>): nat
    decreases |bits|
  {
    if bits == [] then 0
    else 2 * Value(bits[..|bits| - 1]) + if bits[|bits| - 1] then 1 else 0
  }

  /** One round of the inner loop. */
  function Shift(c: Word): Word {
    if c[0] then Xor(Shl(c), POLY) else Shl(c)
  }

  function ShiftN(c: Word, n: nat): Word
    decreases n
  {
    if n == 0 then c else Shift(ShiftN(c, n - 1))
  }

  function ByteStep(c: Word, b: byte): Word {
    ShiftN(Xor(c, High(b)), 8)
  }

  /** The register after the bytes of s, starting from c. */
  function CrcFrom(c: Word, s: seq<byte>): Word
    decreases |s|
  {
    if s == [] then c else ByteStep(CrcFrom(c, s[..|s| - 1]), s[|s| - 1])
  }

  function Crc(s: seq<byte>): nat {
    Value(CrcFrom(INIT, s))
  }

  lemma CrcExtend(c: Word, data: seq<byte>, start: nat, i: nat)
    requires start <= i < |data|
    ensures CrcFrom(c, data[start..i + 1]) == ByteStep(CrcFrom(c, data[start..i]), data[i])
  {
    assert data[start..i + 1][..i - start] == data[start..i];
  }

  /** The two nested loops, over data[start..end]. */
  method Crc16CcittFalse(data: seq<byte>, start: nat, end: nat) returns (crc: nat)
    requires start <= end <= |data|
    ensures crc == Crc(data[start..end])
  {
    var reg := INIT;
    for i := start to end
      invariant reg == CrcFrom(INIT, data[start..i])
    {
      CrcExtend(INIT, data, start, i);
      reg := Xor(reg, High(data[i]));
      ghost var mixed := reg;
      for k := 0 to 8
        invariant reg == ShiftN(mixed, k)
      {
        if reg[0] {
          reg := Xor(Shl(reg), POLY);
        } else {
          reg := Shl(reg);
        }
      }
    }
    crc := Value(reg);
  }

  // ----- error detection, at the level of single bits -----

  /** Feeding one message bit. */
  function BitStep(c: Word, bit: bool): Word {
    Shift(c[0 := c[0] != bit])
  }

  function BitCrc(c: Word, bits: seq<bool>): Word
    decreases |bits|
  {
    if bits == [] then c else BitStep(BitCrc(c, bits[..|bits| - 1]), bits[|bits| - 1])
  }

  /** A message as the bits that enter the register, in order. */
  function Bits(s: seq<byte>): (bits: seq<bool>)
    ensures |bits| == 8 * |s|
    decreases |s|
  {
    if s == [] then [] else Bits(s[..|s| - 1]) + BitsOf(s[|s| - 1], 8)
  }

  lemma ShiftAt(c: Word, i: nat)
    requires i < 16
    ensures Shift(c)[i] == ((if i < 15 then c[i + 1] else false) != (c[0] && (i == 3 || i == 10 || i == 15)))
  {
  }

  lemma AbsorbOne(c: Word, v: Word, bit: bool)
    requires v[0] == bit
    ensures Xor(BitStep(c, bit), Shl(v)) == Shift(Xor(c, v))
  {
    forall i | 0 <= i < 16
      ensures Xor(BitStep(c, bit), Shl(v))[i] == Shift(Xor(c, v))[i]
    {
      ShiftAt(c[0 := c[0] != bit], i);
      ShiftAt(Xor(c, v), i);
    }
  }

  /** Feeding n bits one by one is the same as mixing them all in first. */
  lemma {:induction false} Absorb(c: Word, w: Word, n: nat)
    requires n <= 16
    ensures Xor(BitCrc(c, w[..n]), w[n..] + Zeros(n)) == ShiftN(Xor(c, w), n)
    decreases n
  {
    if n == 0 {
      assert w[0..] + Zeros(0) == w;
    } else {
      Absorb(c, w, n - 1);
      var v := w[n - 1..] + Zeros(n - 1);
      assert w[..n][..n - 1] == w[..n - 1];
      assert Shl(v) == w[n..] + Zeros(n);
      AbsorbOne(BitCrc(c, w[..n - 1]), v, w[n - 1]);
    }
  }

  lemma {:induction false} BitCrcConcat(c: Word, x: seq<bool>, y: seq<bool>)
    ensures BitCrc(c, x + y) == BitCrc(BitCrc(c, x), y)
    decreases |y|
  {
    if y == [] {
      assert x + y == x;
    } else {
      assert (x + y)[..|x + y| - 1] == x + y[..|y| - 1];
      BitCrcConcat(c, x, y[..|y| - 1]);
    }
  }

  lemma XorZeros(c: Word)
    ensures Xor(c, Zeros(16)) == c
  {
  }

  /** The byte-wise loop computes the bit-serial CRC of the message. */
  lemma {:induction false} CrcIsBitwise(c: Word, s: seq<byte>)
    ensures CrcFrom(c, s) == BitCrc(c, Bits(s))
    decreases |s|
  {
    if s != [] {
      var init, b := s[..|s| - 1], s[|s| - 1];
      CrcIsBitwise(c, init);
      var before := CrcFrom(c, init);
      Absorb(before, High(b), 8);
      assert High(b)[..8] == BitsOf(b, 8) && High(b)[8..] + Zeros(8) == Zeros(16);
      XorZeros(BitCrc(before, BitsOf(b, 8)));
      BitCrcConcat(c, Bits(init), BitsOf(b, 8));
    }
  }

  /** The polynomial is odd, so the low bit of the result tells which branch was taken. */
  lemma ShiftInjective(c: Word, d: Word)
    requires Shift(c) == Shift(d)
    ensures c == d
  {
    ShiftAt(c, 15);
    ShiftAt(d, 15);
    forall i | 1 <= i < 16
      ensures c[i] == d[i]
    {
      ShiftAt(c, i - 1);
      ShiftAt(d, i - 1);
    }
  }

  lemma StepInjective(c: Word, d: Word, bit: bool)
    requires BitStep(c, bit) == BitStep(d, bit)
    ensures c == d
  {
    var c', d' := c[0 := c[0] != bit], d[0 := d[0] != bit];
    ShiftInjective(c', d');
    assert forall i | 0 <= i < 16 :: c'[i] == d'[i] && c[i] == d[i];
  }

  /** Equal suffixes carry different registers to different registers. */
  lemma {:induction false} BitCrcInjective(c: Word, d: Word, z: seq<bool>)
    requires BitCrc(c, z) == BitCrc(d, z)
    ensures c == d
    decreases |z|
  {
    if z != [] {
      var init, last := z[..|z| - 1], z[|z| - 1];
      StepInjective(BitCrc(c, init), BitCrc(d, init), last);
      BitCrcInjective(c, d, init);
    }
  }

  /** The two registers agree in their k low-order bits. */
  predicate LowAgree(c: Word, d: Word, k: nat)
    requires k <= 16
  {
    c[16 - k..] == d[16 - k..]
  }

  /** Going back one step costs one low-order bit of agreement. */
  lemma StepBack(c: Word, d: Word, x: bool, y: bool, k: nat)
    requires k < 16 && LowAgree(BitStep(c, x), BitStep(d, y), k + 1)
    ensures LowAgree(c, d, k)
    ensures c == d ==> x == y
  {
    var c', d' := c[0 := c[0] != x], d[0 := d[0] != y];
    assert Shift(c')[15 - k..][k] == Shift(c')[15] && Shift(d')[15 - k..][k] == Shift(d')[15];
    ShiftAt(c', 15);
    ShiftAt(d', 15);
    forall i | 16 - k <= i < 16
      ensures c[i] == d[i]
    {
      var j := i - 1 - (15 - k);
      assert Shift(c')[15 - k..][j] == Shift(c')[i - 1] && Shift(d')[15 - k..][j] == Shift(d')[i - 1];
      ShiftAt(c', i - 1);
      ShiftAt(d', i - 1);
    }
  }

  /** Two registers that at most 16 further bits bring together differ only in the leading
      bits, which those bits can reach; and from one register, 16 bits or fewer always lead
      apart unless they are the same bits. */
  lemma {:induction false} ShortBurst(c: Word, d: Word, x: seq<bool>, y: seq<bool>)
    requires |x| == |y| <= 16 && BitCrc(c, x) == BitCrc(d, y)
    ensures LowAgree(c, d, 16 - |x|)
    ensures c == d ==> x == y
    decreases |x|
  {
    if x != [] {
      FirstStep(c, x);
      FirstStep(d, y);
      assert x == [x[0]] + x[1..] && y == [y[0]] + y[1..];
      ShortBurst(BitStep(c, x[0]), BitStep(d, y[0]), x[1..], y[1..]);
      StepBack(c, d, x[0], y[0], 16 - |x|);
    }
  }

  lemma {:induction false} BitsOfInjective(a: nat, b: nat, width: nat)
    requires BitsOf(a, width) == BitsOf(b, width)
    requires a < Pow2(width) && b < Pow2(width)
    ensures a == b
    decreases width
  {
    if width > 0 {
      var x, y := BitsOf(a, width), BitsOf(b, width);
      assert x[..width - 1] == BitsOf(a / 2, width - 1) && y[..width - 1] == BitsOf(b / 2, width - 1);
      assert x[width - 1] == (a % 2 == 1) && y[width - 1] == (b % 2 == 1);
      BitsOfInjective(a / 2, b / 2, width - 1);
    }
  }

  function Pow2(n: nat): nat {
    if n == 0 then 1 else 2 * Pow2(n - 1)
  }

  lemma ByteBitsInjective(a: byte, b: byte)
    requires BitsOf(a, 8) == BitsOf(b, 8)
    ensures a == b
  {
    hide BitsOf;
    assert Pow2(4) == 16 && Pow2(8) == 256;
    BitsOfInjective(a, b, 8);
  }

  lemma BitsSplit(s: seq<byte>)
    requires s != []
    ensures Bits(s)[..8 * |s| - 8] == Bits(s[..|s| - 1])
    ensures Bits(s)[8 * |s| - 8..] == BitsOf(s[|s| - 1], 8)
  {
  }

  lemma {:induction false} BitsInjective(s: seq<byte>, t: seq<byte>)
    requires |s| == |t| && Bits(s) == Bits(t)
    ensures s == t
    decreases |s|
  {
    hide Bits, BitsOf;
    if s != [] {
      var n := |s| - 1;
      BitsSplit(s);
      BitsSplit(t);
      BitsInjective(s[..n], t[..n]);
      ByteBitsInjective(s[n], t[n]);
      assert s == s[..n] + [s[n]] && t == t[..n] + [t[n]];
    }
  }

  lemma {:induction false} ValueInjective(a: seq<bool>, b: seq<bool>)
    requires |a| == |b| && Value(a) == Value(b)
    ensures a == b
    decreases |a|
  {
    if a != [] {
      ValueInjective(a[..|a| - 1], b[..|b| - 1]);
      assert a == a[..|a| - 1] + [a[|a| - 1]] && b == b[..|b| - 1] + [b[|b| - 1]];
    }
  }

  lemma {:induction false} ValueBound(a: seq<bool>)
    ensures Value(a) < Pow2(|a|)
    decreases |a|
  {
    if a != [] {
      ValueBound(a[..|a| - 1]);
    }
  }

  lemma CrcBound(s: seq<byte>)
    ensures Crc(s) < 65536
  {
    ValueBound(CrcFrom(INIT, s));
    assert Pow2(8) == 256;
    assert Pow2(16) == 256 * Pow2(8) by {
      assert Pow2(12) == 16 * Pow2(8);
    }
  }

  /** Two bit strings that agree up to lo and from hi on, and that the register cannot tell
      apart, cannot differ within 16 bits in between. */
  lemma BurstBits(c: Word, x: seq<bool>, y: seq<bool>, lo: nat, hi: nat)
    requires |x| == |y| && lo <= hi <= |x| && hi - lo <= 16
    requires x[..lo] == y[..lo] && x[hi..] == y[hi..]
    requires BitCrc(c, x) == BitCrc(c, y)
    ensures x == y
  {
    SplitAt(c, x, lo, hi);
    SplitAt(c, y, lo, hi);
    var d := BitCrc(c, x[..lo]);
    BitCrcInjective(BitCrc(d, x[lo..hi]), BitCrc(d, y[lo..hi]), x[hi..]);
    ShortBurst(d, d, x[lo..hi], y[lo..hi]);
    assert x == x[..lo] + x[lo..hi] + x[hi..] && y == y[..lo] + y[lo..hi] + y[hi..];
  }

  lemma SplitAt(c: Word, x: seq<bool>, lo: nat, hi: nat)
    requires lo <= hi <= |x|
    ensures BitCrc(c, x) == BitCrc(BitCrc(BitCrc(c, x[..lo]), x[lo..hi]), x[hi..])
  {
    var u, v, z := x[..lo], x[lo..hi], x[hi..];
    assert x == u + (v + z);
    BitCrcConcat(c, u, v + z);
    BitCrcConcat(BitCrc(c, u), v, z);
  }

  lemma BurstFrom(c: Word, s: seq<byte>, t: seq<byte>, p: nat)
    requires |s| == |t| && CrcFrom(c, s) == CrcFrom(c, t)
    requires forall i | 0 <= i < 8 * |s| && !(p <= i < p + 16) :: Bits(s)[i] == Bits(t)[i]
    ensures s == t
  {
    CrcIsBitwise(c, s);
    CrcIsBitwise(c, t);
    BurstWindow(c, Bits(s), Bits(t), p);
    BitsInjective(s, t);
  }

  lemma BurstWindow(c: Word, x: seq<bool>, y: seq<bool>, p: nat)
    requires |x| == |y| && BitCrc(c, x) == BitCrc(c, y)
    requires forall i | 0 <= i < |x| && !(p <= i < p + 16) :: x[i] == y[i]
    ensures x == y
  {
    var lo := if p < |x| then p else |x|;
    var hi := if p + 16 < |x| then p + 16 else |x|;
    BurstBits(c, x, y, lo, hi);
  }

  /** Burst detection: two different messages of one length whose bits agree everywhere outside
      some window of 16 consecutive bits (any alignment, so in particular any two adjacent
      bytes) never have the same CRC. */
  lemma BurstDetected(s: seq<byte>, t: seq<byte>, p: nat)
    requires |s| == |t| && s != t
    requires forall i | 0 <= i < 8 * |s| && !(p <= i < p + 16) :: Bits(s)[i] == Bits(t)[i]
    ensures Crc(s) != Crc(t)
  {
    if Crc(s) == Crc(t) {
      ValueInjective(CrcFrom(INIT, s), CrcFrom(INIT, t));
      BurstFrom(INIT, s, t, p);
    }
  }

  // ----- how damage changes the CRC -----

  function XorBits(x: seq<bool>, y: seq<bool>): (z: seq<bool>)
    requires |x| == |y|
    ensures |z| == |x|
  {
    seq(|x|, i requires 0 <= i < |x| => x[i] != y[i])
  }

  /** The effect of flipping the bits set in damage, whatever message they are flipped in. */
  function Syndrome(damage: seq<bool>): Word {
    BitCrc(Zeros(16), damage)
  }

  lemma StepLinear(c: Word, d: Word, x: bool, y: bool)
    ensures BitStep(Xor(c, d), x != y) == Xor(BitStep(c, x), BitStep(d, y))
  {
    var c', d' := c[0 := c[0] != x], d[0 := d[0] != y];
    var e' := Xor(c, d)[0 := Xor(c, d)[0] != (x != y)];
    forall i | 0 <= i < 16
      ensures Shift(e')[i] == Xor(Shift(c'), Shift(d'))[i]
    {
      ShiftAt(c', i);
      ShiftAt(d', i);
      ShiftAt(e', i);
    }
  }

  lemma {:induction false} BitCrcLinear(c: Word, d: Word, x: seq<bool>, y: seq<bool>)
    requires |x| == |y|
    ensures BitCrc(Xor(c, d), XorBits(x, y)) == Xor(BitCrc(c, x), BitCrc(d, y))
    decreases |x|
  {
    if x != [] {
      var n := |x| - 1;
      BitCrcLinear(c, d, x[..n], y[..n]);
      assert XorBits(x, y)[..n] == XorBits(x[..n], y[..n]);
      StepLinear(BitCrc(c, x[..n]), BitCrc(d, y[..n]), x[n], y[n]);
    }
  }

  /** The CRCs of two messages of one length differ by the syndrome of their difference. */
  lemma CrcDifference(c: Word, s: seq<byte>, t: seq<byte>)
    requires |s| == |t|
    ensures Xor(CrcFrom(c, s), CrcFrom(c, t)) == Syndrome(XorBits(Bits(s), Bits(t)))
  {
    hide BitCrc, CrcFrom;
    CrcIsBitwise(c, s);
    CrcIsBitwise(c, t);
    BitCrcLinear(c, c, Bits(s), Bits(t));
    assert Xor(c, c) == Zeros(16);
  }

  lemma {:induction false} ZerosChangeNothing(n: nat)
    ensures BitCrc(Zeros(16), Zeros(n)) == Zeros(16)
    decreases n
  {
    if n > 0 {
      ZerosChangeNothing(n - 1);
      assert Zeros(n)[..n - 1] == Zeros(n - 1);
      assert Shift(Zeros(16)) == Zeros(16);
      assert Zeros(16)[0 := false] == Zeros(16);
    }
  }

  /** Feeding four bits at once: what the leading four bits cancel to is spread by the generator. */
  function Nibble(c: Word, m: seq<bool>): Word
    requires |m| == 4
  {
    var x := XorBits(c[..4], m);
    var spread := x + [false, false, false] + x + [false] + x;
    Xor(c[4..] + Zeros(4), spread)
  }

  function FourSteps(c: Word, m: seq<bool>): Word
    requires |m| == 4
  {
    BitStep(BitStep(BitStep(BitStep(c, m[0]), m[1]), m[2]), m[3])
  }

  lemma FourStepsAt(c: Word, m: seq<bool>, i: nat)
    requires |m| == 4 && i < 16
    ensures FourSteps(c, m)[i] == Nibble(c, m)[i]
  {
    hide BitStep, Nibble;
    var c1 := BitStep(c, m[0]);
    var c2 := BitStep(c1, m[1]);
    var c3 := BitStep(c2, m[2]);
    StepAt(c3, m[3], i);
    StepAt(c3, m[3], 0);
    StepAt(c2, m[2], if i < 15 then i + 1 else 0);
    StepAt(c2, m[2], 0);
    StepAt(c1, m[1], if i < 14 then i + 2 else 0);
    StepAt(c1, m[1], 0);
    StepAt(c1, m[1], 1);
    StepAt(c, m[0], if i < 13 then i + 3 else 0);
    StepAt(c, m[0], 0);
    StepAt(c, m[0], 1);
    StepAt(c, m[0], 2);
    NibbleAt(c, m, i);
  }

  lemma NibbleAt(c: Word, m: seq<bool>, i: nat)
    requires |m| == 4 && i < 16
    ensures Nibble(c, m)[i]
         == ((i < 12 && c[i + 4])
             != (if i < 4 then c[i] != m[i]
                 else if 7 <= i < 11 then c[i - 7] != m[i - 7]
                 else 12 <= i && c[i - 12] != m[i - 12]))
  {
  }

  lemma NibbleIsFourBits(c: Word, m: seq<bool>)
    requires |m| == 4
    ensures BitCrc(c, m) == Nibble(c, m)
  {
    hide BitStep, Nibble;
    var c1 := BitStep(c, m[0]);
    var c2 := BitStep(c1, m[1]);
    var c3 := BitStep(c2, m[2]);
    FirstStep(c, m);
    FirstStep(c1, m[1..]);
    FirstStep(c2, m[2..]);
    FirstStep(c3, m[3..]);
    assert m[1..][1..] == m[2..] && m[2..][1..] == m[3..] && m[3..][1..] == [];
    assert BitCrc(c, m) == FourSteps(c, m);
    forall i | 0 <= i < 16
      ensures FourSteps(c, m)[i] == Nibble(c, m)[i]
    {
      FourStepsAt(c, m, i);
    }
  }

  lemma StepAt(c: Word, bit: bool, i: nat)
    requires i < 16
    ensures BitStep(c, bit)[i]
         == ((if i < 15 then c[i + 1] else false) != ((c[0] != bit) && (i == 3 || i == 10 || i == 15)))
  {
    ShiftAt(c[0 := c[0] != bit], i);
  }

  lemma ByteSyndromeAt(e: seq<bool>, i: nat)
    requires |e| == 8 && i < 16
    ensures Syndrome(e)[i] == Nibble(Nibble(Zeros(16), e[..4]), e[4..])[i]
  {
    assert e == e[..4] + e[4..];
    BitCrcConcat(Zeros(16), e[..4], e[4..]);
    NibbleIsFourBits(Zeros(16), e[..4]);
    NibbleIsFourBits(Nibble(Zeros(16), e[..4]), e[4..]);
  }

  /** The syndrome of damage to one byte, bit by bit. */
  function SyndromeBit(e: seq<bool>, i: nat): bool
    requires |e| == 8 && i < 16
  {
    if i < 3 then e[i] != e[i + 4]
    else if i == 3 then e[0] != (e[3] != e[7])
    else if i < 7 then e[i - 3]
    else if i == 7 then e[0] != e[4]
    else if i == 8 then e[0] != (e[1] != e[5])
    else if i < 11 then e[i - 8] != (e[i - 7] != e[i - 3])
    else if i == 11 then e[3]
    else e[i - 12] != e[i - 8]
  }

  lemma SyndromeBits(e: seq<bool>, i: nat)
    requires |e| == 8 && i < 16
    ensures Syndrome(e)[i] == SyndromeBit(e, i)
  {
    hide Nibble, Syndrome;
    var m := e[..4];
    var w := Nibble(Zeros(16), m);
    ByteSyndromeAt(e, i);
    NibbleAt(w, e[4..], i);
    if i < 12 {
      NibbleAt(Zeros(16), m, i + 4);
    }
    NibbleAt(Zeros(16), m, if i < 4 then i else if 7 <= i < 11 then i - 7 else if 12 <= i then i - 12 else 0);
  }

  /** The flips 0x89 and 0xA1, most significant bit first. */
  const FLIP_89: seq<bool> := [true, false, false, false, true, false, false, true]
  const FLIP_A1: seq<bool> := [true, false, true, false, false, false, false, true]

  lemma HighByteClear(e: seq<bool>)
    requires |e| == 8
    ensures Syndrome(e)[..8] == Zeros(8) <==> e == Zeros(8) || e == FLIP_89
  {
    hide Syndrome, SyndromeBit;
    var t := Syndrome(e);
    if t[..8] == Zeros(8) {
      forall i | 0 <= i < 8
        ensures !SyndromeBit(e, i)
      {
        SyndromeBits(e, i);
        assert t[i] == t[..8][i];
      }
      ClearMeans(e);
    }
    if e == Zeros(8) || e == FLIP_89 {
      forall i | 0 <= i < 8
        ensures !t[i]
      {
        SyndromeBits(e, i);
        LowByteThen(e, i);
      }
      assert t[..8] == Zeros(8);
    }
  }

  lemma ClearMeans(e: seq<bool>)
    requires |e| == 8 && forall i | 0 <= i < 8 :: !SyndromeBit(e, i)
    ensures e == Zeros(8) || e == FLIP_89
  {
    assert !SyndromeBit(e, 0) && !SyndromeBit(e, 1) && !SyndromeBit(e, 2) && !SyndromeBit(e, 3);
    assert !SyndromeBit(e, 4) && !SyndromeBit(e, 5) && !SyndromeBit(e, 6) && !SyndromeBit(e, 7);
  }

  lemma LowByteThen(e: seq<bool>, i: nat)
    requires i < 8
    ensures e == Zeros(8) ==> !SyndromeBit(e, i) && !SyndromeBit(e, 8 + i)
    ensures e == FLIP_89 ==> !SyndromeBit(e, i) && SyndromeBit(e, 8 + i) == FLIP_A1[i]
  {
  }

  lemma LowByteOf(e: seq<bool>)
    requires e == Zeros(8) || e == FLIP_89
    ensures Syndrome(e)[8..] == if e == FLIP_89 then FLIP_A1 else Zeros(8)
  {
    hide Syndrome, SyndromeBit;
    var t, d := Syndrome(e), if e == FLIP_89 then FLIP_A1 else Zeros(8);
    forall i | 0 <= i < 8
      ensures t[8..][i] == d[i]
    {
      SyndromeBits(e, 8 + i);
      LowByteThen(e, i);
      assert FLIP_89[0] && !Zeros(8)[0];
    }
  }

  /** The only damage to a single byte whose syndrome leaves the high byte of the CRC alone is
      0x89, and it flips 0xA1 in the low byte. */
  lemma ByteSyndrome(e: seq<bool>, d: seq<bool>)
    requires |e| == 8 && |d| == 8
    ensures Syndrome(e) == Zeros(8) + d
            <==> (e == Zeros(8) && d == Zeros(8)) || (e == FLIP_89 && d == FLIP_A1)
  {
    hide Syndrome;
    var t := Syndrome(e);
    assert t == t[..8] + t[8..];
    assert (Zeros(8) + d)[..8] == Zeros(8) && (Zeros(8) + d)[8..] == d;
    HighByteClear(e);
    assert FLIP_89[0] && !Zeros(8)[0];
    if e == Zeros(8) || e == FLIP_89 {
      LowByteOf(e);
    }
  }

  // ----- parity: the generator has the factor x + 1 -----

  /** Is the number of bits set odd? */
  function Odd(bits: seq<bool>): bool
    decreases |bits|
  {
    bits != [] && Odd(bits[..|bits| - 1]) != bits[|bits| - 1]
  }

  lemma {:induction false} OddConcat(x: seq<bool>, y: seq<bool>)
    ensures Odd(x + y) == (Odd(x) != Odd(y))
    decreases |y|
  {
    if y == [] {
      assert x + y == x;
    } else {
      assert (x + y)[..|x + y| - 1] == x + y[..|y| - 1];
      OddConcat(x, y[..|y| - 1]);
    }
  }

  lemma {:induction false} OddXor(x: seq<bool>, y: seq<bool>)
    requires |x| == |y|
    ensures Odd(XorBits(x, y)) == (Odd(x) != Odd(y))
    decreases |x|
  {
    if x != [] {
      var n := |x| - 1;
      OddXor(x[..n], y[..n]);
      assert XorBits(x, y)[..n] == XorBits(x[..n], y[..n]);
    }
  }

  lemma OddPoly()
    ensures Odd(POLY)
  {
    var quiet: seq<bool> := [false, false, false];
    var a, b := quiet + [true] + quiet, quiet + [true] + quiet;
    assert POLY == a + ([false, false, false] + [true] + ([false] + quiet)) + [true];
    OddBit(true);
    OddBit(false);
    OddConcat([false], [false]);
    assert [false] + [false] == [false, false];
    OddConcat([false, false], [false]);
    assert [false, false] + [false] == quiet;
    OddConcat(quiet, [true]);
    OddConcat(quiet + [true], quiet);
    OddConcat([false], quiet);
    OddConcat(quiet + [true], [false] + quiet);
    OddConcat(a, quiet + [true] + ([false] + quiet));
    OddConcat(a + (quiet + [true] + ([false] + quiet)), [true]);
  }

  lemma OddBit(bit: bool)
    ensures Odd([bit]) == bit
  {
    assert [bit][..0] == [];
  }

  /** A round keeps the parity: the bit shifted out comes back as the three bits of the generator. */
  lemma ShiftParity(c: Word)
    ensures Odd(Shift(c)) == Odd(c)
  {
    hide Odd;
    OddPoly();
    OddBit(c[0]);
    OddBit(false);
    assert c == [c[0]] + c[1..];
    OddConcat([c[0]], c[1..]);
    OddConcat(c[1..], [false]);
    assert Xor(Shl(c), POLY) == XorBits(Shl(c), POLY);
    OddXor(Shl(c), POLY);
  }

  lemma StepParity(c: Word, bit: bool)
    ensures Odd(BitStep(c, bit)) == (Odd(c) != bit)
  {
    hide Odd, Shift;
    var first := c[0] != bit;
    OddBit(c[0]);
    OddBit(first);
    assert c == [c[0]] + c[1..] && c[0 := first] == [first] + c[1..];
    OddConcat([c[0]], c[1..]);
    OddConcat([first], c[1..]);
    ShiftParity(c[0 := first]);
  }

  /** Whatever is damaged, its syndrome has the same parity. */
  lemma {:induction false} CrcParity(c: Word, bits: seq<bool>)
    ensures Odd(BitCrc(c, bits)) == (Odd(c) != Odd(bits))
    decreases |bits|
  {
    hide BitStep;
    if bits != [] {
      CrcParity(c, bits[..|bits| - 1]);
      StepParity(BitCrc(c, bits[..|bits| - 1]), bits[|bits| - 1]);
    }
  }

  lemma {:induction false} ZerosAreEven(n: nat)
    ensures !Odd(Zeros(n))
    decreases n
  {
    if n > 0 {
      assert Zeros(n)[..n - 1] == Zeros(n - 1);
      ZerosAreEven(n - 1);
    }
  }

  lemma SyndromeParity(damage: seq<bool>)
    ensures Odd(Syndrome(damage)) == Odd(damage)
  {
    CrcParity(Zeros(16), damage);
    ZerosAreEven(16);
  }

  // ----- bit strings and the numbers they denote -----

  lemma {:induction false} BitsOfValue(w: seq<bool>)
    ensures BitsOf(Value(w), |w|) == w
    decreases |w|
  {
    if w != [] {
      BitsOfValue(w[..|w| - 1]);
      assert w == w[..|w| - 1] + [w[|w| - 1]];
    }
  }

  lemma {:induction false} BitsOfPair(hi: nat, lo: nat, width: nat, k: nat)
    requires lo < Pow2(k)
    ensures BitsOf(hi * Pow2(k) + lo, width + k) == BitsOf(hi, width) + BitsOf(lo, k)
    decreases k
  {
    if k == 0 {
      assert BitsOf(lo, 0) == [];
      assert hi * Pow2(0) + lo == hi;
    } else {
      var x := hi * Pow2(k) + lo;
      assert hi * Pow2(k) == 2 * (hi * Pow2(k - 1));
      assert x / 2 == hi * Pow2(k - 1) + lo / 2 && x % 2 == lo % 2;
      BitsOfPair(hi, lo / 2, width, k - 1);
    }
  }

  /** Replacing s by t and its CRC by c goes unnoticed exactly when the flips in the CRC are the
      syndrome of the flips in the message. */
  lemma DamageIff(s: seq<byte>, t: seq<byte>, c: nat)
    requires |s| == |t| && c < 65536
    ensures Crc(t) == c <==> XorBits(BitsOf(Crc(s), 16), BitsOf(c, 16)) == Syndrome(XorBits(Bits(s), Bits(t)))
  {
    hide CrcFrom, Bits, BitsOf, Syndrome, Value;
    var a, b, d := CrcFrom(INIT, s), CrcFrom(INIT, t), BitsOf(c, 16);
    BitsOfValue(a);
    BitsOfValue(b);
    CrcBound(t);
    CrcDifference(INIT, s, t);
    WordsInjective(Crc(t), c);
    assert XorBits(a, b) == Xor(a, b);
    XorBitsCancel(a, b, d);
  }

  lemma WordsInjective(a: nat, b: nat)
    requires a < 65536 && b < 65536
    ensures BitsOf(a, 16) == BitsOf(b, 16) ==> a == b
  {
    hide BitsOf;
    assert Pow2(8) == 256;
    assert Pow2(12) == 16 * Pow2(8) && Pow2(16) == 16 * Pow2(12);
    if BitsOf(a, 16) == BitsOf(b, 16) {
      BitsOfInjective(a, b, 16);
    }
  }

  lemma XorBitsCancel(a: seq<bool>, b: seq<bool>, d: seq<bool>)
    requires |a| == |b| == |d|
    ensures XorBits(a, d) == XorBits(a, b) <==> d == b
  {
    if XorBits(a, d) == XorBits(a, b) {
      assert forall i | 0 <= i < |a| :: XorBits(a, d)[i] == XorBits(a, b)[i] ==> d[i] == b[i];
    }
  }

  /** The bits in which two bytes differ. */
  function Flips(a: byte, b: byte): (flips: seq<bool>)
    ensures |flips| == 8
  {
    XorBits(BitsOf(a, 8), BitsOf(b, 8))
  }

  /** The syndrome of damage to the last byte of a message depends on that byte only. */
  lemma LastByteSyndrome(m: seq<byte>, x: byte, y: byte)
    ensures Syndrome(XorBits(Bits(m + [x]), Bits(m + [y]))) == Syndrome(Flips(x, y))
  {
    hide BitsOf, BitCrc;
    var n := 8 * |m|;
    BitsSplit(m + [x]);
    BitsSplit(m + [y]);
    assert (m + [x])[..|m|] == m == (m + [y])[..|m|];
    var u, v := Bits(m + [x]), Bits(m + [y]);
    assert u == u[..n] + u[n..] && v == v[..n] + v[n..];
    assert XorBits(u, v) == Zeros(n) + Flips(x, y);
    BitCrcConcat(Zeros(16), Zeros(n), Flips(x, y));
    ZerosChangeNothing(n);
  }

  /** How flips in the low byte of a CRC show in its 16 bits. */
  lemma LowByteFlips(hi: byte, lo: byte, lo': byte)
    ensures XorBits(BitsOf(256 * (hi as nat) + lo, 16), BitsOf(256 * (hi as nat) + lo', 16))
         == Zeros(8) + Flips(lo, lo')
  {
    hide BitsOf;
    assert Pow2(4) == 16 && Pow2(8) == 256;
    BitsOfPair(hi, lo, 8, 8);
    BitsOfPair(hi, lo', 8, 8);
  }

  lemma FlipPatterns()
    ensures BitsOf(0x89, 8) == FLIP_89 && BitsOf(0xA1, 8) == FLIP_A1
  {
    assert Pow2(4) == 16;
    BitsOfPair(8, 9, 4, 4);
    BitsOfPair(10, 1, 4, 4);
    assert BitsOf(8, 4) == [true, false, false, false] && BitsOf(9, 4) == [true, false, false, true];
    assert BitsOf(10, 4) == [true, false, true, false] && BitsOf(1, 4) == [false, false, false, true];
  }

  /** Damage to the last byte of a message and to the low byte of its CRC: undetected exactly when
      nothing is flipped, or 0x89 in the one and 0xA1 in the other. */
  lemma LastByteAndLowByte(m: seq<byte>, x: byte, y: byte, hi: byte, lo: byte, lo': byte)
    requires Crc(m + [x]) == 256 * (hi as nat) + lo
    ensures Crc(m + [y]) == 256 * (hi as nat) + lo'
            <==> (y == x && lo' == lo) || (Flips(x, y) == FLIP_89 && Flips(lo, lo') == FLIP_A1)
  {
    hide Crc, Bits, BitsOf, Syndrome, Flips;
    DamageIff(m + [x], m + [y], 256 * (hi as nat) + lo');
    LastByteSyndrome(m, x, y);
    LowByteFlips(hi, lo, lo');
    ByteSyndrome(Flips(x, y), Flips(lo, lo'));
    NoFlips(x, y);
    NoFlips(lo, lo');
  }

  lemma NoFlips(a: byte, b: byte)
    ensures Flips(a, b) == Zeros(8) <==> a == b
  {
    hide BitsOf;
    var u, v := BitsOf(a, 8), BitsOf(b, 8);
    if Flips(a, b) == Zeros(8) {
      assert forall i | 0 <= i < 8 :: (u[i] != v[i]) == Flips(a, b)[i] == Zeros(8)[i];
      assert u == v;
      ByteBitsInjective(a, b);
    }
  }

  // ----- the register as the remainder of a polynomial division -----

  /** The generator x^16 + x^12 + x^5 + 1, leading coefficient first. */
  predicate InGenerator(i: nat) {
    i == 16 - 16 || i == 16 - 12 || i == 16 - 5 || i == 16 - 0
  }

  /** One line of long division over GF(2): cancel the leading coefficient, if it is set, with
      the generator, and drop it. */
  function Cancel(v: seq<bool>): seq<bool>
    requires |v| > 16
  {
    seq(|v| - 1, i requires 0 <= i < |v| - 1 => v[i + 1] != (v[0] && InGenerator(i + 1)))
  }

  /** The remainder of v modulo the generator. */
  function Remainder(v: seq<bool>): Word
    requires |v| >= 16
    decreases |v|
  {
    if |v| == 16 then v else Remainder(Cancel(v))
  }

  /** The message times x^16, with the initial register added to its 16 leading coefficients. */
  function Dividend(c: Word, bits: seq<bool>): (v: seq<bool>)
    ensures |v| == |bits| + 16
  {
    seq(|bits| + 16, i requires 0 <= i < |bits| + 16 =>
      (if i < 16 then c[i] else false) != (if i < |bits| then bits[i] else false))
  }

  lemma CancelIsStep(c: Word, bits: seq<bool>)
    requires bits != []
    ensures Cancel(Dividend(c, bits)) == Dividend(BitStep(c, bits[0]), bits[1..])
  {
    var v, w := Cancel(Dividend(c, bits)), Dividend(BitStep(c, bits[0]), bits[1..]);
    forall i | 0 <= i < |v|
      ensures v[i] == w[i]
    {
      if i < 16 {
        ShiftAt(c[0 := c[0] != bits[0]], i);
      }
    }
  }

  lemma FirstStep(c: Word, bits: seq<bool>)
    requires bits != []
    ensures BitCrc(c, bits) == BitCrc(BitStep(c, bits[0]), bits[1..])
  {
    assert bits == bits[..1] + bits[1..];
    BitCrcConcat(c, bits[..1], bits[1..]);
    assert bits[..1][..0] == [] && BitCrc(c, []) == c;
    assert BitCrc(c, bits[..1]) == BitStep(c, bits[0]);
  }

  lemma {:induction false} BitCrcIsRemainder(c: Word, bits: seq<bool>)
    ensures BitCrc(c, bits) == Remainder(Dividend(c, bits))
    decreases |bits|
  {
    if bits == [] {
      assert Dividend(c, bits) == c;
    } else {
      FirstStep(c, bits);
      CancelIsStep(c, bits);
      BitCrcIsRemainder(BitStep(c, bits[0]), bits[1..]);
    }
  }

  /** The message times x^16, with its 16 leading coefficients complemented. */
  function Complemented(bits: seq<bool>): (v: seq<bool>)
    ensures |v| == |bits| + 16
  {
    seq(|bits| + 16, i requires 0 <= i < |bits| + 16 =>
      if i < 16 then !(i < |bits| && bits[i]) else i < |bits| && bits[i])
  }

  /** What the two loops compute is the textbook CRC, preset with ones. */
  lemma CrcIsRemainder(s: seq<byte>)
    ensures Crc(s) == Value(Remainder(Complemented(Bits(s))))
  {
    hide Bits, BitCrc, Remainder, CrcFrom;
    CrcIsBitwise(INIT, s);
    BitCrcIsRemainder(INIT, Bits(s));
    assert Dividend(INIT, Bits(s)) == Complemented(Bits(s));
  }
}
