/** The table-driven CRC-16 of engmode/crc16.c, proved against long division by
    the polynomial its header names: x^16 + x^15 + x^2 + 1.

    The reference takes a message one bit at a time, least significant bit of
    each byte first, and keeps the sixteen coefficients of a remainder, highest
    power first. Nothing in it mentions bytes or the table.
 */
module Crc16 {
  import opened Bits

  // ---------------------------------------------------------------- reference

  /** The polynomial 0x8005 (with its implicit x^16), as the source documents it. */
  predicate Coefficient(power: nat) {
    power == 16 || power == 15 || power == 2 || power == 0
  }

  /** Multiply the remainder by x and reduce it. r[i] is the coefficient of x^(15-i). */
  function Clock(r: Word): Word {
    seq(16, i requires 0 <= i < 16 => (i < 15 && r[i + 1]) != (r[0] && Coefficient(15 - i)))
  }

  /** Take in one more message bit. */
  function BitStep(r: Word, bit: bool): Word {
    Clock(r[0 := r[0] != bit])
  }

  function CrcBits(r: Word, bits: seq<bool>): Word
    decreases |bits|
  {
    if bits == [] then r else CrcBits(BitStep(r, bits[0]), bits[1..])
  }

  function MessageBits(m: seq<byte>): (bits: seq<bool>)
    ensures |bits| == 8 * |m|
  {
    if m == [] then [] else ByteBits(m[0]) + MessageBits(m[1..])
  }

  /** The checksum of a message, started from register value `crc`. */
  function Crc(crc: Word, m: seq<byte>): Word {
    CrcBits(crc, MessageBits(m))
  }

  /** crc & 0xff and (crc >> 8) & 0xff. */
  function LowByte(crc: Word): byte { ByteOf(crc[..8]) }

  function HighByte(crc: Word): byte { ByteOf(crc[8..]) }

  // ------------------------------------------------------------ absorbing bits

  function Pad(w: seq<bool>): Word
    requires |w| <= 16
  {
    w + Zeros(16 - |w|)
  }

  /** The central fact: up to sixteen message bits may be xored into the
      register at once and clocked through with zero input afterwards. */
  lemma {:induction false} Absorb(r: Word, w: seq<bool>)
    requires |w| <= 16
    ensures CrcBits(r, w) == CrcBits(Xor(r, Pad(w)), Zeros(|w|))
    decreases |w|
  {
    if w == [] {
      assert Xor(r, Pad(w)) == r;
    } else {
      var next := BitStep(r, w[0]);
      Absorb(next, w[1..]);
      assert Xor(next, Pad(w[1..])) == BitStep(Xor(r, Pad(w)), false);
      assert Zeros(|w|)[1..] == Zeros(|w| - 1);
    }
  }

  lemma {:induction false} CrcBitsAppend(r: Word, a: seq<bool>, b: seq<bool>)
    ensures CrcBits(r, a + b) == CrcBits(CrcBits(r, a), b)
    decreases |a|
  {
    if a == [] {
      assert a + b == b;
    } else {
      CrcBitsAppend(BitStep(r, a[0]), a[1..], b);
      assert (a + b)[1..] == a[1..] + b;
    }
  }

  lemma Associative(a: seq<bool>, b: seq<bool>, c: seq<bool>)
    ensures a + (b + c) == (a + b) + c
  {
  }

  lemma {:induction false} MessageBitsAppend(a: seq<byte>, b: seq<byte>)
    ensures MessageBits(a + b) == MessageBits(a) + MessageBits(b)
  {
    if a == [] {
      assert a + b == b;
    } else {
      MessageBitsAppend(a[1..], b);
      assert (a + b)[1..] == a[1..] + b && (a + b)[0] == a[0];
      Associative(ByteBits(a[0]), MessageBits(a[1..]), MessageBits(b));
    }
  }

  lemma CrcAppend(crc: Word, a: seq<byte>, b: seq<byte>)
    ensures Crc(crc, a + b) == Crc(Crc(crc, a), b)
  {
    MessageBitsAppend(a, b);
    CrcBitsAppend(crc, MessageBits(a), MessageBits(b));
  }

  lemma OneByte(crc: Word, b: byte)
    ensures Crc(crc, [b]) == CrcBits(crc, ByteBits(b))
  {
    assert MessageBits([b]) == ByteBits(b);
  }

  lemma ZeroInput(r: Word, n: nat)
    requires n > 0
    ensures CrcBits(r, Zeros(n)) == CrcBits(Clock(r), Zeros(n - 1))
  {
    assert Zeros(n)[1..] == Zeros(n - 1);
    assert r[0 := r[0] != false] == r;
  }

  // ---------------------------------------------------------------- linearity

  /** The checksum is linear over xor, of equal-length messages and of start values. */
  lemma {:induction false} CrcLinear(r: Word, s: Word, a: seq<bool>, b: seq<bool>)
    requires |a| == |b|
    ensures CrcBits(Xor(r, s), Xor(a, b)) == Xor(CrcBits(r, a), CrcBits(s, b))
    decreases |a|
  {
    if a != [] {
      assert Xor(a, b)[1..] == Xor(a[1..], b[1..]);
      assert BitStep(Xor(r, s), a[0] != b[0]) == Xor(BitStep(r, a[0]), BitStep(s, b[0]));
      CrcLinear(BitStep(r, a[0]), BitStep(s, b[0]), a[1..], b[1..]);
    }
  }

  lemma DifferenceOfChecksums(r: Word, a: seq<bool>, b: seq<bool>)
    requires |a| == |b|
    ensures Xor(CrcBits(r, a), CrcBits(r, b)) == CrcBits(Zeros(16), Xor(a, b))
  {
    CrcLinear(r, r, a, b);
    XorIsEquality(r, r);
  }

  // ---------------------------------------------------------------- the table

  // crc16_table, eight entries to a row and eight rows to a function.

  function Rows0(k: nat): (row: seq<nat>)
    requires k < 8
    ensures |row| == 8
  {
    if k == 0 then [0x0000, 0xC0C1, 0xC181, 0x0140, 0xC301, 0x03C0, 0x0280, 0xC241]
    else if k == 1 then [0xC601, 0x06C0, 0x0780, 0xC741, 0x0500, 0xC5C1, 0xC481, 0x0440]
    else if k == 2 then [0xCC01, 0x0CC0, 0x0D80, 0xCD41, 0x0F00, 0xCFC1, 0xCE81, 0x0E40]
    else if k == 3 then [0x0A00, 0xCAC1, 0xCB81, 0x0B40, 0xC901, 0x09C0, 0x0880, 0xC841]
    else if k == 4 then [0xD801, 0x18C0, 0x1980, 0xD941, 0x1B00, 0xDBC1, 0xDA81, 0x1A40]
    else if k == 5 then [0x1E00, 0xDEC1, 0xDF81, 0x1F40, 0xDD01, 0x1DC0, 0x1C80, 0xDC41]
    else if k == 6 then [0x1400, 0xD4C1, 0xD581, 0x1540, 0xD701, 0x17C0, 0x1680, 0xD641]
    else [0xD201, 0x12C0, 0x1380, 0xD341, 0x1100, 0xD1C1, 0xD081, 0x1040]
  }

  function Rows8(k: nat): (row: seq<nat>)
    requires k < 8
    ensures |row| == 8
  {
    if k == 0 then [0xF001, 0x30C0, 0x3180, 0xF141, 0x3300, 0xF3C1, 0xF281, 0x3240]
    else if k == 1 then [0x3600, 0xF6C1, 0xF781, 0x3740, 0xF501, 0x35C0, 0x3480, 0xF441]
    else if k == 2 then [0x3C00, 0xFCC1, 0xFD81, 0x3D40, 0xFF01, 0x3FC0, 0x3E80, 0xFE41]
    else if k == 3 then [0xFA01, 0x3AC0, 0x3B80, 0xFB41, 0x3900, 0xF9C1, 0xF881, 0x3840]
    else if k == 4 then [0x2800, 0xE8C1, 0xE981, 0x2940, 0xEB01, 0x2BC0, 0x2A80, 0xEA41]
    else if k == 5 then [0xEE01, 0x2EC0, 0x2F80, 0xEF41, 0x2D00, 0xEDC1, 0xEC81, 0x2C40]
    else if k == 6 then [0xE401, 0x24C0, 0x2580, 0xE541, 0x2700, 0xE7C1, 0xE681, 0x2640]
    else [0x2200, 0xE2C1, 0xE381, 0x2340, 0xE101, 0x21C0, 0x2080, 0xE041]
  }

  function Rows16(k: nat): (row: seq<nat>)
    requires k < 8
    ensures |row| == 8
  {
    if k == 0 then [0xA001, 0x60C0, 0x6180, 0xA141, 0x6300, 0xA3C1, 0xA281, 0x6240]
    else if k == 1 then [0x6600, 0xA6C1, 0xA781, 0x6740, 0xA501, 0x65C0, 0x6480, 0xA441]
    else if k == 2 then [0x6C00, 0xACC1, 0xAD81, 0x6D40, 0xAF01, 0x6FC0, 0x6E80, 0xAE41]
    else if k == 3 then [0xAA01, 0x6AC0, 0x6B80, 0xAB41, 0x6900, 0xA9C1, 0xA881, 0x6840]
    else if k == 4 then [0x7800, 0xB8C1, 0xB981, 0x7940, 0xBB01, 0x7BC0, 0x7A80, 0xBA41]
    else if k == 5 then [0xBE01, 0x7EC0, 0x7F80, 0xBF41, 0x7D00, 0xBDC1, 0xBC81, 0x7C40]
    else if k == 6 then [0xB401, 0x74C0, 0x7580, 0xB541, 0x7700, 0xB7C1, 0xB681, 0x7640]
    else [0x7200, 0xB2C1, 0xB381, 0x7340, 0xB101, 0x71C0, 0x7080, 0xB041]
  }

  function Rows24(k: nat): (row: seq<nat>)
    requires k < 8
    ensures |row| == 8
  {
    if k == 0 then [0x5000, 0x90C1, 0x9181, 0x5140, 0x9301, 0x53C0, 0x5280, 0x9241]
    else if k == 1 then [0x9601, 0x56C0, 0x5780, 0x9741, 0x5500, 0x95C1, 0x9481, 0x5440]
    else if k == 2 then [0x9C01, 0x5CC0, 0x5D80, 0x9D41, 0x5F00, 0x9FC1, 0x9E81, 0x5E40]
    else if k == 3 then [0x5A00, 0x9AC1, 0x9B81, 0x5B40, 0x9901, 0x59C0, 0x5880, 0x9841]
    else if k == 4 then [0x8801, 0x48C0, 0x4980, 0x8941, 0x4B00, 0x8BC1, 0x8A81, 0x4A40]
    else if k == 5 then [0x4E00, 0x8EC1, 0x8F81, 0x4F40, 0x8D01, 0x4DC0, 0x4C80, 0x8C41]
    else if k == 6 then [0x4400, 0x84C1, 0x8581, 0x4540, 0x8701, 0x47C0, 0x4680, 0x8641]
    else [0x8201, 0x42C0, 0x4380, 0x8341, 0x4100, 0x81C1, 0x8081, 0x4040]
  }
  function Table(i: byte): nat {
    var k := i / 8;
    if k < 8 then Rows0(k)[i % 8]
    else if k < 16 then Rows8(k - 8)[i % 8]
    else if k < 24 then Rows16(k - 16)[i % 8]
    else Rows24(k - 24)[i % 8]
  }

  lemma ClockPositions(r: Word, s: Word)
    requires s == Clock(r)
    ensures s[0] == (r[1] != r[0]) && s[1] == r[2] && s[2] == r[3] && s[3] == r[4] && s[4] == r[5] && s[5] == r[6]
            && s[6] == r[7] && s[7] == r[8]
    ensures s[8] == r[9] && s[9] == r[10] && s[10] == r[11] && s[11] == r[12] && s[12] == r[13]
            && s[13] == (r[14] != r[0]) && s[14] == r[15] && s[15] == r[0]
  {
  }

  /** Eight clocks with no input, step by step. */
  lemma EightClocks(r: Word, s1: Word, s2: Word, s3: Word, s4: Word, s5: Word, s6: Word, s7: Word, s8: Word)
    requires s1 == Clock(r) && s2 == Clock(s1) && s3 == Clock(s2) && s4 == Clock(s3)
    requires s5 == Clock(s4) && s6 == Clock(s5) && s7 == Clock(s6) && s8 == Clock(s7)
    ensures CrcBits(r, Zeros(8)) == s8
  {
    ZeroInput(r, 8);
    ZeroInput(s1, 7);
    ZeroInput(s2, 6);
    ZeroInput(s3, 5);
    ZeroInput(s4, 4);
    ZeroInput(s5, 3);
    ZeroInput(s6, 2);
    ZeroInput(s7, 1);
  }

  /** Where the bits of a lone byte end up after eight clocks. */
  lemma ClockedPositions(x: Word, y: Word, p6: bool, p7: bool)
    requires y == CrcBits(x, Zeros(8))
    requires forall i :: 8 <= i < 16 ==> !x[i]
    requires p6 == (x[0] != (x[1] != (x[2] != (x[3] != (x[4] != (x[5] != x[6])))))) && p7 == (p6 != x[7])
    ensures y[0] == p7 && y[14] == p6 && y[15] == p7 && !y[1] && !y[2] && !y[3] && !y[4] && !y[5]
    ensures y[6] == x[0] && y[7] == (x[0] != x[1]) && y[8] == (x[1] != x[2]) && y[9] == (x[2] != x[3])
    ensures y[10] == (x[3] != x[4]) && y[11] == (x[4] != x[5]) && y[12] == (x[5] != x[6]) && y[13] == (x[6] != x[7])
  {
    var s1 := Clock(x);
    var s2 := Clock(s1);
    var s3 := Clock(s2);
    var s4 := Clock(s3);
    var s5 := Clock(s4);
    var s6 := Clock(s5);
    var s7 := Clock(s6);
    EightClocks(x, s1, s2, s3, s4, s5, s6, s7, Clock(s7));
    ClockPositions(x, s1);
    ClockPositions(s1, s2);
    ClockPositions(s2, s3);
    ClockPositions(s3, s4);
    ClockPositions(s4, s5);
    ClockPositions(s5, s6);
    ClockPositions(s6, s7);
    ClockPositions(s7, y);
  }

  function If(b: bool, x: nat): nat { if b then x else 0 }

  function Nibble(x0: bool, x1: bool, x2: bool, x3: bool): nat {
    If(x0, 1) + If(x1, 2) + If(x2, 4) + If(x3, 8)
  }

  lemma ValueCons(w: seq<bool>, rest: seq<bool>)
    requires w != [] && rest == w[1..]
    ensures Value(w) == If(w[0], 1) + 2 * Value(rest)
  {
  }

  lemma ValueOfFour(w: seq<bool>, rest: seq<bool>)
    requires |w| >= 4 && rest == w[4..]
    ensures Value(w) == Nibble(w[0], w[1], w[2], w[3]) + 16 * Value(rest)
  {
    var w1, w2, w3 := w[1..], w[2..], w[3..];
    ValueCons(w, w1);
    ValueCons(w1, w2);
    ValueCons(w2, w3);
    ValueCons(w3, rest);
  }

  lemma ValueOfEight(w: seq<bool>, rest: seq<bool>)
    requires |w| >= 8 && rest == w[8..]
    ensures Value(w) == Nibble(w[0], w[1], w[2], w[3]) + 16 * Nibble(w[4], w[5], w[6], w[7]) + 256 * Value(rest)
  {
    var w4 := w[4..];
    ValueOfFour(w, w4);
    ValueOfFour(w4, rest);
    assert w4[0] == w[4] && w4[1] == w[5] && w4[2] == w[6] && w4[3] == w[7];
  }

  lemma ValueOfSixteen(w: Word)
    ensures Value(w) == Nibble(w[0], w[1], w[2], w[3]) + 0x10 * Nibble(w[4], w[5], w[6], w[7])
                      + 0x100 * Nibble(w[8], w[9], w[10], w[11]) + 0x1000 * Nibble(w[12], w[13], w[14], w[15])
  {
    var w8, none := w[8..], w[16..];
    ValueOfEight(w, w8);
    ValueOfEight(w8, none);
    assert w8[0] == w[8] && w8[1] == w[9] && w8[2] == w[10] && w8[3] == w[11];
    assert w8[4] == w[12] && w8[5] == w[13] && w8[6] == w[14] && w8[7] == w[15];
  }

  /** The number that register holds. */
  function ClockedByte(x0: bool, x1: bool, x2: bool, x3: bool, x4: bool, x5: bool, x6: bool, x7: bool): nat {
    var p6 := x0 != (x1 != (x2 != (x3 != (x4 != (x5 != x6)))));
    var p7 := p6 != x7;
    Nibble(p7, false, false, false)
    + 0x10 * Nibble(false, false, x0, x0 != x1)
    + 0x100 * Nibble(x1 != x2, x2 != x3, x3 != x4, x4 != x5)
    + 0x1000 * Nibble(x5 != x6, x6 != x7, p6, p7)
  }

  lemma {:induction false} SumOfBits(x0: bool, x1: bool, x2: bool, x3: bool, x4: bool, x5: bool, x6: bool, x7: bool,
                                     y0: bool, y1: bool, y2: bool, y3: bool, y4: bool, y5: bool, y6: bool, y7: bool,
                                     y8: bool, y9: bool, y10: bool, y11: bool, y12: bool, y13: bool, y14: bool,
                                     y15: bool)
    requires y14 == (x0 != (x1 != (x2 != (x3 != (x4 != (x5 != x6)))))) && y15 == (y14 != x7)
    requires y0 == y15 && !y1 && !y2 && !y3 && !y4 && !y5 && y6 == x0 && y7 == (x0 != x1)
    requires y8 == (x1 != x2) && y9 == (x2 != x3) && y10 == (x3 != x4) && y11 == (x4 != x5)
    requires y12 == (x5 != x6) && y13 == (x6 != x7)
    ensures Nibble(y0, y1, y2, y3) + 0x10 * Nibble(y4, y5, y6, y7)
            + 0x100 * Nibble(y8, y9, y10, y11) + 0x1000 * Nibble(y12, y13, y14, y15)
         == ClockedByte(x0, x1, x2, x3, x4, x5, x6, x7)
  {
    hide Nibble;
  }

  lemma {:induction false} ClockedByteValue(x: Word)
    requires forall i :: 8 <= i < 16 ==> !x[i]
    ensures Value(CrcBits(x, Zeros(8))) == ClockedByte(x[0], x[1], x[2], x[3], x[4], x[5], x[6], x[7])
  {
    hide Value, CrcBits, Zeros, Nibble, ClockedByte;
    var y := CrcBits(x, Zeros(8));
    var p6 := x[0] != (x[1] != (x[2] != (x[3] != (x[4] != (x[5] != x[6])))));
    var p7 := p6 != x[7];
    ClockedPositions(x, y, p6, p7);
    ValueOfSixteen(y);
    SumOfBits(x[0], x[1], x[2], x[3], x[4], x[5], x[6], x[7], y[0], y[1], y[2], y[3], y[4], y[5], y[6], y[7],
              y[8], y[9], y[10], y[11], y[12], y[13], y[14], y[15]);
  }

  function Num(x0: bool, x1: bool, x2: bool): (n: nat)
    ensures n < 8
  {
    If(x0, 1) + If(x1, 2) + If(x2, 4)
  }

  lemma Rows0Match(x0: bool, x1: bool, x2: bool, x3: bool, x4: bool, x5: bool)
    ensures Rows0(Num(x3, x4, x5))[Num(x0, x1, x2)] == ClockedByte(x0, x1, x2, x3, x4, x5, false, false)
  {
  }

  lemma Rows8Match(x0: bool, x1: bool, x2: bool, x3: bool, x4: bool, x5: bool)
    ensures Rows8(Num(x3, x4, x5))[Num(x0, x1, x2)] == ClockedByte(x0, x1, x2, x3, x4, x5, true, false)
  {
  }

  lemma Rows16Match(x0: bool, x1: bool, x2: bool, x3: bool, x4: bool, x5: bool)
    ensures Rows16(Num(x3, x4, x5))[Num(x0, x1, x2)] == ClockedByte(x0, x1, x2, x3, x4, x5, false, true)
  {
  }

  lemma Rows24Match(x0: bool, x1: bool, x2: bool, x3: bool, x4: bool, x5: bool)
    ensures Rows24(Num(x3, x4, x5))[Num(x0, x1, x2)] == ClockedByte(x0, x1, x2, x3, x4, x5, true, true)
  {
  }

  /** All 256 constants of the source are right. */
  lemma TableMatches(x0: bool, x1: bool, x2: bool, x3: bool, x4: bool, x5: bool, x6: bool, x7: bool, i: byte)
    requires i == Num(x0, x1, x2) + 8 * Num(x3, x4, x5) + 64 * Num(x6, x7, false)
    ensures Table(i) == ClockedByte(x0, x1, x2, x3, x4, x5, x6, x7)
  {
    assert i % 8 == Num(x0, x1, x2);
    if !x6 && !x7 {
      Rows0Match(x0, x1, x2, x3, x4, x5);
    } else if !x7 {
      Rows8Match(x0, x1, x2, x3, x4, x5);
    } else if !x6 {
      Rows16Match(x0, x1, x2, x3, x4, x5);
    } else {
      Rows24Match(x0, x1, x2, x3, x4, x5);
    }
  }

  lemma IndexParts(q: seq<bool>)
    requires |q| == 8
    ensures ByteOf(q) == Num(q[0], q[1], q[2]) + 8 * Num(q[3], q[4], q[5]) + 64 * Num(q[6], q[7], false)
  {
    ValueOfEight(q, []);
  }

  lemma EightClocksAsNumber(q: seq<bool>, t: nat)
    requires |q| == 8 && t == ClockedByte(q[0], q[1], q[2], q[3], q[4], q[5], q[6], q[7])
    ensures Low(t, 16) == CrcBits(Pad(q), Zeros(8))
  {
    var x := Pad(q);
    assert x[0] == q[0] && x[1] == q[1] && x[2] == q[2] && x[3] == q[3];
    assert x[4] == q[4] && x[5] == q[5] && x[6] == q[6] && x[7] == q[7];
    ClockedByteValue(x);
    LowOfValue(CrcBits(x, Zeros(8)));
  }

  /** A table entry is the register a lone byte leaves behind. */
  lemma TableIsEightClocks(q: seq<bool>, i: byte)
    requires |q| == 8 && i == ByteOf(q)
    ensures Low(Table(i), 16) == CrcBits(Pad(q), Zeros(8))
  {
    IndexParts(q);
    TableMatches(q[0], q[1], q[2], q[3], q[4], q[5], q[6], q[7], i);
    EightClocksAsNumber(q, Table(i));
  }

  /** crc >> 8. */
  function ShiftDown8(w: Word): Word { w[8..] + Zeros(8) }

  lemma TableLookup(crc: Word, b: byte)
    ensures var i := ByteOf(Xor(crc[..8], ByteBits(b)));
            Xor(ShiftDown8(crc), Low(Table(i), 16)) == CrcBits(crc, ByteBits(b))
  {
    var q := Xor(crc[..8], ByteBits(b));
    var i := ByteOf(q);
    TableIsEightClocks(q, i);
    var fed := Xor(crc, Pad(ByteBits(b)));
    Absorb(crc, ByteBits(b));
    var high := Zeros(8) + crc[8..];
    assert fed == Xor(high, Pad(q));
    HalvesClockApart(high, Pad(q));
    HighMovesDown(high, CrcBits(high, Zeros(8)));
    assert high[8..] == crc[8..];
  }

  lemma HalvesClockApart(a: Word, b: Word)
    ensures CrcBits(Xor(a, b), Zeros(8)) == Xor(CrcBits(a, Zeros(8)), CrcBits(b, Zeros(8)))
  {
    CrcLinear(a, b, Zeros(8), Zeros(8));
    assert Xor(Zeros(8), Zeros(8)) == Zeros(8);
  }

  /** Bits in the high half of the register only move down. */
  lemma HighMovesDown(x: Word, y: Word)
    requires y == CrcBits(x, Zeros(8))
    requires forall i :: 0 <= i < 8 ==> !x[i]
    ensures y == x[8..] + Zeros(8)
  {
    var s1 := Clock(x);
    var s2 := Clock(s1);
    var s3 := Clock(s2);
    var s4 := Clock(s3);
    var s5 := Clock(s4);
    var s6 := Clock(s5);
    var s7 := Clock(s6);
    EightClocks(x, s1, s2, s3, s4, s5, s6, s7, Clock(s7));
    ShiftsIn(x, s1);
    ShiftsIn(s1, s2);
    ShiftsIn(s2, s3);
    ShiftsIn(s3, s4);
    ShiftsIn(s4, s5);
    ShiftsIn(s5, s6);
    ShiftsIn(s6, s7);
    ShiftsIn(s7, y);
    assert forall i :: 0 <= i < 16 ==> y[i] == (i < 8 && x[i + 8]);
  }

  /** With nothing shifted out, a clock is a shift. */
  lemma ShiftsIn(r: Word, s: Word)
    requires s == Clock(r) && !r[0]
    ensures forall i :: 0 <= i < 15 ==> s[i] == r[i + 1]
    ensures !s[15]
  {
  }

  /** crc16: the source's loop over a buffer, one table look-up a byte. */
  method ComputeCrc(crc: Word, buffer: array<byte>, len: nat) returns (r: Word)
    requires len <= buffer.Length
    ensures r == Crc(crc, buffer[..len])
  {
    r := crc;
    var at := 0;
    while at < len
      invariant at <= len
      invariant r == Crc(crc, buffer[..at])
    {
      var index := ByteOf(Xor(r[..8], ByteBits(buffer[at])));
      TableLookup(r, buffer[at]);
      r := Xor(ShiftDown8(r), Low(Table(index), 16));
      CrcAppend(crc, buffer[..at], [buffer[at]]);
      OneByte(Crc(crc, buffer[..at]), buffer[at]);
      assert buffer[..at + 1] == buffer[..at] + [buffer[at]];
      at := at + 1;
    }
  }

  // ------------------------------------------------------------------ residue

  lemma ClockInjective(r: Word)
    ensures Clock(r) == Zeros(16) <==> r == Zeros(16)
  {
    var c := Clock(r);
    if c == Zeros(16) {
      assert !c[15] && Coefficient(15 - 15);
      assert !r[0];
      forall i | 0 < i < 16
        ensures !r[i]
      {
        assert !c[i - 1];
      }
      assert r == Zeros(16);
    }
    if r == Zeros(16) {
      assert c == Zeros(16);
    }
  }

  /** Clocking with no input loses nothing: only the zero register becomes zero. */
  lemma {:induction false} NonZeroSurvives(r: Word, n: nat)
    ensures CrcBits(r, Zeros(n)) == Zeros(16) <==> r == Zeros(16)
    decreases n
  {
    if n > 0 {
      ZeroInput(r, n);
      ClockInjective(r);
      NonZeroSurvives(Clock(r), n - 1);
    }
  }

  /** A received message passes the zero-residue test exactly when its last two
      bytes are its own checksum, low byte first. */
  lemma ResidueZeroIffChecksum(crc: Word, m: seq<byte>, lo: byte, hi: byte)
    ensures Crc(crc, m + [lo, hi]) == Zeros(16) <==> lo == LowByte(Crc(crc, m)) && hi == HighByte(Crc(crc, m))
  {
    var r := Crc(crc, m);
    var w := MessageBits([lo, hi]);
    CrcAppend(crc, m, [lo, hi]);
    Absorb(r, w);
    assert Pad(w) == w;
    NonZeroSurvives(Xor(r, w), 16);
    XorIsEquality(r, w);
    assert w == ByteBits(lo) + ByteBits(hi) by {
      MessageBitsAppend([lo], [hi]);
      assert [lo] + [hi] == [lo, hi];
    }
    TwoBytes(r, lo, hi);
  }

  lemma TwoBytes(r: Word, lo: byte, hi: byte)
    ensures r == ByteBits(lo) + ByteBits(hi) <==> lo == LowByte(r) && hi == HighByte(r)
  {
    assert r == r[..8] + r[8..];
    LowOfValue(r[..8]);
    LowOfValue(r[8..]);
    if r == ByteBits(lo) + ByteBits(hi) {
      assert r[..8] == ByteBits(lo) && r[8..] == ByteBits(hi);
      ByteBitsInjective(lo, LowByte(r));
      ByteBitsInjective(hi, HighByte(r));
    }
  }

  // ---------------------------------------------------------- error detection

  /** A difference confined to sixteen consecutive bits, anywhere in a stream,
      leaves a non-zero register. */
  lemma {:induction false} BurstLeavesTrace(d: seq<bool>, at: nat)
    requires exists i :: 0 <= i < |d| && d[i]
    requires forall i :: 0 <= i < |d| && d[i] ==> at <= i < at + 16
    ensures CrcBits(Zeros(16), d) != Zeros(16)
  {
    hide CrcBits;
    var i :| 0 <= i < |d| && d[i];
    var end := if at + 16 <= |d| then at + 16 else |d|;
    var w := d[at..end];
    var rest := |d| - end;
    assert d == Zeros(at) + w + Zeros(rest);
    CrcBitsAppend(Zeros(16), Zeros(at) + w, Zeros(rest));
    CrcBitsAppend(Zeros(16), Zeros(at), w);
    NonZeroSurvives(Zeros(16), at);
    assert w[i - at];
    ShortBurstLeavesTrace(w, i - at);
    NonZeroSurvives(CrcBits(Zeros(16), w), rest);
  }

  lemma {:induction false} ShortBurstLeavesTrace(w: seq<bool>, i: nat)
    requires i < |w| <= 16 && w[i]
    ensures CrcBits(Zeros(16), w) != Zeros(16)
  {
    hide CrcBits;
    Absorb(Zeros(16), w);
    var start := Xor(Zeros(16), Pad(w));
    assert start[i];
    NonZeroSurvives(start, |w|);
  }

  lemma ChecksumsDiffer(crc: Word, m: seq<byte>, m': seq<byte>)
    requires |m| == |m'|
    requires CrcBits(Zeros(16), Xor(MessageBits(m), MessageBits(m'))) != Zeros(16)
    ensures Crc(crc, m) != Crc(crc, m')
  {
    DifferenceOfChecksums(crc, MessageBits(m), MessageBits(m'));
    XorIsEquality(Crc(crc, m), Crc(crc, m'));
  }

  /** Two different equal-length messages whose bits differ only inside some
      window of sixteen consecutive bits never share a checksum. */
  lemma BurstDetected(crc: Word, m: seq<byte>, m': seq<byte>, at: nat)
    requires |m| == |m'| && m != m'
    requires forall i :: 0 <= i < 8 * |m| && !(at <= i < at + 16) ==> MessageBits(m)[i] == MessageBits(m')[i]
    ensures Crc(crc, m) != Crc(crc, m')
  {
    var a, b := MessageBits(m), MessageBits(m');
    var d := Xor(a, b);
    MessageBitsInjective(m, m');
    var i :| 0 <= i < |a| && a[i] != b[i];
    assert d[i];
    forall j | 0 <= j < |d| && d[j]
      ensures at <= j < at + 16
    {
      assert a[j] != b[j];
    }
    BurstLeavesTrace(d, at);
    ChecksumsDiffer(crc, m, m');
  }

  lemma {:induction false} MessageBitsInjective(m: seq<byte>, m': seq<byte>)
    requires |m| == |m'|
    ensures MessageBits(m) == MessageBits(m') <==> m == m'
  {
    if m != [] && MessageBits(m) == MessageBits(m') {
      var a, b := MessageBits(m), MessageBits(m');
      assert a[..8] == ByteBits(m[0]) && b[..8] == ByteBits(m'[0]);
      assert a[8..] == MessageBits(m[1..]) && b[8..] == MessageBits(m'[1..]);
      ByteBitsInjective(m[0], m'[0]);
      MessageBitsInjective(m[1..], m'[1..]);
      assert m == [m[0]] + m[1..] && m' == [m'[0]] + m'[1..];
    }
  }

  function Parity(bits: seq<bool>): bool {
    if bits == [] then false else bits[0] != Parity(bits[1..])
  }

  lemma {:induction false} XorParity(a: seq<bool>, b: seq<bool>)
    requires |a| == |b|
    ensures Parity(Xor(a, b)) == (Parity(a) != Parity(b))
  {
    if a != [] {
      assert Xor(a, b)[1..] == Xor(a[1..], b[1..]);
      XorParity(a[1..], b[1..]);
    }
  }

  lemma {:induction false} AppendParity(a: seq<bool>, b: seq<bool>)
    ensures Parity(a + b) == (Parity(a) != Parity(b))
  {
    if a == [] {
      assert a + b == b;
    } else {
      assert (a + b)[1..] == a[1..] + b;
      AppendParity(a[1..], b);
    }
  }

  lemma {:induction false} ZerosParity(n: nat)
    ensures !Parity(Zeros(n))
  {
    if n > 0 {
      assert Zeros(n)[1..] == Zeros(n - 1);
      ZerosParity(n - 1);
    }
  }

  /** The reduction mask: the polynomial without x^16, highest power first. */
  function Mask(on: bool): Word {
    seq(16, i requires 0 <= i < 16 => on && Coefficient(15 - i))
  }

  lemma MaskParity(on: bool)
    ensures Parity(Mask(on)) == on
  {
    if on {
      assert Mask(on) == [true] + Zeros(12) + [true, false, true];
      AppendParity([true] + Zeros(12), [true, false, true]);
      AppendParity([true], Zeros(12));
      ZerosParity(12);
    } else {
      assert Mask(on) == Zeros(16);
      ZerosParity(16);
    }
  }

  lemma ClockParity(r: Word)
    ensures Parity(Clock(r)) == Parity(r)
  {
    var shifted := r[1..] + [false];
    assert Clock(r) == Xor(shifted, Mask(r[0]));
    XorParity(shifted, Mask(r[0]));
    MaskParity(r[0]);
    AppendParity(r[1..], [false]);
  }

  /** x + 1 divides the polynomial: the checksum carries the parity of the
      message on top of the parity of the start value. */
  lemma {:induction false} ChecksumCarriesParity(r: Word, bits: seq<bool>)
    ensures Parity(CrcBits(r, bits)) == (Parity(r) != Parity(bits))
    decreases |bits|
  {
    if bits != [] {
      ClockParity(r[0 := r[0] != bits[0]]);
      ChecksumCarriesParity(BitStep(r, bits[0]), bits[1..]);
    }
  }

  /** Messages that differ in an odd number of bits, wherever those are, never
      share a checksum. */
  lemma OddErrorsDetected(crc: Word, m: seq<byte>, m': seq<byte>)
    requires |m| == |m'|
    requires Parity(Xor(MessageBits(m), MessageBits(m')))
    ensures Crc(crc, m) != Crc(crc, m')
  {
    ChecksumCarriesParity(Zeros(16), Xor(MessageBits(m), MessageBits(m')));
    ZerosParity(16);
    ChecksumsDiffer(crc, m, m');
  }
}
