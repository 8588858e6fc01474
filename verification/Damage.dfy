/** Which damage the checksum detects, and the first damage that it does not. */
module Damage {
  import opened Bytes
  import opened Crc
  import R = ShiftRegister
  import P = PolynomialOrder

  /** Two messages that differ in exactly the bits `i` and `j`. */
  predicate TwoBits(s: seq<byte>, t: seq<byte>, i: nat, j: nat)
  {
    |s| == |t| && i < j < 8 * |s| &&
    forall k :: 0 <= k < 8 * |s| ==> (BitsOf(s)[k] != BitsOf(t)[k] <==> k == i || k == j)
  }

  /** Damage of one kind or the other. */
  predicate Detectable(s: seq<byte>, t: seq<byte>, from: nat, to: nat)
  {
    Burst(s, t, from, to) || TwoBits(s, t, from, to)
  }

  lemma CrcOfRegister(s: seq<byte>, t: seq<byte>, a: bv32, b: bv32)
    requires a == Register(0xffff_ffff, s) && b == Register(0xffff_ffff, t)
    ensures Crc32(s) == Crc32(t) <==> a == b
  {
    hide Register, Crc32;
    var x, y := Crc32(s), Crc32(t);
    CrcIsComplement(s, a);
    CrcIsComplement(t, b);
    Complements(a, b, x, y);
  }

  lemma Complements(a: bv32, b: bv32, x: bv32, y: bv32)
    requires x == !a && y == !b
    ensures x == y <==> a == b
  {
    if x == y { NotInjective(a, b); }
  }

  /** Two equal-length messages have the same CRC exactly when their difference leaves no remainder. */
  lemma SameCrcIff(s: seq<byte>, t: seq<byte>)
    requires |s| == |t|
    ensures Crc32(s) == Crc32(t) <==> !R.Nonzero(R.Serial(R.Zeros(32), R.Xor(BitsOf(s), BitsOf(t))))
  {
    hide R.Serial, R.Nonzero, Register, Crc32, WordOf, BitsOf;
    var a, b := Register(0xffff_ffff, s), Register(0xffff_ffff, t);
    CrcOfRegister(s, t, a, b);
    RegisterIsSerial(0xffff_ffff, s);
    RegisterIsSerial(0xffff_ffff, t);
    R.SameRegister(WordOf(0xffff_ffff), BitsOf(s), BitsOf(t));
    if WordOf(a) == WordOf(b) { WordOfInjective(a, b); }
  }

  lemma WordOfOne()
    ensures WordOf(1) == R.LOW
  {
    forall i | 0 <= i < 32 ensures Bit(1, i) == (i == 0) {
      IndexWord(i);
      OneWord(i as bv6);
    }
  }

  lemma OneWord(k: bv6)
    ensures k < 32 ==> (((1 as bv32) >> k) & 1 == 1 <==> k == 0)
  {
  }

  /** Two single bits go unnoticed exactly at a multiple of the full period of the polynomial. */
  lemma TwoBitsChangeCrc(s: seq<byte>, t: seq<byte>, i: nat, j: nat)
    requires TwoBits(s, t, i, j)
    ensures Crc32(s) == Crc32(t) <==> (j - i) % P.ORDER == 0
  {
    hide R.Serial, R.Nonzero, Crc32, WordOf, BitsOf;
    var n, after := j - i, 8 * |s| - j - 1;
    assert R.Xor(BitsOf(s), BitsOf(t)) == R.TwoBitError(i, n, after);
    P.LowBitReturns(n);
    WordOfShifts(1, n);
    WordOfOne();
    if R.Steps(R.LOW, n) == R.LOW { WordOfInjective(Shifts(1, n), 1); }
    R.TwoBitRemainder(i, n, after);
    SameCrcIff(s, t);
  }

  /** Bursts of up to 32 bits and pairs of single bits change the checksum of anything a frame can carry. */
  lemma DamageChangesCrc(s: seq<byte>, t: seq<byte>, from: nat, to: nat)
    requires Detectable(s, t, from, to) && 8 * |s| <= P.ORDER
    ensures Crc32(s) != Crc32(t) && Checksum(s) != Checksum(t)
  {
    hide Crc32, Checksum, BitsOf;
    if Burst(s, t, from, to) { BurstChangesCrc(s, t, from, to); } else { TwoBitsChangeCrc(s, t, from, to); }
    ChecksumInjective(s, t);
  }

  /** The same for the request checksum, when one part is hit and the other is intact. */
  lemma DamageChangesRequest(s: seq<byte>, t: seq<byte>, from: nat, to: nat, other: seq<byte>)
    requires Detectable(s, t, from, to) && 8 * |s| <= P.ORDER
    ensures RequestChecksum(s, other) != RequestChecksum(t, other)
    ensures RequestChecksum(other, s) != RequestChecksum(other, t)
  {
    hide Crc32, RequestChecksum, Detectable;
    DamageChangesCrc(s, t, from, to);
    PartChangesRequest(s, t, other);
  }

  // ----- where detection ends

  /** A burst of 33 bits goes unnoticed exactly in the shape of the polynomial: the bound of 32 bits is tight. */
  lemma EscapingBurst(s: seq<byte>, t: seq<byte>, before: nat, rest: R.Word)
    requires |s| == |t| && before + 33 <= 8 * |s|
    requires R.Xor(BitsOf(s), BitsOf(t)) == R.LongBurst(before, rest, 8 * |s| - before - 33)
    ensures s != t && (Crc32(s) == Crc32(t) <==> rest == R.POLYNOMIAL)
  {
    hide R.Serial, R.Nonzero, R.POLYNOMIAL, Crc32;
    R.LongBurstRemainder(before, rest, 8 * |s| - before - 33);
    SameCrcIff(s, t);
    assert R.LongBurst(before, rest, 8 * |s| - before - 33)[before];
  }

  /** Five bytes that differ from five erased bytes in such a burst. */
  const MISLEADING: seq<byte> := [0xbe, 0xf9, 0x8e, 0x24, 0xfe]
  const ERASED: seq<byte> := [0xff, 0xff, 0xff, 0xff, 0xff]

  lemma BitsOfFive(a: byte, b: byte, c: byte, d: byte, e: byte)
    ensures BitsOf([a, b, c, d, e]) == BitsOfByte(a) + BitsOfByte(b) + BitsOfByte(c) + BitsOfByte(d) + BitsOfByte(e)
  {
    var s := [a, b, c, d, e];
    assert s == [a] + ([b] + ([c] + ([d] + [e])));
    BitsOfAppend([a], [b] + ([c] + ([d] + [e])));
    BitsOfAppend([b], [c] + ([d] + [e]));
    BitsOfAppend([c], [d] + [e]);
    BitsOfAppend([d], [e]);
    BitsOfOne(a); BitsOfOne(b); BitsOfOne(c); BitsOfOne(d); BitsOfOne(e);
  }

  lemma BitsOfOne(a: byte)
    ensures BitsOf([a]) == BitsOfByte(a)
  {
    assert [a][1..] == [];
    assert BitsOf([a]) == BitsOfByte(a) + BitsOf([]);
  }

  function Nibble(n: nat): seq<bool> { [n % 2 == 1, n / 2 % 2 == 1, n / 4 % 2 == 1, n / 8 % 2 == 1] }

  lemma OneDigit(n: nat, d: nat, k: nat)
    requires d < 2
    ensures Digits(2 * n + d, k + 1) == [d == 1] + Digits(n, k)
  {
    assert (2 * n + d) % 2 == d && (2 * n + d) / 2 == n;
  }

  lemma TwoDigits(n: nat, d: nat, e: nat, k: nat)
    requires d < 2 && e < 2
    ensures Digits(4 * n + 2 * e + d, k + 2) == [d == 1, e == 1] + Digits(n, k)
  {
    hide Digits;
    OneDigit(2 * n + e, d, k + 1);
    OneDigit(n, e, k);
  }

  lemma NibbleOf(n: nat, low: nat, k: nat)
    requires low < 16
    ensures Digits(16 * n + low, k + 4) == Nibble(low) + Digits(n, k)
  {
    hide Digits;
    var m := 4 * n + low / 4;
    TwoDigits(m, low % 2, low / 2 % 2, k + 2);
    TwoDigits(n, low / 4 % 2, low / 8 % 2, k);
    assert 16 * n + low == 4 * m + 2 * (low / 2 % 2) + low % 2;
    assert m == 4 * n + 2 * (low / 8 % 2) + low / 4 % 2;
  }

  lemma TwoNibbles(b: byte)
    ensures BitsOfByte(b) == Nibble(b % 16) + Nibble(b / 16)
  {
    hide Nibble;
    NibbleOf(b / 16, b % 16, 4);
    NibbleOf(0, b / 16, 0);
  }

  /** The polynomial, cut where the bytes are cut. */
  lemma Cut(p: R.Word, z: seq<bool>)
    ensures [true] + p + z == [true] + p[..7] + p[7..15] + p[15..23] + p[23..31] + ([p[31]] + z)
  {
  }

  /** A byte against an erased one, nibble by nibble. */
  lemma XorOfNibbles(a: byte, p: bool, q: bool, r: bool, s: bool, t: bool, u: bool, v: bool, w: bool)
    requires Nibble(a % 16) == [!p, !q, !r, !s] && Nibble(a / 16) == [!t, !u, !v, !w]
    ensures R.Xor(BitsOfByte(0xff), BitsOfByte(a)) == [p, q, r, s] + [t, u, v, w]
  {
    hide BitsOfByte, Nibble, R.Xor;
    TwoNibbles(0xff);
    TwoNibbles(a);
    XorParts(Nibble(15), Nibble(15), Nibble(a % 16), Nibble(a / 16));
    XorOfNibble(p, q, r, s);
    XorOfNibble(t, u, v, w);
  }

  lemma XorParts(a: seq<bool>, b: seq<bool>, c: seq<bool>, d: seq<bool>)
    requires |a| == |c| && |b| == |d|
    ensures R.Xor(a + b, c + d) == R.Xor(a, c) + R.Xor(b, d)
  {
  }

  lemma XorOfNibble(p: bool, q: bool, r: bool, s: bool)
    ensures R.Xor(Nibble(15), [!p, !q, !r, !s]) == [p, q, r, s]
  {
  }

  lemma PolynomialFrom0()
    ensures R.POLYNOMIAL[0..7] == [false, false, false, false, false, true, false]
  {
    assert !R.POLYNOMIAL[0] && !R.POLYNOMIAL[1] && !R.POLYNOMIAL[2] && !R.POLYNOMIAL[3] &&
           !R.POLYNOMIAL[4] && R.POLYNOMIAL[5] && !R.POLYNOMIAL[6];
  }

  lemma PolynomialFrom7()
    ensures R.POLYNOMIAL[7..15] == [false, true, true, false, false, false, false, false]
  {
    assert !R.POLYNOMIAL[7] && R.POLYNOMIAL[8] && R.POLYNOMIAL[9] && !R.POLYNOMIAL[10] &&
           !R.POLYNOMIAL[11] && !R.POLYNOMIAL[12] && !R.POLYNOMIAL[13] && !R.POLYNOMIAL[14];
  }

  lemma PolynomialFrom15()
    ensures R.POLYNOMIAL[15..23] == [true, false, false, false, true, true, true, false]
  {
    assert R.POLYNOMIAL[15] && !R.POLYNOMIAL[16] && !R.POLYNOMIAL[17] && !R.POLYNOMIAL[18] &&
           R.POLYNOMIAL[19] && R.POLYNOMIAL[20] && R.POLYNOMIAL[21] && !R.POLYNOMIAL[22];
  }

  lemma PolynomialFrom23()
    ensures R.POLYNOMIAL[23..31] == [true, true, false, true, true, false, true, true]
  {
    assert R.POLYNOMIAL[23] && R.POLYNOMIAL[24] && !R.POLYNOMIAL[25] && R.POLYNOMIAL[26] &&
           R.POLYNOMIAL[27] && !R.POLYNOMIAL[28] && R.POLYNOMIAL[29] && R.POLYNOMIAL[30];
  }

  lemma PolynomialBytes()
    ensures [true] + R.POLYNOMIAL[..7] == [true, false, false, false] + [false, false, true, false]
    ensures R.POLYNOMIAL[7..15] == [false, true, true, false] + [false, false, false, false]
    ensures R.POLYNOMIAL[15..23] == [true, false, false, false] + [true, true, true, false]
    ensures R.POLYNOMIAL[23..31] == [true, true, false, true] + [true, false, true, true]
    ensures [R.POLYNOMIAL[31]] + R.Zeros(7) == [true, false, false, false] + [false, false, false, false]
  {
    PolynomialFrom0(); PolynomialFrom7(); PolynomialFrom15(); PolynomialFrom23();
    assert R.POLYNOMIAL[31];
    hide R.POLYNOMIAL;
    assert R.POLYNOMIAL[..7] == R.POLYNOMIAL[0..7];
  }

  lemma EscapingBytes()
    ensures R.Xor(BitsOfByte(0xff), BitsOfByte(0xbe)) == [true] + R.POLYNOMIAL[..7]
    ensures R.Xor(BitsOfByte(0xff), BitsOfByte(0xf9)) == R.POLYNOMIAL[7..15]
    ensures R.Xor(BitsOfByte(0xff), BitsOfByte(0x8e)) == R.POLYNOMIAL[15..23]
    ensures R.Xor(BitsOfByte(0xff), BitsOfByte(0x24)) == R.POLYNOMIAL[23..31]
    ensures R.Xor(BitsOfByte(0xff), BitsOfByte(0xfe)) == [R.POLYNOMIAL[31]] + R.Zeros(7)
  {
    hide BitsOfByte, R.POLYNOMIAL, R.Xor;
    PolynomialBytes();
    XorOfNibbles(0xbe, true, false, false, false, false, false, true, false);
    XorOfNibbles(0xf9, false, true, true, false, false, false, false, false);
    XorOfNibbles(0x8e, true, false, false, false, true, true, true, false);
    XorOfNibbles(0x24, true, true, false, true, true, false, true, true);
    XorOfNibbles(0xfe, true, false, false, false, false, false, false, false);
  }

  lemma XorOfFive(a: seq<bool>, b: seq<bool>, c: seq<bool>, d: seq<bool>, e: seq<bool>,
                  a': seq<bool>, b': seq<bool>, c': seq<bool>, d': seq<bool>, e': seq<bool>)
    requires |a| == |a'| && |b| == |b'| && |c| == |c'| && |d| == |d'| && |e| == |e'|
    ensures R.Xor(a + b + c + d + e, a' + b' + c' + d' + e')
         == R.Xor(a, a') + R.Xor(b, b') + R.Xor(c, c') + R.Xor(d, d') + R.Xor(e, e')
  {
  }

  lemma MisleadingChecksum()
    ensures Checksum(ERASED) == Checksum(MISLEADING) && ERASED != MISLEADING
  {
    hide BitsOf, BitsOfByte, Crc32, R.Xor, R.POLYNOMIAL;
    BitsOfFive(0xbe, 0xf9, 0x8e, 0x24, 0xfe);
    BitsOfFive(0xff, 0xff, 0xff, 0xff, 0xff);
    var f := BitsOfByte(0xff);
    XorOfFive(f, f, f, f, f, BitsOfByte(0xbe), BitsOfByte(0xf9), BitsOfByte(0x8e), BitsOfByte(0x24), BitsOfByte(0xfe));
    EscapingBytes();
    Cut(R.POLYNOMIAL, R.Zeros(7));
    EscapingFromStart(7);
    EscapingBurst(ERASED, MISLEADING, 0, R.POLYNOMIAL);
  }

  lemma EscapingFromStart(after: nat)
    ensures R.LongBurst(0, R.POLYNOMIAL, after) == [true] + R.POLYNOMIAL + R.Zeros(after)
  {
  }

  // ----- the check value

  function Push8(p: bool, q: bool, r: bool, s: bool, t: bool, u: bool, v: bool, w: bool): bv32
  {
    Push(Push(Push(Push(Push(Push(Push(Push(0, w), v), u), t), s), r), q), p)
  }

  lemma FromCons(digit: bool, rest: seq<bool>)
    ensures FromDigits([digit] + rest) == Push(FromDigits(rest), digit)
  {
    hide Push;
    assert ([digit] + rest)[1..] == rest;
  }

  lemma FromTwo(p: bool, q: bool, rest: seq<bool>)
    ensures FromDigits([p, q] + rest) == Push(Push(FromDigits(rest), q), p)
  {
    hide Push, FromDigits;
    FromCons(q, rest);
    FromCons(p, [q] + rest);
    assert [p] + ([q] + rest) == [p, q] + rest;
  }

  lemma FromFour(p: bool, q: bool, r: bool, s: bool, rest: seq<bool>)
    ensures FromDigits([p, q, r, s] + rest) == Push(Push(Push(Push(FromDigits(rest), s), r), q), p)
  {
    hide Push, FromDigits;
    FromTwo(r, s, rest);
    FromTwo(p, q, [r, s] + rest);
    assert [p, q] + ([r, s] + rest) == [p, q, r, s] + rest;
  }

  lemma FromNothing()
    ensures FromDigits([]) == 0
  {
  }

  lemma BitsOfNibbles(a: byte, p: bool, q: bool, r: bool, s: bool, t: bool, u: bool, v: bool, w: bool)
    requires Nibble(a % 16) == [p, q, r, s] && Nibble(a / 16) == [t, u, v, w]
    ensures Bits(a) == Push8(p, q, r, s, t, u, v, w)
  {
    FromNothing();
    hide BitsOfByte, Nibble, Push, FromDigits;
    TwoNibbles(a);
    FromFour(t, u, v, w, []);
    assert [t, u, v, w] + [] == [t, u, v, w];
    FromFour(p, q, r, s, [t, u, v, w]);
  }

  lemma Digit1()
    ensures Bits(0x31) == 0x31
  {
    BitsOfNibbles(0x31, true, false, false, false, true, true, false, false);
  }

  lemma Digit2()
    ensures Bits(0x32) == 0x32
  {
    BitsOfNibbles(0x32, false, true, false, false, true, true, false, false);
  }

  lemma Digit3()
    ensures Bits(0x33) == 0x33
  {
    BitsOfNibbles(0x33, true, true, false, false, true, true, false, false);
  }

  lemma Digit4()
    ensures Bits(0x34) == 0x34
  {
    BitsOfNibbles(0x34, false, false, true, false, true, true, false, false);
  }

  lemma Digit5()
    ensures Bits(0x35) == 0x35
  {
    BitsOfNibbles(0x35, true, false, true, false, true, true, false, false);
  }

  lemma Digit6()
    ensures Bits(0x36) == 0x36
  {
    BitsOfNibbles(0x36, false, true, true, false, true, true, false, false);
  }

  lemma Digit7()
    ensures Bits(0x37) == 0x37
  {
    BitsOfNibbles(0x37, true, true, true, false, true, true, false, false);
  }

  lemma Digit8()
    ensures Bits(0x38) == 0x38
  {
    BitsOfNibbles(0x38, false, false, false, true, true, true, false, false);
  }

  lemma Digit9()
    ensures Bits(0x39) == 0x39
  {
    BitsOfNibbles(0x39, true, false, false, true, true, true, false, false);
  }

  lemma Feed1() ensures P.Shift8(0xffff_ffff ^ 0x31) == 0x7c23_1048 {}
  lemma Feed2() ensures P.Shift8(0x7c23_1048 ^ 0x32) == 0xb0ac_bb32 {}
  lemma Feed3() ensures P.Shift8(0xb0ac_bb32 ^ 0x33) == 0x77b7_9c2d {}
  lemma Feed4() ensures P.Shift8(0x77b7_9c2d ^ 0x34) == 0x641c_1f5c {}
  lemma Feed5() ensures P.Shift8(0x641c_1f5c ^ 0x35) == 0x340a_c5e3 {}
  lemma Feed6() ensures P.Shift8(0x340a_c5e3 ^ 0x36) == 0xf68d_2c9e {}
  lemma Feed7() ensures P.Shift8(0xf68d_2c9e ^ 0x37) == 0xaffc_9660 {}
  lemma Feed8() ensures P.Shift8(0xaffc_9660 ^ 0x38) == 0x651f_2550 {}
  lemma Feed9() ensures P.Shift8(0x651f_2550 ^ 0x39) == 0x340b_c6d9 {}

  lemma Fed(c: bv32, b: byte, x: bv32, d: bv32, s: seq<byte>)
    requires Bits(b) == x && P.Shift8(c ^ x) == d
    ensures Register(c, [b] + s) == Register(d, s)
  {
    hide Bits, P.Shift8, Shifts;
    P.ShiftsEight(c ^ x);
    assert ([b] + s)[1..] == s;
  }

  /** The check value of CRC-32: what the nine digits of ASCII come to. */
  lemma CheckValue()
    ensures Checksum([0x31, 0x32, 0x33, 0x34, 0x35, 0x36, 0x37, 0x38, 0x39]) == 0xcbf4_3926
  {
    hide Bits, Register, P.Shift8;
    Digit1(); Feed1(); Fed(0xffff_ffff, 0x31, 0x31, 0x7c23_1048, [0x32, 0x33, 0x34, 0x35, 0x36, 0x37, 0x38, 0x39]);
    assert [0x31] + [0x32, 0x33, 0x34, 0x35, 0x36, 0x37, 0x38, 0x39]
        == [0x31, 0x32, 0x33, 0x34, 0x35, 0x36, 0x37, 0x38, 0x39];
    Digit2(); Feed2(); Fed(0x7c23_1048, 0x32, 0x32, 0xb0ac_bb32, [0x33, 0x34, 0x35, 0x36, 0x37, 0x38, 0x39]);
    assert [0x32] + [0x33, 0x34, 0x35, 0x36, 0x37, 0x38, 0x39] == [0x32, 0x33, 0x34, 0x35, 0x36, 0x37, 0x38, 0x39];
    Digit3(); Feed3(); Fed(0xb0ac_bb32, 0x33, 0x33, 0x77b7_9c2d, [0x34, 0x35, 0x36, 0x37, 0x38, 0x39]);
    assert [0x33] + [0x34, 0x35, 0x36, 0x37, 0x38, 0x39] == [0x33, 0x34, 0x35, 0x36, 0x37, 0x38, 0x39];
    Digit4(); Feed4(); Fed(0x77b7_9c2d, 0x34, 0x34, 0x641c_1f5c, [0x35, 0x36, 0x37, 0x38, 0x39]);
    assert [0x34] + [0x35, 0x36, 0x37, 0x38, 0x39] == [0x34, 0x35, 0x36, 0x37, 0x38, 0x39];
    Digit5(); Feed5(); Fed(0x641c_1f5c, 0x35, 0x35, 0x340a_c5e3, [0x36, 0x37, 0x38, 0x39]);
    assert [0x35] + [0x36, 0x37, 0x38, 0x39] == [0x35, 0x36, 0x37, 0x38, 0x39];
    Digit6(); Feed6(); Fed(0x340a_c5e3, 0x36, 0x36, 0xf68d_2c9e, [0x37, 0x38, 0x39]);
    assert [0x36] + [0x37, 0x38, 0x39] == [0x36, 0x37, 0x38, 0x39];
    Digit7(); Feed7(); Fed(0xf68d_2c9e, 0x37, 0x37, 0xaffc_9660, [0x38, 0x39]);
    assert [0x37] + [0x38, 0x39] == [0x37, 0x38, 0x39];
    Digit8(); Feed8(); Fed(0xaffc_9660, 0x38, 0x38, 0x651f_2550, [0x39]);
    assert [0x38] + [0x39] == [0x38, 0x39];
    Digit9(); Feed9(); Fed(0x651f_2550, 0x39, 0x39, 0x340b_c6d9, []);
    assert [0x39] + [] == [0x39];
    RegisterNothing(0x340b_c6d9);
    CrcIsComplement([0x31, 0x32, 0x33, 0x34, 0x35, 0x36, 0x37, 0x38, 0x39], 0x340b_c6d9);
  }
}
