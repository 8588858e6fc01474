/** CRC-32 as both ends of the serial link compute it. */
module Crc {
  import opened Bytes
  import R = ShiftRegister

  /** One bit of the shift register, with the mask that replaces a branch. */
  function Shift(c: bv32): bv32 { (c >> 1) ^ (0xedb8_8320 & (0 - (c & 1))) }

  function Shifts(c: bv32, n: nat): bv32
    decreases n, c
  {
    if n == 0 then c else Shifts(Shift(c), n - 1)
  }

  /** The `k` low binary digits of `n`, least significant first. */
  function Digits(n: nat, k: nat): (s: seq<bool>)
    ensures |s| == k
    decreases k, n
  {
    if k == 0 then [] else [n % 2 == 1] + Digits(n / 2, k - 1)
  }

  function Push(x: bv32, digit: bool): bv32 { (x << 1) | (if digit then 1 else 0) }

  function FromDigits(d: seq<bool>): bv32
  {
    if d == [] then 0 else Push(FromDigits(d[1..]), d[0])
  }

  function BitsOfByte(b: byte): (s: seq<bool>)
    ensures |s| == 8
  {
    Digits(b, 8)
  }

  /** A byte widened to a word. */
  function Bits(b: byte): bv32 { FromDigits(BitsOfByte(b)) }

  function Feed(c: bv32, b: byte): bv32 { Shifts(c ^ Bits(b), 8) }

  /** The register after the bytes of `s`, starting from `c`. */
  function Register(c: bv32, s: seq<byte>): bv32
    decreases |s|
  {
    if s == [] then c else Register(Feed(c, s[0]), s[1..])
  }

  function Crc32(s: seq<byte>): bv32 { !Register(0xffff_ffff, s) }

  /** The checksum as the 32-bit word that a header or an image carries. */
  function Checksum(s: seq<byte>): u32 { Crc32(s) as int }

  lemma ChecksumInjective(s: seq<byte>, t: seq<byte>)
    ensures Checksum(s) == Checksum(t) <==> Crc32(s) == Crc32(t)
  {
    WordRoundTrip(Crc32(s)); WordRoundTrip(Crc32(t));
  }

  lemma WordRoundTrip(x: bv32)
    ensures (x as int) as bv32 == x
  {
  }

  lemma {:induction false} RegisterAppend(c: bv32, s: seq<byte>, t: seq<byte>)
    ensures Register(c, s + t) == Register(Register(c, s), t)
    decreases |s|
  {
    if s == [] {
      assert s + t == t;
    } else {
      assert (s + t)[1..] == s[1..] + t;
      RegisterAppend(Feed(c, s[0]), s[1..], t);
    }
  }

  lemma RegisterNothing(c: bv32)
    ensures Register(c, []) == c
  {
  }

  lemma RegisterSnoc(c: bv32, s: seq<byte>, i: nat)
    requires i < |s|
    ensures Register(c, s[..i + 1]) == Feed(Register(c, s[..i]), s[i])
  {
    assert s[..i + 1] == s[..i] + [s[i]];
    RegisterAppend(c, s[..i], [s[i]]);
    assert Register(Register(c, s[..i]), [s[i]]) == Register(Feed(Register(c, s[..i]), s[i]), []);
  }

  /** The inner loop: eight shifts. */
  method ShiftOut(start: bv32) returns (crc: bv32)
    ensures crc == Shifts(start, 8)
  {
    crc := start;
    for bit := 0 to 8
      invariant Shifts(crc, 8 - bit) == Shifts(start, 8)
    {
      var mask: bv32 := 0 - (crc & 1);
      crc := (crc >> 1) ^ (0xedb8_8320 & mask);
    }
  }

  /** The outer loop over the message, from any register content. */
  method RunRegister(start: bv32, bytes: seq<byte>) returns (crc: bv32)
    ensures crc == Register(start, bytes)
  {
    hide Register, Shifts, Bits;
    crc := start;
    RegisterNothing(start);
    assert bytes[..0] == [];
    for i := 0 to |bytes|
      invariant crc == Register(start, bytes[..i])
    {
      RegisterSnoc(start, bytes, i);
      crc := ShiftOut(crc ^ Bits(bytes[i]));
    }
    assert bytes[..|bytes|] == bytes;
  }

  /** `crc32` of the host and `rustscript_crc32` of the firmware. */
  method ComputeCrc32(bytes: seq<byte>) returns (crc: bv32)
    ensures crc == Crc32(bytes)
  {
    hide Register;
    crc := RunRegister(0xffff_ffff, bytes);
    crc := !crc;
  }

  // ----- the bits of a machine word

  predicate Bit(x: bv32, i: nat)
    requires i < 32
  {
    (x >> (i as bv6)) & 1 == 1
  }

  function WordOf(x: bv32): R.Word { seq(32, i requires 0 <= i < 32 => Bit(x, i)) }

  lemma IndexWord(i: nat)
    requires i < 32
    ensures (i as bv6) < 32
    ensures ((i + 1) as bv6) == (i as bv6) + 1
  {
  }

  lemma XorBitWord(a: bv32, b: bv32, k: bv6)
    requires k < 32
    ensures ((a ^ b) >> k) & 1 == 1 <==> (((a >> k) & 1 == 1) != ((b >> k) & 1 == 1))
  {
  }

  lemma ShrBitWord(a: bv32, k: bv6)
    requires k < 31
    ensures ((a >> 1) >> k) & 1 == (a >> (k + 1)) & 1
  {
  }

  lemma TopBitWord(a: bv32)
    ensures ((a >> 1) >> (31 as bv6)) & 1 == 0
    ensures (a >> (0 as bv6)) & 1 == a & 1
  {
  }

  lemma PeelWord(a: bv32, b: bv32)
    requires a >> 1 == b >> 1 && a & 1 == b & 1
    ensures a == b
  {
  }

  function Half(a: bv32): bv32 { a >> 1 }

  lemma HalvesWord(a: bv32)
    ensures a == 0 ==> Half(a) == 0
    ensures a != 0 ==> Half(a) < a
  {
  }

  lemma LowBitWord(a: bv32)
    ensures a & 1 == 0 || a & 1 == 1
  {
  }

  lemma MaskWord(c: bv32)
    ensures c & 1 == 0 || c & 1 == 1
    ensures c & 1 == 0 ==> (c >> 1) ^ (0xedb8_8320 & (0 - (c & 1))) == c >> 1
    ensures c & 1 == 1 ==> (c >> 1) ^ (0xedb8_8320 & (0 - (c & 1))) == (c >> 1) ^ 0xedb8_8320
  {
  }

  lemma WordOfXor(a: bv32, b: bv32)
    ensures WordOf(a ^ b) == R.Xor(WordOf(a), WordOf(b))
  {
    forall i | 0 <= i < 32
      ensures Bit(a ^ b, i) == (Bit(a, i) != Bit(b, i))
    {
      IndexWord(i); XorBitWord(a, b, i as bv6);
    }
  }

  lemma WordOfShr(a: bv32)
    ensures WordOf(a >> 1) == WordOf(a)[1..] + [false]
  {
    forall i | 0 <= i < 32
      ensures WordOf(a >> 1)[i] == (WordOf(a)[1..] + [false])[i]
    {
      IndexWord(i);
      if i < 31 { ShrBitWord(a, i as bv6); } else { TopBitWord(a); }
    }
  }

  lemma PolynomialFirst(i: nat)
    requires 0 <= i < 8
    ensures Bit(0xedb8_8320, i) == R.POLYNOMIAL[i]
  {
    assert Bit(0xedb8_8320, 0) == R.POLYNOMIAL[0] && Bit(0xedb8_8320, 1) == R.POLYNOMIAL[1] &&
           Bit(0xedb8_8320, 2) == R.POLYNOMIAL[2] && Bit(0xedb8_8320, 3) == R.POLYNOMIAL[3] &&
           Bit(0xedb8_8320, 4) == R.POLYNOMIAL[4] && Bit(0xedb8_8320, 5) == R.POLYNOMIAL[5] &&
           Bit(0xedb8_8320, 6) == R.POLYNOMIAL[6] && Bit(0xedb8_8320, 7) == R.POLYNOMIAL[7];
  }

  lemma PolynomialSecond(i: nat)
    requires 8 <= i < 16
    ensures Bit(0xedb8_8320, i) == R.POLYNOMIAL[i]
  {
    assert Bit(0xedb8_8320, 8) == R.POLYNOMIAL[8] && Bit(0xedb8_8320, 9) == R.POLYNOMIAL[9] &&
           Bit(0xedb8_8320, 10) == R.POLYNOMIAL[10] && Bit(0xedb8_8320, 11) == R.POLYNOMIAL[11] &&
           Bit(0xedb8_8320, 12) == R.POLYNOMIAL[12] && Bit(0xedb8_8320, 13) == R.POLYNOMIAL[13] &&
           Bit(0xedb8_8320, 14) == R.POLYNOMIAL[14] && Bit(0xedb8_8320, 15) == R.POLYNOMIAL[15];
  }

  lemma PolynomialThird(i: nat)
    requires 16 <= i < 24
    ensures Bit(0xedb8_8320, i) == R.POLYNOMIAL[i]
  {
    assert Bit(0xedb8_8320, 16) == R.POLYNOMIAL[16] && Bit(0xedb8_8320, 17) == R.POLYNOMIAL[17] &&
           Bit(0xedb8_8320, 18) == R.POLYNOMIAL[18] && Bit(0xedb8_8320, 19) == R.POLYNOMIAL[19] &&
           Bit(0xedb8_8320, 20) == R.POLYNOMIAL[20] && Bit(0xedb8_8320, 21) == R.POLYNOMIAL[21] &&
           Bit(0xedb8_8320, 22) == R.POLYNOMIAL[22] && Bit(0xedb8_8320, 23) == R.POLYNOMIAL[23];
  }

  lemma PolynomialLast(i: nat)
    requires 24 <= i < 32
    ensures Bit(0xedb8_8320, i) == R.POLYNOMIAL[i]
  {
    assert Bit(0xedb8_8320, 24) == R.POLYNOMIAL[24] && Bit(0xedb8_8320, 25) == R.POLYNOMIAL[25] &&
           Bit(0xedb8_8320, 26) == R.POLYNOMIAL[26] && Bit(0xedb8_8320, 27) == R.POLYNOMIAL[27] &&
           Bit(0xedb8_8320, 28) == R.POLYNOMIAL[28] && Bit(0xedb8_8320, 29) == R.POLYNOMIAL[29] &&
           Bit(0xedb8_8320, 30) == R.POLYNOMIAL[30] && Bit(0xedb8_8320, 31) == R.POLYNOMIAL[31];
  }

  lemma WordOfPolynomial()
    ensures WordOf(0xedb8_8320) == R.POLYNOMIAL
  {
    hide Bit;
    forall i | 0 <= i < 32 ensures Bit(0xedb8_8320, i) == R.POLYNOMIAL[i] {
      if i < 8 { PolynomialFirst(i); }
      else if i < 16 { PolynomialSecond(i); }
      else if i < 24 { PolynomialThird(i); }
      else { PolynomialLast(i); }
    }
  }

  lemma WordOfLow(a: bv32)
    ensures WordOf(a)[0] <==> a & 1 == 1
  {
    TopBitWord(a);
  }

  lemma SameWord(a: bv32, b: bv32)
    requires WordOf(a) == WordOf(b) && Half(a) == Half(b)
    ensures a == b
  {
    WordOfLow(a); WordOfLow(b);
    LowBitWord(a); LowBitWord(b);
    PeelWord(a, b);
  }

  lemma SameHalves(a: bv32, b: bv32)
    requires WordOf(a) == WordOf(b)
    ensures WordOf(Half(a)) == WordOf(Half(b))
  {
    WordOfShr(a); WordOfShr(b);
  }

  lemma {:induction false} WordOfInjective(a: bv32, b: bv32)
    requires WordOf(a) == WordOf(b)
    ensures a == b
    decreases a, b
  {
    if a != 0 || b != 0 {
      HalvesWord(a); HalvesWord(b);
      SameHalves(a, b);
      WordOfInjective(Half(a), Half(b));
      SameWord(a, b);
    }
  }

  lemma WordOfShift(c: bv32)
    ensures WordOf(Shift(c)) == R.Step(WordOf(c))
  {
    MaskWord(c);
    WordOfShr(c);
    TopBitWord(c);
    assert WordOf(c)[0] == Bit(c, 0);
    if c & 1 == 1 {
      WordOfXor(c >> 1, 0xedb8_8320);
      WordOfPolynomial();
    }
  }

  lemma {:induction false} WordOfShifts(c: bv32, n: nat)
    ensures WordOf(Shifts(c, n)) == R.Steps(WordOf(c), n)
    decreases n
  {
    if n > 0 {
      WordOfShift(c);
      WordOfShifts(Shift(c), n - 1);
    }
  }

  // ----- the message as bits, least significant bit of each byte first

  function BitsOf(s: seq<byte>): (t: seq<bool>)
    ensures |t| == 8 * |s|
  {
    if s == [] then [] else BitsOfByte(s[0]) + BitsOf(s[1..])
  }

  lemma PushWord(x: bv32, digit: bool, k: bv6)
    requires 0 < k < 32
    ensures (((x << 1) | (if digit then 1 else 0)) >> k) & 1 == (x >> (k - 1)) & 1
  {
  }

  lemma PushLowWord(x: bv32, digit: bool)
    ensures (((x << 1) | (if digit then 1 else 0)) >> (0 as bv6)) & 1 == 1 <==> digit
  {
  }

  lemma PreviousIndexWord(i: nat)
    requires 0 < i < 32
    ensures 0 < (i as bv6) < 32
    ensures ((i - 1) as bv6) == (i as bv6) - 1
  {
    IndexWord(i);
    IndexWord(i - 1);
  }

  lemma WordOfPush(x: bv32, digit: bool)
    ensures WordOf(Push(x, digit)) == [digit] + WordOf(x)[..31]
  {
    forall i | 0 <= i < 32
      ensures WordOf(Push(x, digit))[i] == ([digit] + WordOf(x)[..31])[i]
    {
      if i == 0 {
        PushLowWord(x, digit);
      } else {
        PreviousIndexWord(i); PushWord(x, digit, i as bv6);
      }
    }
  }

  lemma WordOfZero()
    ensures WordOf(0) == R.Zeros(32)
  {
    forall i | 0 <= i < 32
      ensures !WordOf(0)[i]
    {
      IndexWord(i); ZeroWord(i as bv6);
    }
  }

  lemma ZeroWord(k: bv6)
    requires k < 32
    ensures ((0 as bv32) >> k) & 1 == 0
  {
  }

  lemma {:induction false} WordOfDigits(d: seq<bool>)
    requires |d| <= 32
    ensures WordOf(FromDigits(d)) == d + R.Zeros(32 - |d|)
  {
    if d == [] {
      WordOfZero();
    } else {
      WordOfDigits(d[1..]);
      WordOfPush(FromDigits(d[1..]), d[0]);
      assert d == [d[0]] + d[1..];
    }
  }

  lemma WordOfByte(b: byte)
    ensures WordOf(Bits(b)) == BitsOfByte(b) + R.Zeros(24)
  {
    WordOfDigits(BitsOfByte(b));
  }

  lemma {:induction false} DigitsInjective(m: nat, n: nat, k: nat)
    requires m < Pow2(k) && n < Pow2(k) && Digits(m, k) == Digits(n, k)
    ensures m == n
    decreases k
  {
    if k > 0 {
      assert Digits(m, k)[0] == Digits(n, k)[0];
      assert Digits(m, k)[1..] == Digits(m / 2, k - 1) && Digits(n, k)[1..] == Digits(n / 2, k - 1);
      DigitsInjective(m / 2, n / 2, k - 1);
    }
  }

  lemma BitsOfByteInjective(a: byte, b: byte)
    requires BitsOfByte(a) == BitsOfByte(b)
    ensures a == b
  {
    assert Pow2(4) == 16 && Pow2(8) == 256;
    DigitsInjective(a, b, 8);
  }

  lemma {:induction false} BitsOfInjective(s: seq<byte>, t: seq<byte>)
    requires |s| == |t| && BitsOf(s) == BitsOf(t)
    ensures s == t
    decreases |s|
  {
    if s != [] {
      assert BitsOfByte(s[0]) == BitsOf(s)[..8] && BitsOfByte(t[0]) == BitsOf(t)[..8];
      BitsOfByteInjective(s[0], t[0]);
      assert BitsOf(s[1..]) == BitsOf(s)[8..] && BitsOf(t[1..]) == BitsOf(t)[8..];
      BitsOfInjective(s[1..], t[1..]);
      assert s == [s[0]] + s[1..] && t == [t[0]] + t[1..];
    }
  }

  lemma {:induction false} BitsOfAppend(s: seq<byte>, t: seq<byte>)
    ensures BitsOf(s + t) == BitsOf(s) + BitsOf(t)
    decreases |s|
  {
    if s == [] {
      assert s + t == t;
    } else {
      assert (s + t)[1..] == s[1..] + t;
      BitsOfAppend(s[1..], t);
    }
  }

  lemma FeedIsSerial(c: bv32, b: byte)
    ensures WordOf(Feed(c, b)) == R.Serial(WordOf(c), BitsOfByte(b))
  {
    AddByte(c, b);
    WordOfShifts(c ^ Bits(b), 8);
    R.SerialIsSteps(WordOf(c), BitsOfByte(b));
  }

  lemma AddByte(c: bv32, b: byte)
    ensures WordOf(c ^ Bits(b)) == R.Xor(WordOf(c), BitsOfByte(b) + R.Zeros(24))
  {
    WordOfXor(c, Bits(b));
    WordOfByte(b);
  }

  /** The byte-wise register is bit-serial division of the message by the CRC-32 polynomial. */
  lemma {:induction false} RegisterIsSerial(c: bv32, s: seq<byte>)
    ensures WordOf(Register(c, s)) == R.Serial(WordOf(c), BitsOf(s))
    decreases |s|
  {
    if s != [] {
      FeedIsSerial(c, s[0]);
      RegisterIsSerial(Feed(c, s[0]), s[1..]);
      R.SerialAppend(WordOf(c), BitsOfByte(s[0]), BitsOf(s[1..]));
    }
  }

  // ----- what damage the checksum detects

  /** Two messages that differ, and only in the bits from `from` to `to`, a stretch of at most 32. */
  predicate Burst(s: seq<byte>, t: seq<byte>, from: nat, to: nat)
  {
    |s| == |t| && s != t && from <= to <= 8 * |s| && to - from <= 32 &&
    forall i :: 0 <= i < 8 * |s| && BitsOf(s)[i] != BitsOf(t)[i] ==> from <= i < to
  }

  /** Any damage confined to 32 consecutive bits, wherever it starts, changes the CRC. */
  lemma BurstChangesCrc(s: seq<byte>, t: seq<byte>, from: nat, to: nat)
    requires Burst(s, t, from, to)
    ensures Crc32(s) != Crc32(t)
  {
    if BitsOf(s) == BitsOf(t) { BitsOfInjective(s, t); }
    R.BurstDetected(WordOf(0xffff_ffff), BitsOf(s), BitsOf(t), from, to);
    RegisterIsSerial(0xffff_ffff, s);
    RegisterIsSerial(0xffff_ffff, t);
    NotInjective(Register(0xffff_ffff, s), Register(0xffff_ffff, t));
  }

  lemma NotInjective(a: bv32, b: bv32)
    ensures !a == !b ==> a == b
  {
  }

  /** Any damage confined to four consecutive bytes changes the CRC. */
  lemma WindowChangesCrc(s: seq<byte>, t: seq<byte>, i: nat, k: nat)
    requires |s| == |t| && s != t && i + k <= |s| && k <= 4
    requires s[..i] == t[..i] && s[i + k..] == t[i + k..]
    ensures Crc32(s) != Crc32(t)
  {
    hide Crc32, BitsOf;
    WindowBits(s, i, k); WindowBits(t, i, k);
    DifferInside(BitsOf(s[..i]), BitsOf(s[i..][..k]), BitsOf(t[i..][..k]), BitsOf(s[i + k..]));
    BurstChangesCrc(s, t, 8 * i, 8 * (i + k));
  }

  lemma DifferInside(a: seq<bool>, b: seq<bool>, b': seq<bool>, c: seq<bool>)
    requires |b| == |b'|
    ensures forall i :: 0 <= i < |a| + |b| + |c| && (a + (b + c))[i] != (a + (b' + c))[i] ==> |a| <= i < |a| + |b|
  {
  }

  lemma SplitBits(s: seq<byte>, i: nat)
    requires i <= |s|
    ensures BitsOf(s) == BitsOf(s[..i]) + BitsOf(s[i..])
  {
    assert s == s[..i] + s[i..];
    BitsOfAppend(s[..i], s[i..]);
  }

  lemma WindowBits(s: seq<byte>, i: nat, k: nat)
    requires i + k <= |s|
    ensures BitsOf(s) == BitsOf(s[..i]) + (BitsOf(s[i..][..k]) + BitsOf(s[i + k..]))
  {
    SplitBits(s, i);
    SplitBits(s[i..], k);
    assert s[i..][k..] == s[i + k..];
  }

  lemma WordOfXor3(a: bv32, b: bv32, c: bv32)
    ensures WordOf(a ^ b ^ c) == R.Xor3(WordOf(a), WordOf(b), WordOf(c))
  {
    WordOfXor(a, b);
    WordOfXor(a ^ b, c);
  }

  lemma SumOfWords(x: bv32, a: bv32, b: bv32, c: bv32)
    requires WordOf(x) == R.Xor3(WordOf(a), WordOf(b), WordOf(c))
    ensures x == a ^ b ^ c
  {
    WordOfXor3(a, b, c);
    WordOfInjective(x, a ^ b ^ c);
  }

  lemma RegisterWords(i: bv32, x: seq<byte>, s: seq<byte>, t: seq<byte>, u: seq<byte>)
    requires |x| == |s| == |t| == |u|
    requires BitsOf(x) == R.Xor3(BitsOf(s), BitsOf(t), BitsOf(u))
    ensures WordOf(Register(i, x))
         == R.Xor3(WordOf(Register(i, s)), WordOf(Register(i, t)), WordOf(Register(i, u)))
  {
    RegisterIsSerial(i, x); RegisterIsSerial(i, s); RegisterIsSerial(i, t); RegisterIsSerial(i, u);
    R.SerialXor3(WordOf(i), BitsOf(s), BitsOf(t), BitsOf(u));
  }

  /** For messages of one length the CRC is affine over exclusive or. */
  lemma CrcIsAffine(x: seq<byte>, s: seq<byte>, t: seq<byte>, u: seq<byte>)
    requires |x| == |s| == |t| == |u|
    requires BitsOf(x) == R.Xor3(BitsOf(s), BitsOf(t), BitsOf(u))
    ensures Crc32(x) == Crc32(s) ^ Crc32(t) ^ Crc32(u)
  {
    RegisterWords(0xffff_ffff, x, s, t, u);
    SumOfWords(Register(0xffff_ffff, x),
               Register(0xffff_ffff, s), Register(0xffff_ffff, t), Register(0xffff_ffff, u));
    NotXor(Register(0xffff_ffff, s), Register(0xffff_ffff, t), Register(0xffff_ffff, u));
  }

  lemma NotXor(a: bv32, b: bv32, c: bv32)
    ensures !(a ^ b ^ c) == !a ^ !b ^ !c
  {
  }

  // ----- the table-driven algorithm of section 8 of RFC 1952

  /** `c` after `k` rounds of the table construction, with its branch. */
  function TableRounds(c: bv32, k: nat): bv32
    decreases k, c
  {
    if k == 0 then c
    else TableRounds(if c & 1 == 1 then 0xedb8_8320 ^ (c >> 1) else c >> 1, k - 1)
  }

  function TableEntry(n: bv32): bv32 { TableRounds(n, 8) }

  function TableFeed(c: bv32, b: byte): bv32 { TableEntry((c ^ Bits(b)) & 0xff) ^ (c >> 8) }

  function TableRegister(c: bv32, s: seq<byte>): bv32
    decreases |s|
  {
    if s == [] then c else TableRegister(TableFeed(c, s[0]), s[1..])
  }

  function TableCrc(s: seq<byte>): bv32 { TableRegister(0xffff_ffff, s) ^ 0xffff_ffff }

  lemma BranchWord(c: bv32)
    ensures 0xedb8_8320 ^ (c >> 1) == (c >> 1) ^ 0xedb8_8320
  {
  }

  lemma WordOfRound(c: bv32)
    ensures WordOf(if c & 1 == 1 then 0xedb8_8320 ^ (c >> 1) else c >> 1) == R.Step(WordOf(c))
  {
    BranchWord(c);
    WordOfShr(c);
    WordOfLow(c);
    if c & 1 == 1 {
      WordOfXor(c >> 1, 0xedb8_8320);
      WordOfPolynomial();
    }
  }

  lemma {:induction false} WordOfTable(c: bv32, k: nat)
    ensures WordOf(TableRounds(c, k)) == R.Steps(WordOf(c), k)
    decreases k
  {
    if k > 0 {
      WordOfRound(c);
      WordOfTable(if c & 1 == 1 then 0xedb8_8320 ^ (c >> 1) else c >> 1, k - 1);
    }
  }

  lemma LowByteWord(c: bv32, k: bv6)
    requires k < 32
    ensures ((c & 0xff) >> k) & 1 == if k < 8 then (c >> k) & 1 else 0
  {
  }

  lemma HighBytesWord(c: bv32, k: bv6)
    requires k < 32
    ensures ((c >> 8) >> k) & 1 == if k < 24 then (c >> (k + 8)) & 1 else 0
  {
  }

  lemma ByteIndices(i: nat)
    requires i < 32
    ensures (i as bv6) < 8 <==> i < 8
  {
  }

  lemma NextIndices(i: nat)
    requires i < 32
    ensures (i as bv6) < 24 <==> i < 24
    ensures i < 24 ==> ((i + 8) as bv6) == (i as bv6) + 8
  {
  }

  lemma WordOfLowByte(c: bv32)
    ensures WordOf(c & 0xff) == WordOf(c)[..8] + R.Zeros(24)
  {
    forall i | 0 <= i < 32
      ensures WordOf(c & 0xff)[i] == (WordOf(c)[..8] + R.Zeros(24))[i]
    {
      IndexWord(i); ByteIndices(i); LowByteWord(c, i as bv6);
    }
  }

  lemma WordOfHighBytes(c: bv32)
    ensures WordOf(c >> 8) == WordOf(c)[8..] + R.Zeros(8)
  {
    forall i | 0 <= i < 32
      ensures WordOf(c >> 8)[i] == (WordOf(c)[8..] + R.Zeros(8))[i]
    {
      IndexWord(i); NextIndices(i); HighBytesWord(c, i as bv6);
    }
  }

  function Lookup(x: bv32): bv32 { TableEntry(x & 0xff) ^ (x >> 8) }

  lemma LookupWords(x: bv32)
    ensures R.Xor(WordOf(TableEntry(x & 0xff)), WordOf(x >> 8)) == R.Steps(WordOf(x), 8)
  {
    WordOfTable(x & 0xff, 8);
    WordOfLowByte(x);
    WordOfHighBytes(x);
    R.StepsOfParts(WordOf(x), 8);
  }

  /** Eight shifts of a word: a table look-up for its low byte, added to its three high bytes moved down. */
  lemma LookupIsSteps(x: bv32)
    ensures WordOf(Lookup(x)) == R.Steps(WordOf(x), 8)
  {
    LookupWords(x);
    SumIsSteps(x, TableEntry(x & 0xff), x >> 8, Lookup(x));
  }

  lemma SumIsSteps(x: bv32, low: bv32, high: bv32, sum: bv32)
    requires sum == low ^ high
    requires R.Xor(WordOf(low), WordOf(high)) == R.Steps(WordOf(x), 8)
    ensures WordOf(sum) == R.Steps(WordOf(x), 8)
  {
    WordOfXor(low, high);
  }

  lemma TableFeedIsLookup(c: bv32, b: byte)
    ensures TableFeed(c, b) == Lookup(c ^ Bits(b))
  {
    AddByte(c, b);
    SameHighBytes(c, c ^ Bits(b));
  }

  lemma SameHighBytes(c: bv32, d: bv32)
    requires WordOf(c)[8..] == WordOf(d)[8..]
    ensures c >> 8 == d >> 8
  {
    WordOfHighBytes(c); WordOfHighBytes(d);
    WordOfInjective(c >> 8, d >> 8);
  }

  lemma TableFeedIsSerial(c: bv32, b: byte)
    ensures WordOf(TableFeed(c, b)) == R.Serial(WordOf(c), BitsOfByte(b))
  {
    TableFeedIsLookup(c, b);
    AddByte(c, b);
    R.SerialIsSteps(WordOf(c), BitsOfByte(b));
    LookupIsSteps(c ^ Bits(b));
  }

  lemma {:induction false} TableRegisterIsSerial(c: bv32, s: seq<byte>)
    ensures WordOf(TableRegister(c, s)) == R.Serial(WordOf(c), BitsOf(s))
    decreases |s|
  {
    if s != [] {
      TableFeedIsSerial(c, s[0]);
      TableRegisterIsSerial(TableFeed(c, s[0]), s[1..]);
      R.SerialAppend(WordOf(c), BitsOfByte(s[0]), BitsOf(s[1..]));
    }
  }

  lemma TableRegisterAgrees(c: bv32, s: seq<byte>)
    ensures Register(c, s) == TableRegister(c, s)
  {
    TableRegisterIsSerial(c, s);
    RegisterIsSerial(c, s);
    WordOfInjective(Register(c, s), TableRegister(c, s));
  }

  lemma ComplementWord(a: bv32)
    ensures !a == a ^ 0xffff_ffff
  {
  }

  lemma CrcIsComplement(s: seq<byte>, c: bv32)
    ensures Register(0xffff_ffff, s) == c ==> Crc32(s) == !c
    ensures TableRegister(0xffff_ffff, s) == c ==> TableCrc(s) == c ^ 0xffff_ffff
  {
  }

  /** The bitwise loop computes the table-driven CRC of the standard on every message. */
  lemma TableAgrees(s: seq<byte>)
    ensures Crc32(s) == TableCrc(s)
  {
    var a, b := Register(0xffff_ffff, s), TableRegister(0xffff_ffff, s);
    CrcIsComplement(s, a); CrcIsComplement(s, b);
    TableRegisterAgrees(0xffff_ffff, s);
    ComplementWord(a);
  }

  // ----- the checksum of a request

  function RequestCrc(program: seq<byte>, state: seq<byte>): bv32
  {
    Crc32(program) ^ Crc32(state).RotateLeft(1)
  }

  function RequestChecksum(program: seq<byte>, state: seq<byte>): u32 { RequestCrc(program, state) as int }

  lemma RotateWord(a: bv32)
    ensures a.RotateLeft(1) == (a << 1) | (a >> 31)
  {
  }

  lemma RotateBitWord(a: bv32, k: bv6)
    requires 0 < k < 32
    ensures (a.RotateLeft(1) >> k) & 1 == 1 <==> (a >> (k - 1)) & 1 == 1
  {
  }

  lemma RotateLowWord(a: bv32)
    ensures (a.RotateLeft(1) >> 0) & 1 == 1 <==> (a >> 31) & 1 == 1
  {
  }

  lemma RotateBit(a: bv32, i: nat)
    requires i < 32
    ensures Bit(a.RotateLeft(1), i) == Bit(a, if i == 0 then 31 else i - 1)
  {
    IndexWord(i);
    if i == 0 {
      RotateLowWord(a);
    } else {
      PreviousIndexWord(i);
      RotateBitWord(a, i as bv6);
    }
  }

  /** Bit by bit: the sum of the program's CRC and the state's CRC moved up by one place, its highest bit last. */
  lemma RequestBits(program: seq<byte>, state: seq<byte>, i: nat)
    requires i < 32
    ensures Bit(RequestCrc(program, state), i)
         == (Bit(Crc32(program), i) != Bit(Crc32(state), if i == 0 then 31 else i - 1))
  {
    hide Crc32, Bit, RequestCrc;
    var p, s, sum := Crc32(program), Crc32(state), RequestCrc(program, state);
    RequestIs(program, state, p, s, sum);
    RequestBit(p, s, sum, i);
  }

  lemma RequestIs(program: seq<byte>, state: seq<byte>, p: bv32, s: bv32, sum: bv32)
    requires p == Crc32(program) && s == Crc32(state) && sum == RequestCrc(program, state)
    ensures sum == p ^ s.RotateLeft(1)
  {
    hide Crc32;
  }

  lemma RequestBit(p: bv32, s: bv32, sum: bv32, i: nat)
    requires i < 32 && sum == p ^ s.RotateLeft(1)
    ensures Bit(sum, i) == (Bit(p, i) != Bit(s, if i == 0 then 31 else i - 1))
  {
    hide Bit;
    RotateBit(s, i);
    SumBit(p, s.RotateLeft(1), i);
  }

  lemma SumBit(a: bv32, b: bv32, i: nat)
    requires i < 32
    ensures Bit(a ^ b, i) == (Bit(a, i) != Bit(b, i))
  {
    IndexWord(i);
    XorBitWord(a, b, i as bv6);
  }

  /** `request_crc` of the host. */
  method HostRequestCrc(program: seq<byte>, state: seq<byte>) returns (crc: bv32)
    ensures crc == RequestCrc(program, state)
  {
    var p := ComputeCrc32(program);
    var s := ComputeCrc32(state);
    crc := p ^ s.RotateLeft(1);
  }

  /** `repl_request_crc` of the firmware rotates with two shifts. */
  method FirmwareRequestCrc(program: seq<byte>, state: seq<byte>) returns (crc: bv32)
    ensures crc == RequestCrc(program, state)
  {
    var stateCrc := ComputeCrc32(state);
    var programCrc := ComputeCrc32(program);
    RotateWord(stateCrc);
    crc := programCrc ^ ((stateCrc << 1) | (stateCrc >> 31));
  }

  lemma RequestWord(p: bv32, q: bv32, s: bv32)
    ensures p ^ s.RotateLeft(1) == q ^ s.RotateLeft(1) ==> p == q
    ensures s ^ p.RotateLeft(1) == s ^ q.RotateLeft(1) ==> p == q
  {
  }

  lemma RequestChecksumInjective(p: seq<byte>, s: seq<byte>, q: seq<byte>, t: seq<byte>)
    requires RequestChecksum(p, s) == RequestChecksum(q, t)
    ensures RequestCrc(p, s) == RequestCrc(q, t)
  {
    WordRoundTrip(RequestCrc(p, s)); WordRoundTrip(RequestCrc(q, t));
  }

  /** A change of the CRC of either part of a request, the other part intact, changes the request checksum. */
  lemma PartChangesRequest(s: seq<byte>, t: seq<byte>, other: seq<byte>)
    requires Crc32(s) != Crc32(t)
    ensures RequestChecksum(s, other) != RequestChecksum(t, other)
    ensures RequestChecksum(other, s) != RequestChecksum(other, t)
  {
    RequestWord(Crc32(s), Crc32(t), Crc32(other));
    if RequestChecksum(s, other) == RequestChecksum(t, other) {
      RequestChecksumInjective(s, other, t, other);
    }
    if RequestChecksum(other, s) == RequestChecksum(other, t) {
      RequestChecksumInjective(other, s, other, t);
    }
  }

  /** So does a burst of up to 32 bits in either part. */
  lemma BurstChangesRequest(s: seq<byte>, t: seq<byte>, from: nat, to: nat, other: seq<byte>)
    requires Burst(s, t, from, to)
    ensures RequestChecksum(s, other) != RequestChecksum(t, other)
    ensures RequestChecksum(other, s) != RequestChecksum(other, t)
  {
    hide Crc32, RequestChecksum;
    BurstChangesCrc(s, t, from, to);
    PartChangesRequest(s, t, other);
  }
}
