/** How long the shift register takes to come back: powers of x modulo the CRC-32 polynomial. */
module PolynomialOrder {
  import opened Crc
  import opened Divisors
  import R = ShiftRegister

  /** The polynomial 1; the register keeps the coefficient of x^i in bit 31 - i. */
  const ONE: bv32 := 0x8000_0000

  /** x to the power of `n`. */
  function Power(n: nat): bv32 { Shifts(ONE, n) }

  // ----- shifting is linear and loses nothing

  /** Addition of polynomials. */
  function Plus(a: bv32, b: bv32): bv32 { a ^ b }

  lemma WordOfPlus(a: bv32, b: bv32)
    ensures WordOf(Plus(a, b)) == R.Xor(WordOf(a), WordOf(b))
  {
    WordOfXor(a, b);
  }

  lemma ShiftsPlus(a: bv32, b: bv32, n: nat)
    ensures Shifts(Plus(a, b), n) == Plus(Shifts(a, n), Shifts(b, n))
  {
    hide Plus, Shifts, WordOf;
    WordOfPlus(a, b);
    WordOfPlus(Shifts(a, n), Shifts(b, n));
    WordOfShifts(Plus(a, b), n); WordOfShifts(a, n); WordOfShifts(b, n);
    R.StepsXor(WordOf(a), WordOf(b), n);
    WordOfInjective(Shifts(Plus(a, b), n), Plus(Shifts(a, n), Shifts(b, n)));
  }

  lemma ShiftsInjective(a: bv32, b: bv32, n: nat)
    requires Shifts(a, n) == Shifts(b, n)
    ensures a == b
  {
    hide Shifts, WordOf;
    WordOfShifts(a, n); WordOfShifts(b, n);
    R.StepsInjective(WordOf(a), WordOf(b), n);
    WordOfInjective(a, b);
  }

  lemma {:induction false} ShiftsOfZero(n: nat)
    ensures Shifts(0, n) == 0
    decreases n
  {
    if n > 0 { ShiftsOfZero(n - 1); }
  }

  lemma {:induction false} ShiftsAdd(c: bv32, m: nat, n: nat)
    ensures Shifts(c, m + n) == Shifts(Shifts(c, m), n)
    decreases m
  {
    hide Shift;
    if m > 0 { ShiftsAdd(Shift(c), m - 1, n); }
  }

  lemma ShiftsOnce(c: bv32)
    ensures Shifts(c, 1) == Shift(c)
  {
  }

  lemma ShiftAfter(c: bv32, n: nat)
    ensures Shift(Shifts(c, n)) == Shifts(c, n + 1)
  {
    hide Shift, Shifts;
    ShiftsAdd(c, n, 1);
    ShiftsOnce(Shifts(c, n));
  }

  // ----- multiplication, eight coefficients at a time

  function Shift8(b: bv32): bv32 { Shift(Shift(Shift(Shift(Shift(Shift(Shift(Shift(b)))))))) }
  function Shift16(b: bv32): bv32 { Shift8(Shift8(b)) }
  function Shift24(b: bv32): bv32 { Shift8(Shift16(b)) }

  /** The eight highest coefficients of `c` times `b`. */
  function Times8(c: bv32, b: bv32): bv32
  {
    var b1 := Shift(b);
    var b2 := Shift(b1);
    var b3 := Shift(b2);
    var b4 := Shift(b3);
    var b5 := Shift(b4);
    var b6 := Shift(b5);
    var b7 := Shift(b6);
    Sum8(if c & 0x8000_0000 != 0 then b else 0, if c & 0x4000_0000 != 0 then b1 else 0,
         if c & 0x2000_0000 != 0 then b2 else 0, if c & 0x1000_0000 != 0 then b3 else 0,
         if c & 0x0800_0000 != 0 then b4 else 0, if c & 0x0400_0000 != 0 then b5 else 0,
         if c & 0x0200_0000 != 0 then b6 else 0, if c & 0x0100_0000 != 0 then b7 else 0)
  }

  function Sum4(a: bv32, b: bv32, c: bv32, d: bv32): bv32 { a ^ b ^ c ^ d }

  function Sum8(a: bv32, b: bv32, c: bv32, d: bv32, e: bv32, f: bv32, g: bv32, h: bv32): bv32
  {
    Plus(Sum4(a, b, c, d), Sum4(e, f, g, h))
  }

  function Product(c: bv32, b: bv32): bv32
  {
    Sum4(Times8(c, b), Times8(c << 8, Shift8(b)), Times8(c << 16, Shift16(b)), Times8(c << 24, Shift24(b)))
  }

  /** The coefficients of `c` where `mask` has ones. */
  function Part(c: bv32, mask: bv32): bv32 { c & mask }

  lemma PlusIs(a: bv32, b: bv32, p: bv32)
    requires p == Plus(a, b)
    ensures p == a ^ b
  {
  }

  lemma SumWord(a: bv32, b: bv32, c: bv32, d: bv32, p: bv32, q: bv32, r: bv32)
    requires p == a ^ b && q == p ^ c && r == q ^ d
    ensures Sum4(a, b, c, d) == r
  {
  }

  lemma SumSteps(a: bv32, b: bv32, c: bv32, d: bv32, p: bv32, q: bv32, r: bv32)
    requires p == Plus(a, b) && q == Plus(p, c) && r == Plus(q, d)
    ensures Sum4(a, b, c, d) == r
  {
    hide Plus, Sum4;
    PlusIs(a, b, p); PlusIs(p, c, q); PlusIs(q, d, r);
    SumWord(a, b, c, d, p, q, r);
  }

  lemma ShiftsSum4(a: bv32, b: bv32, c: bv32, d: bv32, n: nat)
    ensures Sum4(Shifts(a, n), Shifts(b, n), Shifts(c, n), Shifts(d, n)) == Shifts(Sum4(a, b, c, d), n)
  {
    hide Shifts, Plus, Sum4;
    var p, q := Plus(a, b), Plus(Plus(a, b), c);
    var r := Plus(q, d);
    SumSteps(a, b, c, d, p, q, r);
    ShiftsPlus(a, b, n); ShiftsPlus(p, c, n); ShiftsPlus(q, d, n);
    SumSteps(Shifts(a, n), Shifts(b, n), Shifts(c, n), Shifts(d, n), Shifts(p, n), Shifts(q, n), Shifts(r, n));
  }

  lemma ShiftsSum8(a: bv32, b: bv32, c: bv32, d: bv32, e: bv32, f: bv32, g: bv32, h: bv32, n: nat)
    ensures Sum8(Shifts(a, n), Shifts(b, n), Shifts(c, n), Shifts(d, n),
                 Shifts(e, n), Shifts(f, n), Shifts(g, n), Shifts(h, n))
         == Shifts(Sum8(a, b, c, d, e, f, g, h), n)
  {
    hide Shifts, Plus, Sum4;
    ShiftsSum4(a, b, c, d, n); ShiftsSum4(e, f, g, h, n);
    ShiftsPlus(Sum4(a, b, c, d), Sum4(e, f, g, h), n);
  }

  /** One coefficient of `c` times a power of x. */
  lemma PickIs(c: bv32, mask: bv32, v: bv32, n: nat)
    requires c & mask == 0 || c & mask == mask
    requires v == Shifts(mask, n)
    ensures (if c & mask != 0 then v else 0) == Shifts(Part(c, mask), n)
  {
    hide Shifts;
    ShiftsOfZero(n);
  }

  lemma Bit31(c: bv32) ensures c & 0x8000_0000 == 0 || c & 0x8000_0000 == 0x8000_0000 {}
  lemma Bit30(c: bv32) ensures c & 0x4000_0000 == 0 || c & 0x4000_0000 == 0x4000_0000 {}
  lemma Bit29(c: bv32) ensures c & 0x2000_0000 == 0 || c & 0x2000_0000 == 0x2000_0000 {}
  lemma Bit28(c: bv32) ensures c & 0x1000_0000 == 0 || c & 0x1000_0000 == 0x1000_0000 {}
  lemma Bit27(c: bv32) ensures c & 0x0800_0000 == 0 || c & 0x0800_0000 == 0x0800_0000 {}
  lemma Bit26(c: bv32) ensures c & 0x0400_0000 == 0 || c & 0x0400_0000 == 0x0400_0000 {}
  lemma Bit25(c: bv32) ensures c & 0x0200_0000 == 0 || c & 0x0200_0000 == 0x0200_0000 {}
  lemma Bit24(c: bv32) ensures c & 0x0100_0000 == 0 || c & 0x0100_0000 == 0x0100_0000 {}

  lemma Pick31(c: bv32, v: bv32, n: nat)
    requires v == Shifts(0x8000_0000, n)
    ensures (if c & 0x8000_0000 != 0 then v else 0) == Shifts(Part(c, 0x8000_0000), n)
  {
    hide Shifts, Part;
    Bit31(c);
    PickIs(c, 0x8000_0000, v, n);
  }

  lemma Pick30(c: bv32, v: bv32, n: nat)
    requires v == Shifts(0x4000_0000, n)
    ensures (if c & 0x4000_0000 != 0 then v else 0) == Shifts(Part(c, 0x4000_0000), n)
  {
    hide Shifts, Part;
    Bit30(c);
    PickIs(c, 0x4000_0000, v, n);
  }

  lemma Pick29(c: bv32, v: bv32, n: nat)
    requires v == Shifts(0x2000_0000, n)
    ensures (if c & 0x2000_0000 != 0 then v else 0) == Shifts(Part(c, 0x2000_0000), n)
  {
    hide Shifts, Part;
    Bit29(c);
    PickIs(c, 0x2000_0000, v, n);
  }

  lemma Pick28(c: bv32, v: bv32, n: nat)
    requires v == Shifts(0x1000_0000, n)
    ensures (if c & 0x1000_0000 != 0 then v else 0) == Shifts(Part(c, 0x1000_0000), n)
  {
    hide Shifts, Part;
    Bit28(c);
    PickIs(c, 0x1000_0000, v, n);
  }

  lemma Pick27(c: bv32, v: bv32, n: nat)
    requires v == Shifts(0x0800_0000, n)
    ensures (if c & 0x0800_0000 != 0 then v else 0) == Shifts(Part(c, 0x0800_0000), n)
  {
    hide Shifts, Part;
    Bit27(c);
    PickIs(c, 0x0800_0000, v, n);
  }

  lemma Pick26(c: bv32, v: bv32, n: nat)
    requires v == Shifts(0x0400_0000, n)
    ensures (if c & 0x0400_0000 != 0 then v else 0) == Shifts(Part(c, 0x0400_0000), n)
  {
    hide Shifts, Part;
    Bit26(c);
    PickIs(c, 0x0400_0000, v, n);
  }

  lemma Pick25(c: bv32, v: bv32, n: nat)
    requires v == Shifts(0x0200_0000, n)
    ensures (if c & 0x0200_0000 != 0 then v else 0) == Shifts(Part(c, 0x0200_0000), n)
  {
    hide Shifts, Part;
    Bit25(c);
    PickIs(c, 0x0200_0000, v, n);
  }

  lemma Pick24(c: bv32, v: bv32, n: nat)
    requires v == Shifts(0x0100_0000, n)
    ensures (if c & 0x0100_0000 != 0 then v else 0) == Shifts(Part(c, 0x0100_0000), n)
  {
    hide Shifts, Part;
    Bit24(c);
    PickIs(c, 0x0100_0000, v, n);
  }

  /** The eight highest coefficients together. */
  lemma TopBits(c: bv32)
    ensures Sum8(Part(c, 0x8000_0000), Part(c, 0x4000_0000), Part(c, 0x2000_0000), Part(c, 0x1000_0000),
                 Part(c, 0x0800_0000), Part(c, 0x0400_0000), Part(c, 0x0200_0000), Part(c, 0x0100_0000))
         == Part(c, 0xff00_0000)
  {
  }

  lemma FourBytes(c: bv32)
    ensures Sum4(Part(c, 0xff00_0000), Part(c, 0x00ff_0000), Part(c, 0x0000_ff00), Part(c, 0x0000_00ff)) == c
  {
  }

  lemma SingleBits()
    ensures Shift(0x8000_0000) == 0x4000_0000
    ensures Shift(0x4000_0000) == 0x2000_0000
    ensures Shift(0x2000_0000) == 0x1000_0000
    ensures Shift(0x1000_0000) == 0x0800_0000
    ensures Shift(0x0800_0000) == 0x0400_0000
    ensures Shift(0x0400_0000) == 0x0200_0000
    ensures Shift(0x0200_0000) == 0x0100_0000
  {
  }

  /** The next seven powers as shifts of their coefficients. */
  lemma NextPowers(n: nat)
    ensures var b := Power(n);
            var b1 := Shift(b); var b2 := Shift(b1); var b3 := Shift(b2);
            var b4 := Shift(b3); var b5 := Shift(b4); var b6 := Shift(b5);
            b == Shifts(0x8000_0000, n) && b1 == Shifts(0x4000_0000, n) && b2 == Shifts(0x2000_0000, n) &&
            b3 == Shifts(0x1000_0000, n) && b4 == Shifts(0x0800_0000, n) && b5 == Shifts(0x0400_0000, n) &&
            b6 == Shifts(0x0200_0000, n) && Shift(b6) == Shifts(0x0100_0000, n)
  {
    hide Shift, Shifts;
    SingleBits();
    PowerIs(n);
    ShiftsSwap(0x8000_0000, n);
    ShiftsSwap(0x4000_0000, n);
    ShiftsSwap(0x2000_0000, n);
    ShiftsSwap(0x1000_0000, n);
    ShiftsSwap(0x0800_0000, n);
    ShiftsSwap(0x0400_0000, n);
    ShiftsSwap(0x0200_0000, n);
  }

  lemma ShiftsSwap(c: bv32, n: nat)
    ensures Shift(Shifts(c, n)) == Shifts(Shift(c), n)
  {
    hide Shift, Shifts;
    ShiftAfter(c, n);
    ShiftsAdd(c, 1, n);
    ShiftsOnce(c);
  }

  lemma Times8Is(c: bv32, n: nat)
    ensures Times8(c, Power(n)) == Shifts(Part(c, 0xff00_0000), n)
  {
    hide Shift, Shifts, Power, Part, Sum8;
    TopBits(c);
    NextPowers(n);
    var b := Power(n);
    var b1 := Shift(b); var b2 := Shift(b1); var b3 := Shift(b2);
    var b4 := Shift(b3); var b5 := Shift(b4); var b6 := Shift(b5);
    Pick31(c, b, n); Pick30(c, b1, n); Pick29(c, b2, n); Pick28(c, b3, n);
    Pick27(c, b4, n); Pick26(c, b5, n); Pick25(c, b6, n); Pick24(c, Shift(b6), n);
    ShiftsSum8(Part(c, 0x8000_0000), Part(c, 0x4000_0000), Part(c, 0x2000_0000), Part(c, 0x1000_0000),
               Part(c, 0x0800_0000), Part(c, 0x0400_0000), Part(c, 0x0200_0000), Part(c, 0x0100_0000), n);
  }

  lemma PowerIs(n: nat)
    ensures Power(n) == Shifts(0x8000_0000, n)
  {
  }

  /** The coefficients that a shift moves back to where they were. */
  lemma MovedBackWord(c: bv32)
    ensures Shift8((c << 8) & 0xff00_0000) == c & 0x00ff_0000
    ensures Shift16((c << 16) & 0xff00_0000) == c & 0x0000_ff00
    ensures Shift24((c << 24) & 0xff00_0000) == c & 0x0000_00ff
  {
  }

  lemma MovedBack(c: bv32)
    ensures Shift8(Part(c << 8, 0xff00_0000)) == Part(c, 0x00ff_0000)
    ensures Shift16(Part(c << 16, 0xff00_0000)) == Part(c, 0x0000_ff00)
    ensures Shift24(Part(c << 24, 0xff00_0000)) == Part(c, 0x0000_00ff)
  {
    hide Shift8, Shift16, Shift24;
    MovedBackWord(c);
  }

  lemma Shifts8(c: bv32, n: nat)
    ensures Shifts(c, n + 8) == Shifts(Shift8(c), n) && Shift8(Shifts(c, n)) == Shifts(c, n + 8)
  {
    hide Shift;
    ShiftsAdd(c, 8, n);
    ShiftsEight(c);
    ShiftsAdd(c, n, 8);
    ShiftsEight(Shifts(c, n));
  }

  lemma ShiftsEight(c: bv32)
    ensures Shifts(c, 8) == Shift8(c)
  {
    hide Shift;
    ShiftsOnce(c);
    ShiftAfter(c, 1); ShiftAfter(c, 2); ShiftAfter(c, 3); ShiftAfter(c, 4);
    ShiftAfter(c, 5); ShiftAfter(c, 6); ShiftAfter(c, 7);
  }

  lemma ShiftsMoved(c: bv32, n: nat)
    ensures Shifts(Part(c << 8, 0xff00_0000), n + 8) == Shifts(Part(c, 0x00ff_0000), n)
    ensures Shifts(Part(c << 16, 0xff00_0000), n + 16) == Shifts(Part(c, 0x0000_ff00), n)
    ensures Shifts(Part(c << 24, 0xff00_0000), n + 24) == Shifts(Part(c, 0x0000_00ff), n)
  {
    hide Shifts, Shift8, Part;
    MovedBack(c);
    var p, q, r := Part(c << 8, 0xff00_0000), Part(c << 16, 0xff00_0000), Part(c << 24, 0xff00_0000);
    Shifts8(p, n);
    Shifts8(q, n + 8); Shifts8(Shift8(q), n);
    Shifts8(r, n + 16); Shifts8(Shift8(r), n + 8); Shifts8(Shift8(Shift8(r)), n);
  }

  /** Multiplying by a power of x is shifting. */
  lemma ProductIs(c: bv32, n: nat)
    ensures Product(c, Power(n)) == Shifts(c, n)
  {
    hide Shifts, Shift8, Part, Times8, Sum4;
    Shifts8(ONE, n); Shifts8(ONE, n + 8); Shifts8(ONE, n + 16);
    Times8Is(c, n); Times8Is(c << 8, n + 8); Times8Is(c << 16, n + 16); Times8Is(c << 24, n + 24);
    ShiftsMoved(c, n);
    FourBytes(c);
    ShiftsSum4(Part(c, 0xff00_0000), Part(c, 0x00ff_0000), Part(c, 0x0000_ff00), Part(c, 0x0000_00ff), n);
  }

  /** Powers multiply by adding exponents. */
  lemma PowersMultiply(m: nat, n: nat)
    ensures Product(Power(m), Power(n)) == Power(m + n)
  {
    hide Shifts, Product;
    ProductIs(Power(m), n);
    ShiftsAdd(ONE, m, n);
  }

  // ----- raising to 3, 5, 17, 257 and 65537

  function Square(b: bv32): bv32 { Product(b, b) }
  function Square2(b: bv32): bv32 { Square(Square(b)) }
  function Square4(b: bv32): bv32 { Square2(Square2(b)) }
  function Square8(b: bv32): bv32 { Square4(Square4(b)) }

  lemma SquaresOf(n: nat)
    ensures Square(Power(n)) == Power(2 * n) && Square2(Power(n)) == Power(4 * n)
    ensures Square4(Power(n)) == Power(16 * n) && Square8(Power(n)) == Power(256 * n)
  {
    hide Power, Product;
    SquareOnce(n); SquareOnce(2 * n); SquareOnce(4 * n); SquareOnce(8 * n);
    SquareOnce(16 * n); SquareOnce(32 * n); SquareOnce(64 * n); SquareOnce(128 * n);
  }

  lemma SquareOnce(n: nat)
    ensures Square(Power(n)) == Power(2 * n)
  {
    hide Power, Product;
    PowersMultiply(n, n);
  }

  /** From `v`, the power of `n`, to the power of a Fermat number times `n`. */
  lemma Raise(n: nat, v: bv32, m: nat, w: bv32)
    requires Power(n) == v
    requires || (m == 3 * n && w == Product(v, Square(v)))
             || (m == 5 * n && w == Product(v, Square2(v)))
             || (m == 17 * n && w == Product(v, Square4(v)))
             || (m == 257 * n && w == Product(v, Square8(v)))
             || (m == 65537 * n && w == Product(v, Square8(Square8(v))))
    ensures Power(m) == w
  {
    hide Power, Product, Square, Square2, Square4, Square8;
    SquaresOf(n); SquaresOf(256 * n);
    PowersMultiply(n, 2 * n); PowersMultiply(n, 4 * n); PowersMultiply(n, 16 * n);
    PowersMultiply(n, 256 * n); PowersMultiply(n, 65536 * n);
  }

  // ----- the powers of 2^32 - 1 and of its cofactors, computed in constant arithmetic: `ToTheN` gives x to the power
  // of N, in its last constant, from the smaller powers in the others

  lemma ToThe2() ensures Square(0x4000_0000) == 0x2000_0000 {}
  lemma ToThe3() ensures Product(0x4000_0000, 0x2000_0000) == 0x1000_0000 {}
  lemma ToThe12() ensures Square2(0x1000_0000) == 0x0008_0000 {}
  lemma ToThe15() ensures Product(0x1000_0000, 0x0008_0000) == 0x0001_0000 {}
  lemma ToThe60() ensures Square2(0x0001_0000) == 0xc5b4_28ef {}
  lemma ToThe240() ensures Square2(0xc5b4_28ef) == 0x9e36_506b {}
  lemma ToThe255() ensures Product(0x0001_0000, 0x9e36_506b) == 0x01b5_fd1d {}
  lemma ToThe1020() ensures Square2(0x01b5_fd1d) == 0x16d5_d82a {}
  lemma ToThe4080() ensures Square2(0x16d5_d82a) == 0xf4e5_307f {}
  lemma ToThe16320() ensures Square2(0xf4e5_307f) == 0x8ccf_5292 {}
  lemma ToThe65280() ensures Square2(0x8ccf_5292) == 0x3ef5_34d3 {}
  lemma ToThe65535() ensures Product(0x01b5_fd1d, 0x3ef5_34d3) == 0xdc7b_5c5f {}
  lemma ToThe262140() ensures Square2(0xdc7b_5c5f) == 0xd86d_d534 {}
  lemma ToThe1048560() ensures Square2(0xd86d_d534) == 0x551c_76f2 {}
  lemma ToThe4194240() ensures Square2(0x551c_76f2) == 0xc528_5ab3 {}
  lemma ToThe16776960() ensures Square2(0xc528_5ab3) == 0xa0f4_7de3 {}
  lemma ToThe67107840() ensures Square2(0xa0f4_7de3) == 0x6966_98f5 {}
  lemma ToThe268431360() ensures Square2(0x6966_98f5) == 0x9fa1_d3e6 {}
  lemma ToThe1073725440() ensures Square2(0x9fa1_d3e6) == 0x9f10_79ae {}
  lemma ToThe4294901760() ensures Square2(0x9f10_79ae) == 0xfc04_9cc7 {}
  lemma ToThe4294967295() ensures Product(0xdc7b_5c5f, 0xfc04_9cc7) == 0x8000_0000 {}
  lemma ToThe261120() ensures Square2(0x3ef5_34d3) == 0xb28b_cbe9 {}
  lemma ToThe1044480() ensures Square2(0xb28b_cbe9) == 0x67d3_610d {}
  lemma ToThe4177920() ensures Square2(0x67d3_610d) == 0x3ddc_f1ce {}
  lemma ToThe16711680() ensures Square2(0x3ddc_f1ce) == 0x14ec_2c14 {}
  lemma ToThe16711935() ensures Product(0x01b5_fd1d, 0x14ec_2c14) == 0x351c_22c9 {}
  lemma ToThe960() ensures Square2(0x9e36_506b) == 0x00cc_3374 {}
  lemma ToThe3840() ensures Square2(0x00cc_3374) == 0x8ab1_4358 {}
  lemma ToThe3855() ensures Product(0x0001_0000, 0x8ab1_4358) == 0xe01f_9dcf {}
  lemma ToThe15420() ensures Square2(0xe01f_9dcf) == 0xc45f_bca8 {}
  lemma ToThe61680() ensures Square2(0xc45f_bca8) == 0x8684_60b5 {}
  lemma ToThe246720() ensures Square2(0x8684_60b5) == 0x6223_5b00 {}
  lemma ToThe986880() ensures Square2(0x6223_5b00) == 0xcf05_bb2e {}
  lemma ToThe3947520() ensures Square2(0xcf05_bb2e) == 0x438a_115e {}
  lemma ToThe15790080() ensures Square2(0x438a_115e) == 0xd388_ee1d {}
  lemma ToThe63160320() ensures Square2(0xd388_ee1d) == 0x2b98_b43c {}
  lemma ToThe252641280() ensures Square2(0x2b98_b43c) == 0x8cce_674f {}
  lemma ToThe252645135() ensures Product(0xe01f_9dcf, 0x8cce_674f) == 0x8c28_3ca0 {}
  lemma ToThe48() ensures Square2(0x0008_0000) == 0xe135_1b80 {}
  lemma ToThe51() ensures Product(0x1000_0000, 0xe135_1b80) == 0x1c26_a370 {}
  lemma ToThe204() ensures Square2(0x1c26_a370) == 0xb943_2600 {}
  lemma ToThe816() ensures Square2(0xb943_2600) == 0xd8da_498b {}
  lemma ToThe3264() ensures Square2(0xd8da_498b) == 0xb322_3ae9 {}
  lemma ToThe13056() ensures Square2(0xb322_3ae9) == 0x35f9_3f52 {}
  lemma ToThe13107() ensures Product(0x1c26_a370, 0x35f9_3f52) == 0xc1a9_9cf7 {}
  lemma ToThe52428() ensures Square2(0xc1a9_9cf7) == 0x68a1_ad9f {}
  lemma ToThe209712() ensures Square2(0x68a1_ad9f) == 0x022e_2591 {}
  lemma ToThe838848() ensures Square2(0x022e_2591) == 0xb4c8_1387 {}
  lemma ToThe3355392() ensures Square2(0xb4c8_1387) == 0x540e_fc84 {}
  lemma ToThe13421568() ensures Square2(0x540e_fc84) == 0x1e6d_dc7a {}
  lemma ToThe53686272() ensures Square2(0x1e6d_dc7a) == 0x90d2_9617 {}
  lemma ToThe214745088() ensures Square2(0x90d2_9617) == 0xb455_76cc {}
  lemma ToThe858980352() ensures Square2(0xb455_76cc) == 0x3fc5_1329 {}
  lemma ToThe858993459() ensures Product(0xc1a9_9cf7, 0x3fc5_1329) == 0x8401_1278 {}
  lemma ToThe4() ensures Square2(0x4000_0000) == 0x0800_0000 {}
  lemma ToThe5() ensures Product(0x4000_0000, 0x0800_0000) == 0x0400_0000 {}
  lemma ToThe20() ensures Square2(0x0400_0000) == 0x0000_0800 {}
  lemma ToThe80() ensures Square2(0x0000_0800) == 0x8816_eaf2 {}
  lemma ToThe85() ensures Product(0x0400_0000, 0x8816_eaf2) == 0xf44f_2413 {}
  lemma ToThe340() ensures Square2(0xf44f_2413) == 0x19db_578b {}
  lemma ToThe1360() ensures Square2(0x19db_578b) == 0xfa07_b12c {}
  lemma ToThe5440() ensures Square2(0xfa07_b12c) == 0x15b1_afa5 {}
  lemma ToThe21760() ensures Square2(0x15b1_afa5) == 0x73b0_b1c1 {}
  lemma ToThe21845() ensures Product(0xf44f_2413, 0x73b0_b1c1) == 0xeba0_264a {}
  lemma ToThe87380() ensures Square2(0xeba0_264a) == 0x8c21_bce1 {}
  lemma ToThe349520() ensures Square2(0x8c21_bce1) == 0xbb4f_67be {}
  lemma ToThe1398080() ensures Square2(0xbb4f_67be) == 0xea0b_a1c7 {}
  lemma ToThe5592320() ensures Square2(0xea0b_a1c7) == 0x3c6e_e027 {}
  lemma ToThe22369280() ensures Square2(0x3c6e_e027) == 0x9284_7aab {}
  lemma ToThe89477120() ensures Square2(0x9284_7aab) == 0xeb67_458b {}
  lemma ToThe357908480() ensures Square2(0xeb67_458b) == 0x3c23_6d40 {}
  lemma ToThe1431633920() ensures Square2(0x3c23_6d40) == 0xeee2_ccbe {}
  lemma ToThe1431655765() ensures Product(0xeba0_264a, 0xeee2_ccbe) == 0xc736_eb52 {}

  lemma PowerOfOne()
    ensures Power(1) == 0x4000_0000
  {
  }

  /** x to the power of 2^32 - 1 is 1; to the power of a cofactor of one of its five factors it is not. */
  lemma PowerOfAll()
    ensures Power(0xffff_ffff) == ONE && Power(0xffff) != ONE
  {
    hide Power, Product, Square;
    PowerOfOne();
    ToThe2(); ToThe3();
    Raise(1, 0x4000_0000, 3, 0x1000_0000);
    ToThe12(); ToThe15();
    Raise(3, 0x1000_0000, 15, 0x0001_0000);
    ToThe60(); ToThe240(); ToThe255();
    Raise(15, 0x0001_0000, 255, 0x01b5_fd1d);
    ToThe1020(); ToThe4080(); ToThe16320(); ToThe65280(); ToThe65535();
    Raise(255, 0x01b5_fd1d, 65535, 0xdc7b_5c5f);
    ToThe262140(); ToThe1048560(); ToThe4194240(); ToThe16776960(); ToThe67107840(); ToThe268431360();
    ToThe1073725440(); ToThe4294901760(); ToThe4294967295();
    Raise(65535, 0xdc7b_5c5f, 4294967295, 0x8000_0000);
  }

  lemma PowerWithout257()
    ensures Power(0x00ff_00ff) != ONE
  {
    hide Power, Product, Square;
    PowerOfOne();
    ToThe2(); ToThe3();
    Raise(1, 0x4000_0000, 3, 0x1000_0000);
    ToThe12(); ToThe15();
    Raise(3, 0x1000_0000, 15, 0x0001_0000);
    ToThe60(); ToThe240(); ToThe255();
    Raise(15, 0x0001_0000, 255, 0x01b5_fd1d);
    ToThe1020(); ToThe4080(); ToThe16320(); ToThe65280(); ToThe261120(); ToThe1044480(); ToThe4177920();
    ToThe16711680(); ToThe16711935();
    Raise(255, 0x01b5_fd1d, 16711935, 0x351c_22c9);
  }

  lemma PowerWithout17()
    ensures Power(0x0f0f_0f0f) != ONE
  {
    hide Power, Product, Square;
    PowerOfOne();
    ToThe2(); ToThe3();
    Raise(1, 0x4000_0000, 3, 0x1000_0000);
    ToThe12(); ToThe15();
    Raise(3, 0x1000_0000, 15, 0x0001_0000);
    ToThe60(); ToThe240(); ToThe960(); ToThe3840(); ToThe3855();
    Raise(15, 0x0001_0000, 3855, 0xe01f_9dcf);
    ToThe15420(); ToThe61680(); ToThe246720(); ToThe986880(); ToThe3947520(); ToThe15790080(); ToThe63160320();
    ToThe252641280(); ToThe252645135();
    Raise(3855, 0xe01f_9dcf, 252645135, 0x8c28_3ca0);
  }

  lemma PowerWithout5()
    ensures Power(0x3333_3333) != ONE
  {
    hide Power, Product, Square;
    PowerOfOne();
    ToThe2(); ToThe3();
    Raise(1, 0x4000_0000, 3, 0x1000_0000);
    ToThe12(); ToThe48(); ToThe51();
    Raise(3, 0x1000_0000, 51, 0x1c26_a370);
    ToThe204(); ToThe816(); ToThe3264(); ToThe13056(); ToThe13107();
    Raise(51, 0x1c26_a370, 13107, 0xc1a9_9cf7);
    ToThe52428(); ToThe209712(); ToThe838848(); ToThe3355392(); ToThe13421568(); ToThe53686272(); ToThe214745088();
    ToThe858980352(); ToThe858993459();
    Raise(13107, 0xc1a9_9cf7, 858993459, 0x8401_1278);
  }

  lemma PowerWithout3()
    ensures Power(0x5555_5555) != ONE
  {
    hide Power, Product, Square;
    PowerOfOne();
    ToThe4(); ToThe5();
    Raise(1, 0x4000_0000, 5, 0x0400_0000);
    ToThe20(); ToThe80(); ToThe85();
    Raise(5, 0x0400_0000, 85, 0xf44f_2413);
    ToThe340(); ToThe1360(); ToThe5440(); ToThe21760(); ToThe21845();
    Raise(85, 0xf44f_2413, 21845, 0xeba0_264a);
    ToThe87380(); ToThe349520(); ToThe1398080(); ToThe5592320(); ToThe22369280(); ToThe89477120(); ToThe357908480();
    ToThe1431633920(); ToThe1431655765();
    Raise(21845, 0xeba0_264a, 1431655765, 0xc736_eb52);
  }

  // ----- the order of x

  const ORDER: nat := 0xffff_ffff

  predicate Period(n: nat) { Power(n) == ONE }

  lemma {:induction false} PeriodTimes(n: nat, k: nat)
    requires Period(n)
    ensures Period(n * k)
    decreases k
  {
    hide Shifts;
    if k == 0 {
      PeriodZero();
    } else {
      PeriodTimes(n, k - 1);
      assert n * k == n * (k - 1) + n;
      ShiftsAdd(ONE, n * (k - 1), n);
    }
  }

  lemma PeriodZero()
    ensures Period(0)
  {
  }

  lemma {:induction false} PeriodGcd(a: nat, b: nat)
    requires Period(a) && Period(b)
    ensures Period(Gcd(a, b))
    decreases b
  {
    hide Shifts, Power;
    if b > 0 {
      PeriodRest(a, b);
      PeriodGcd(b, a % b);
    }
  }

  lemma PeriodRest(a: nat, b: nat)
    requires b > 0 && Period(a) && Period(b)
    ensures Period(a % b)
  {
    hide Shifts;
    PeriodTimes(b, a / b);
    assert a == b * (a / b) + a % b;
    ShiftsAdd(ONE, b * (a / b), a % b);
  }

  /** A divisor of the order that is a period and misses a prime factor makes the cofactor a period. */
  lemma Cofactor(g: nat, q: nat, p: nat, m: nat)
    requires p > 0 && g * q == p * m && Divides(p, q) && Period(g)
    ensures Period(m)
  {
    hide Power;
    var k := q / p;
    assert q == p * k;
    assert p * (g * k) == p * m by { Factor(p * k, g, p, k); }
    Cancel(p, g * k, m);
    PeriodTimes(g, k);
  }

  lemma Cancel(p: nat, x: nat, y: nat)
    requires p > 0 && p * x == p * y
    ensures x == y
  {
    assert x > y ==> p * x >= p * y + p;
    assert x < y ==> p * y >= p * x + p;
  }

  lemma NoPrimeDivides(g: nat, q: nat)
    requires g * q == ORDER && Period(g)
    ensures !Divides(3, q) && !Divides(5, q) && !Divides(17, q) && !Divides(257, q) && !Divides(65537, q)
  {
    hide Power;
    PowerOfAll(); PowerWithout257(); PowerWithout17(); PowerWithout5(); PowerWithout3();
    if Divides(3, q) { Cofactor(g, q, 3, 0x5555_5555); }
    if Divides(5, q) { Cofactor(g, q, 5, 0x3333_3333); }
    if Divides(17, q) { Cofactor(g, q, 17, 0x0f0f_0f0f); }
    if Divides(257, q) { Cofactor(g, q, 257, 0x00ff_00ff); }
    if Divides(65537, q) { Cofactor(g, q, 65537, 0xffff); }
  }

  lemma OnlyOneLeft(g: nat, q: nat)
    requires g * q == ORDER && q > 0
    requires !Divides(3, q) && !Divides(5, q) && !Divides(17, q) && !Divides(257, q) && !Divides(65537, q)
    ensures q == 1
  {
    hide Prime;
    FermatPrimes();
    Euclid(q, 3, 0x5555_5555, g);
    Euclid(q, 5, 0x1111_1111, 0x5555_5555 / q);
    Euclid(q, 17, 0x0101_0101, 0x1111_1111 / q);
    Euclid(q, 257, 0x0001_0001, 0x0101_0101 / q);
    Euclid(q, 65537, 1, 0x0001_0001 / q);
    DivisorAtMost(q, 1);
  }

  /** The polynomial is primitive: no power of x before the 4294967295th is 1 again. */
  lemma FullOrder(n: nat)
    requires 0 < n < ORDER
    ensures Power(n) != ONE
  {
    hide Power;
    if Power(n) == ONE {
      PowerOfAll();
      PeriodGcd(n, ORDER);
      var g := Gcd(n, ORDER);
      var _, _ := Bezout(n, ORDER);
      DivisorAtMost(g, n);
      var q := ORDER / g;
      assert g * q == ORDER;
      NoPrimeDivides(g, q);
      OnlyOneLeft(g, q);
      assert false;
    }
  }

  /** The powers of x that are 1 are those of the multiples of the order. */
  lemma PeriodIff(n: nat)
    ensures Power(n) == ONE <==> n % ORDER == 0
  {
    hide Power;
    PowerOfAll();
    if n % ORDER == 0 {
      PeriodTimes(ORDER, n / ORDER);
    } else if Power(n) == ONE {
      PeriodRest(n, ORDER);
      FullOrder(n % ORDER);
      assert false;
    }
  }

  /** A register that holds a single bit comes back to it exactly after the multiples of the order. */
  lemma LowBitReturns(n: nat)
    ensures Shifts(1, n) == 1 <==> n % ORDER == 0
  {
    hide Shifts;
    LastPower();
    ShiftsAdd(ONE, 31, n);
    ShiftsAdd(ONE, n, 31);
    PeriodIff(n);
    if Shifts(1, n) == 1 { ShiftsInjective(Power(n), ONE, 31); }
  }

  lemma LastPower()
    ensures Shifts(ONE, 31) == 1
  {
    hide Shift, Shifts;
    ShiftsEight(ONE); ShiftsEight(0x0080_0000); ShiftsEight(0x0000_8000);
    EightDown();
    ShiftsAdd(ONE, 8, 23); ShiftsAdd(0x0080_0000, 8, 15); ShiftsAdd(0x0000_8000, 8, 7);
    LastSeven();
  }

  lemma EightDown()
    ensures Shift8(0x8000_0000) == 0x0080_0000 && Shift8(0x0080_0000) == 0x0000_8000 && Shift8(0x0000_8000) == 0x80
  {
  }

  lemma LastSeven()
    ensures Shifts(0x80, 7) == 1
  {
  }
}
