/** A 32-bit linear feedback shift register on bits: division by the CRC-32 polynomial, one message bit at a time. */
module ShiftRegister {

  /** Thirty-two bits, least significant first. */
  type Word = w: seq<bool> | |w| == 32 witness seq(32, _ => false)

  function Zeros(n: nat): (z: seq<bool>)
    ensures |z| == n
  {
    seq(n, _ => false)
  }

  function Xor(a: seq<bool>, b: seq<bool>): (c: seq<bool>)
    requires |a| == |b|
    ensures |c| == |a|
  {
    seq(|a|, i requires 0 <= i < |a| => a[i] != b[i])
  }

  predicate Nonzero(a: seq<bool>) { exists i :: 0 <= i < |a| && a[i] }

  /** 0xedb88320, least significant bit first. */
  const POLYNOMIAL: Word := [
    false, false, false, false, false, true, false, false,
    true, true, false, false, false, false, false, true,
    false, false, false, true, true, true, false, true,
    true, false, true, true, false, true, true, true]

  /** One shift: the outgoing bit decides whether the polynomial is added. */
  function Step(w: Word): Word
  {
    var shifted := w[1..] + [false];
    if w[0] then Xor(shifted, POLYNOMIAL) else shifted
  }

  function Steps(w: Word, n: nat): Word
    decreases n, w
  {
    if n == 0 then w else Steps(Step(w), n - 1)
  }

  /** Adds one message bit to the outgoing end. */
  function FlipLow(w: Word, bit: bool): Word { [w[0] != bit] + w[1..] }

  /** The register after a whole message of bits. */
  function Serial(w: Word, bits: seq<bool>): Word
    decreases |bits|
  {
    if bits == [] then w else Serial(Step(FlipLow(w, bits[0])), bits[1..])
  }

  lemma StepXor(a: Word, b: Word)
    ensures Step(Xor(a, b)) == Xor(Step(a), Step(b))
  {
  }

  /** The polynomial's top bit is set, so no register content is lost. */
  lemma StepNonzero(w: Word)
    requires Nonzero(w)
    ensures Nonzero(Step(w))
  {
    if w[0] {
      assert Step(w)[31];
    } else {
      var i :| 0 <= i < 32 && w[i];
      assert Step(w)[i - 1];
    }
  }

  lemma {:induction false} StepsXor(a: Word, b: Word, n: nat)
    ensures Steps(Xor(a, b), n) == Xor(Steps(a, n), Steps(b, n))
    decreases n
  {
    if n > 0 {
      StepXor(a, b);
      StepsXor(Step(a), Step(b), n - 1);
    }
  }

  lemma {:induction false} StepsNonzero(w: Word, n: nat)
    requires Nonzero(w)
    ensures Nonzero(Steps(w, n))
    decreases n
  {
    if n > 0 {
      StepNonzero(w);
      StepsNonzero(Step(w), n - 1);
    }
  }

  lemma {:induction false} StepsOfHigh(high: seq<bool>, n: nat)
    requires |high| + n == 32
    ensures Steps(Zeros(n) + high, n) == high + Zeros(n)
    decreases n
  {
    if n == 0 {
      assert Zeros(n) + high == high + Zeros(n);
    } else {
      assert Step(Zeros(n) + high) == Zeros(n - 1) + (high + [false]);
      StepsOfHigh(high + [false], n - 1);
      assert high + [false] + Zeros(n - 1) == high + Zeros(n);
    }
  }

  /** The low `n` bits are shifted out; the others only move. */
  lemma StepsOfParts(w: Word, n: nat)
    requires n <= 32
    ensures Xor(Steps(w[..n] + Zeros(32 - n), n), w[n..] + Zeros(n)) == Steps(w, n)
  {
    var low, high := w[..n] + Zeros(32 - n), Zeros(n) + w[n..];
    assert Xor(low, high) == w;
    StepsXor(low, high, n);
    StepsOfHigh(w[n..], n);
  }

  lemma {:induction false} SerialAppend(w: Word, s: seq<bool>, t: seq<bool>)
    ensures Serial(w, s + t) == Serial(Serial(w, s), t)
    decreases |s|
  {
    if s == [] {
      assert s + t == t;
    } else {
      assert (s + t)[1..] == s[1..] + t;
      SerialAppend(Step(FlipLow(w, s[0])), s[1..], t);
    }
  }

  /** Dividing is linear in the register and the message together. */
  lemma {:induction false} SerialXor(v: Word, w: Word, s: seq<bool>, t: seq<bool>)
    requires |s| == |t|
    ensures Serial(Xor(v, w), Xor(s, t)) == Xor(Serial(v, s), Serial(w, t))
    decreases |s|
  {
    if s != [] {
      var a, b := FlipLow(v, s[0]), FlipLow(w, t[0]);
      assert FlipLow(Xor(v, w), s[0] != t[0]) == Xor(a, b);
      StepXor(a, b);
      assert Xor(s, t)[1..] == Xor(s[1..], t[1..]);
      SerialXor(Step(a), Step(b), s[1..], t[1..]);
    }
  }

  function Xor3(a: seq<bool>, b: seq<bool>, c: seq<bool>): (d: seq<bool>)
    requires |a| == |b| == |c|
    ensures |d| == |a|
  {
    Xor(Xor(a, b), c)
  }

  lemma SerialXor3(w: Word, s: seq<bool>, t: seq<bool>, u: seq<bool>)
    requires |s| == |t| == |u|
    ensures Serial(w, Xor3(s, t, u)) == Xor3(Serial(w, s), Serial(w, t), Serial(w, u))
  {
    SerialXor(w, w, s, t);
    SerialXor(Xor(w, w), w, Xor(s, t), u);
    assert Xor3(w, w, w) == w;
  }

  lemma AddFirst(w: Word, bit: bool, rest: seq<bool>)
    requires |rest| == 31
    ensures Xor(w, [bit] + rest) == Xor(FlipLow(w, bit), [false] + rest)
  {
  }

  lemma StepMoves(rest: seq<bool>)
    requires |rest| == 31
    ensures Step([false] + rest) == rest + [false]
  {
  }

  /** Up to 32 message bits can be added at once before shifting. */
  lemma {:induction false} SerialIsSteps(w: Word, bits: seq<bool>)
    requires |bits| <= 32
    ensures Serial(w, bits) == Steps(Xor(w, bits + Zeros(32 - |bits|)), |bits|)
    decreases |bits|
  {
    hide Step;
    var n := |bits|;
    if n == 0 {
      assert Xor(w, bits + Zeros(32)) == w;
    } else {
      var rest := bits[1..] + Zeros(32 - n);
      var all := Xor(w, bits + Zeros(32 - n));
      var flipped := FlipLow(w, bits[0]);
      AddFirst(w, bits[0], rest);
      assert bits + Zeros(32 - n) == [bits[0]] + rest;
      StepXor(flipped, [false] + rest);
      StepMoves(rest);
      assert rest + [false] == bits[1..] + Zeros(33 - n);
      SerialIsSteps(Step(flipped), bits[1..]);
    }
  }

  lemma {:induction false} SerialZeros(w: Word, n: nat)
    ensures Serial(w, Zeros(n)) == Steps(w, n)
    decreases n
  {
    if n > 0 {
      assert FlipLow(w, false) == w;
      assert Zeros(n)[1..] == Zeros(n - 1);
      SerialZeros(Step(w), n - 1);
    }
  }

  lemma {:induction false} StepsZero(n: nat)
    ensures Steps(Zeros(32), n) == Zeros(32)
    decreases n
  {
    if n > 0 {
      assert Step(Zeros(32)) == Zeros(32);
      StepsZero(n - 1);
    }
  }

  lemma ShortRemainder(burst: seq<bool>)
    requires |burst| <= 32 && Nonzero(burst)
    ensures Nonzero(Serial(Zeros(32), burst))
  {
    var padded := burst + Zeros(32 - |burst|);
    SerialIsSteps(Zeros(32), burst);
    assert Xor(Zeros(32), padded) == padded;
    var i :| 0 <= i < |burst| && burst[i];
    assert padded[i];
    StepsNonzero(padded, |burst|);
  }

  lemma BurstParts(error: seq<bool>, from: nat, to: nat)
    requires from <= to <= |error|
    requires Nonzero(error) && forall i :: 0 <= i < |error| && error[i] ==> from <= i < to
    ensures error == Zeros(from) + (error[from..to] + Zeros(|error| - to)) && Nonzero(error[from..to])
  {
    var i :| 0 <= i < |error| && error[i];
    assert error[from..to][i - from];
  }

  /** Every error pattern that fits in 32 consecutive bits leaves a remainder. */
  lemma BurstRemainder(error: seq<bool>, from: nat, to: nat)
    requires from <= to <= |error| && to - from <= 32
    requires Nonzero(error) && forall i :: 0 <= i < |error| && error[i] ==> from <= i < to
    ensures Nonzero(Serial(Zeros(32), error))
  {
    hide Serial, Steps, Nonzero;
    var before, burst, after := Zeros(from), error[from..to], Zeros(|error| - to);
    BurstParts(error, from, to);
    SerialAppend(Zeros(32), before, burst + after);
    SerialZeros(Zeros(32), from);
    StepsZero(from);
    SerialAppend(Zeros(32), burst, after);
    ShortRemainder(burst);
    SerialZeros(Serial(Zeros(32), burst), |error| - to);
    StepsNonzero(Serial(Zeros(32), burst), |error| - to);
  }

  lemma XorDiffers(a: seq<bool>, b: seq<bool>)
    requires |a| == |b|
    ensures Nonzero(Xor(a, b)) <==> a != b
  {
    if a != b {
      var i :| 0 <= i < |a| && a[i] != b[i];
      assert Xor(a, b)[i];
    }
  }

  /** Two different messages of one length, different only inside 32 consecutive bits, leave different remainders. */
  lemma BurstDetected(w: Word, s: seq<bool>, t: seq<bool>, from: nat, to: nat)
    requires |s| == |t| && from <= to <= |s| && to - from <= 32
    requires s != t && forall i :: 0 <= i < |s| && s[i] != t[i] ==> from <= i < to
    ensures Serial(w, s) != Serial(w, t)
  {
    var error := Xor(s, t);
    XorDiffers(s, t);
    assert forall i :: 0 <= i < |error| && error[i] ==> s[i] != t[i];
    BurstRemainder(error, from, to);
    SerialXor(w, w, s, t);
    assert Xor(w, w) == Zeros(32);
    XorDiffers(Serial(w, s), Serial(w, t));
  }

  /** Shifting never merges two register contents. */
  lemma StepsInjective(a: Word, b: Word, n: nat)
    requires Steps(a, n) == Steps(b, n)
    ensures a == b
  {
    hide Steps, Nonzero;
    StepsXor(a, b, n);
    XorDiffers(a, b);
    XorDiffers(Steps(a, n), Steps(b, n));
    if a != b { StepsNonzero(Xor(a, b), n); }
  }

  // ----- two single bits, and the first pattern that escapes

  /** The register that holds only the outgoing bit. */
  const LOW: Word := [true] + Zeros(31)

  /** Two error bits `n` apart, wherever they stand, with what follows them. */
  function TwoBitError(before: nat, n: nat, after: nat): (error: seq<bool>)
    requires n > 0
    ensures |error| == before + n + 1 + after
  {
    Zeros(before) + ([true] + Zeros(n - 1) + ([true] + Zeros(after)))
  }

  lemma SerialBit(w: Word, bit: bool)
    ensures Serial(w, [bit]) == Step(FlipLow(w, bit))
  {
    assert [bit][1..] == [];
  }

  /** The second bit meets the first one `n` shifts later, and cancels it exactly if the register is back at one
      bit. */
  lemma TwoBitRemainder(before: nat, n: nat, after: nat)
    requires n > 0
    ensures Nonzero(Serial(Zeros(32), TwoBitError(before, n, after))) <==> Steps(LOW, n) != LOW
  {
    hide Step, Steps, Serial, Nonzero;
    var rest := [true] + Zeros(after);
    SerialAppend(Zeros(32), Zeros(before), [true] + Zeros(n - 1) + rest);
    SerialZeros(Zeros(32), before); StepsZero(before);
    FirstBit(n);
    SerialAppend(Zeros(32), [true] + Zeros(n - 1), rest);
    var w := Steps(LOW, n);
    SerialAppend(w, [true], Zeros(after));
    SerialBit(w, true);
    FlippedNonzero(w);
    RestOfShifts(FlipLow(w, true), after);
  }

  /** A register is zero after one shift and `after` more exactly if it was before. */
  lemma RestOfShifts(w: Word, after: nat)
    ensures Nonzero(Serial(Step(w), Zeros(after))) <==> Nonzero(w)
  {
    hide Serial, Steps;
    SerialZeros(Step(w), after);
    ShiftsKeep(Step(w), after);
    if Nonzero(w) { StepNonzero(w); } else { assert Step(w) == Zeros(32); }
  }

  lemma FirstBit(n: nat)
    requires n > 0
    ensures Serial(Zeros(32), [true] + Zeros(n - 1)) == Steps(LOW, n)
  {
    hide Step, Serial;
    SerialAppend(Zeros(32), [true], Zeros(n - 1));
    SerialBit(Zeros(32), true);
    assert FlipLow(Zeros(32), true) == LOW;
    SerialZeros(Step(LOW), n - 1);
  }

  lemma FlippedNonzero(w: Word)
    ensures Nonzero(FlipLow(w, true)) <==> w != LOW
  {
    if w == LOW {
      assert FlipLow(w, true) == Zeros(32);
    } else if w[0] {
      var i :| 0 <= i < 32 && w[i] != LOW[i];
      assert FlipLow(w, true)[i];
    } else {
      assert FlipLow(w, true)[0];
    }
  }

  /** A burst of 33 bits, wherever it stands: a first bit and the 32 behind it. */
  function LongBurst(before: nat, rest: Word, after: nat): (error: seq<bool>)
    ensures |error| == before + 33 + after
  {
    Zeros(before) + ([true] + rest + Zeros(after))
  }

  /** The first bit leaves the polynomial in the register, so only the polynomial behind it cancels it. */
  lemma LongBurstRemainder(before: nat, rest: Word, after: nat)
    ensures Nonzero(Serial(Zeros(32), LongBurst(before, rest, after))) <==> rest != POLYNOMIAL
  {
    hide Serial, Steps, Nonzero;
    SerialAppend(Zeros(32), Zeros(before), [true] + rest + Zeros(after));
    SerialZeros(Zeros(32), before); StepsZero(before);
    SerialAppend(Zeros(32), [true] + rest, Zeros(after));
    SerialAppend(Zeros(32), [true], rest);
    SerialBit(Zeros(32), true);
    assert Step(FlipLow(Zeros(32), true)) == POLYNOMIAL;
    SerialIsSteps(POLYNOMIAL, rest);
    assert rest + Zeros(0) == rest;
    XorDiffers(POLYNOMIAL, rest);
    ShiftsKeep(Xor(POLYNOMIAL, rest), 32);
    SerialZeros(Steps(Xor(POLYNOMIAL, rest), 32), after);
    ShiftsKeep(Steps(Xor(POLYNOMIAL, rest), 32), after);
  }

  lemma ShiftsKeep(w: Word, n: nat)
    ensures Nonzero(Steps(w, n)) <==> Nonzero(w)
  {
    hide Steps;
    if Nonzero(w) {
      StepsNonzero(w, n);
    } else {
      assert w == Zeros(32);
      StepsZero(n);
    }
  }

  /** Messages whose difference leaves no remainder end in the same register. */
  lemma SameRegister(w: Word, s: seq<bool>, t: seq<bool>)
    requires |s| == |t|
    ensures Serial(w, s) == Serial(w, t) <==> !Nonzero(Serial(Zeros(32), Xor(s, t)))
  {
    hide Serial, Nonzero;
    SerialXor(w, w, s, t);
    assert Xor(w, w) == Zeros(32);
    XorDiffers(Serial(w, s), Serial(w, t));
  }
}
