/** Well-formed UTF-8 is what sequences of Unicode scalar values are written as. */
module Utf8Text {
  import opened Bytes
  import opened Wire

  /** A code point that is no surrogate. */
  predicate Scalar(c: nat) { c < 0xd800 || 0xe000 <= c < 0x11_0000 }

  /** One scalar value in one to four bytes, six bits in each byte behind the first. */
  function Written(c: nat): (s: seq<byte>)
    requires Scalar(c)
    ensures s != []
  {
    if c < 0x80 then [c]
    else if c < 0x800 then [0xc0 + c / 64, 0x80 + c % 64]
    else if c < 0x1_0000 then [0xe0 + c / 4096, 0x80 + c / 64 % 64, 0x80 + c % 64]
    else [0xf0 + c / 262144, 0x80 + c / 4096 % 64, 0x80 + c / 64 % 64, 0x80 + c % 64]
  }

  predicate AllScalar(cs: seq<nat>) { forall i :: 0 <= i < |cs| ==> Scalar(cs[i]) }

  function WrittenAll(cs: seq<nat>): seq<byte>
    requires AllScalar(cs)
  {
    if cs == [] then [] else Written(cs[0]) + WrittenAll(cs[1..])
  }

  lemma WrittenIsValid(c: nat, rest: seq<byte>)
    requires Scalar(c) && ValidUtf8(rest)
    ensures ValidUtf8(Written(c) + rest)
  {
    var s := Written(c) + rest;
    assert s[|Written(c)|..] == rest;
  }

  lemma {:induction false} WrittenAllIsValid(cs: seq<nat>)
    requires AllScalar(cs)
    ensures ValidUtf8(WrittenAll(cs))
  {
    hide Written, ValidUtf8;
    if cs == [] {
      NothingIsValid();
    } else {
      WrittenAllIsValid(cs[1..]);
      WrittenIsValid(cs[0], WrittenAll(cs[1..]));
    }
  }

  lemma NothingIsValid()
    ensures ValidUtf8([])
  {
  }

  lemma ReadTwo(s: seq<byte>) returns (c: nat)
    requires |s| >= 2 && 0xc2 <= s[0] <= 0xdf && IsTail(s[1])
    ensures Scalar(c) && Written(c) == s[..2]
  {
    var a: nat, b: nat := s[0] - 0xc0, s[1] - 0x80;
    c := a * 64 + b;
  }

  lemma ReadThree(s: seq<byte>) returns (c: nat)
    requires |s| >= 3 && 0xe0 <= s[0] <= 0xef && IsTail(s[1]) && IsTail(s[2])
    requires (s[0] == 0xe0 ==> 0xa0 <= s[1]) && (s[0] == 0xed ==> s[1] <= 0x9f)
    ensures Scalar(c) && Written(c) == s[..3]
  {
    var a: nat, b: nat, low: nat := s[0] - 0xe0, s[1] - 0x80, s[2] - 0x80;
    var high := a * 64 + b;
    c := high * 64 + low;
    assert c / 64 == high && c % 64 == low;
    assert c / 4096 == high / 64;
  }

  lemma ReadFour(s: seq<byte>) returns (c: nat)
    requires |s| >= 4 && 0xf0 <= s[0] <= 0xf4 && IsTail(s[1]) && IsTail(s[2]) && IsTail(s[3])
    requires (s[0] == 0xf0 ==> 0x90 <= s[1]) && (s[0] == 0xf4 ==> s[1] <= 0x8f)
    ensures Scalar(c) && Written(c) == s[..4]
  {
    var a: nat, b: nat, d: nat, low: nat := s[0] - 0xf0, s[1] - 0x80, s[2] - 0x80, s[3] - 0x80;
    var top := a * 64 + b;
    var high := top * 64 + d;
    c := high * 64 + low;
    assert c / 64 == high && c % 64 == low;
    assert c / 4096 == high / 64 == top;
    assert c / 262144 == top / 64;
  }

  /** The first scalar value of well-formed bytes. */
  lemma ReadFirst(s: seq<byte>) returns (c: nat)
    requires ValidUtf8(s) && s != []
    ensures Scalar(c) && Written(c) <= s && ValidUtf8(s[|Written(c)|..])
  {
    if s[0] < 0x80 {
      c := s[0];
      assert Written(c) == s[..1];
    } else if s[0] <= 0xdf {
      c := ReadTwo(s);
    } else if s[0] <= 0xef {
      c := ReadThree(s);
    } else {
      c := ReadFour(s);
    }
  }

  lemma {:induction false} ReadAll(s: seq<byte>) returns (cs: seq<nat>)
    requires ValidUtf8(s)
    ensures AllScalar(cs) && WrittenAll(cs) == s
    decreases |s|
  {
    hide ValidUtf8, Written;
    if s == [] { return []; }
    var c := ReadFirst(s);
    var later := ReadAll(s[|Written(c)|..]);
    cs := [c] + later;
    assert cs[1..] == later;
  }

  /** Exactly the sequences of scalar values. */
  lemma ValidIffWritten(s: seq<byte>)
    ensures ValidUtf8(s) <==> exists cs :: AllScalar(cs) && WrittenAll(cs) == s
  {
    hide ValidUtf8, WrittenAll;
    if ValidUtf8(s) { var _ := ReadAll(s); }
    if exists cs :: AllScalar(cs) && WrittenAll(cs) == s {
      var cs :| AllScalar(cs) && WrittenAll(cs) == s;
      WrittenAllIsValid(cs);
    }
  }
}
