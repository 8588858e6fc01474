/** Bytes, machine words and the little-endian layouts that every frame, wire value and flash image uses. */
module Bytes {

  type byte = x: int | 0 <= x < 256
  type u16 = x: int | 0 <= x < 0x1_0000
  type u32 = x: int | 0 <= x < 0x1_0000_0000
  type u64 = x: int | 0 <= x < 0x1_0000_0000_0000_0000
  type i32 = x: int | -0x8000_0000 <= x < 0x8000_0000
  type i64 = x: int | -0x8000_0000_0000_0000 <= x < 0x8000_0000_0000_0000

  const U32_SIZE: nat := 0x1_0000_0000
  const U64_SIZE: nat := 0x1_0000_0000_0000_0000

  /** The two's complement reading of a signed word, `to_le_bytes` on a signed integer. */
  function I32Bits(x: i32): u32 { if x < 0 then x + U32_SIZE else x }

  function I32FromBits(x: u32): i32 { if x < 0x8000_0000 then x else x - U32_SIZE }

  function I64Bits(x: i64): u64 { if x < 0 then x + U64_SIZE else x }

  function I64FromBits(x: u64): i64 { if x < 0x8000_0000_0000_0000 then x else x - U64_SIZE }

  function Pow2(k: nat): nat { if k == 0 then 1 else 2 * Pow2(k - 1) }

  /** Bitwise conjunction of machine words of any width. */
  function BitAnd(x: nat, y: nat): (r: nat)
    ensures r <= x && r <= y
    decreases x, y
  {
    if x == 0 || y == 0 then 0 else (if x % 2 == 1 && y % 2 == 1 then 1 else 0) + 2 * BitAnd(x / 2, y / 2)
  }

  lemma {:induction false} AllOnes(x: nat, k: nat)
    requires x < Pow2(k)
    ensures BitAnd(x, Pow2(k) - 1) == x
    decreases k
  {
    if x > 0 {
      var half := Pow2(k - 1);
      AllOnes(x / 2, k - 1);
      assert (2 * half - 1) / 2 == half - 1 && (2 * half - 1) % 2 == 1;
    }
  }

  function Pow256(k: nat): nat { if k == 0 then 1 else 256 * Pow256(k - 1) }

  lemma WordSizes()
    ensures Pow256(2) == 0x1_0000 && Pow256(4) == U32_SIZE && Pow256(8) == U64_SIZE
  {
    assert Pow256(2) == 0x1_0000;
    assert Pow256(4) == 0x1_0000 * Pow256(2);
    assert Pow256(6) == 0x1_0000 * Pow256(4);
    assert Pow256(8) == 0x1_0000 * Pow256(6);
  }

  /** The `k` least significant bytes of `n`, least significant first. */
  function Le(n: nat, k: nat): (s: seq<byte>)
    ensures |s| == k
    decreases k
  {
    if k == 0 then [] else [n % 256] + Le(n / 256, k - 1)
  }

  function FromLe(s: seq<byte>): nat
  {
    if s == [] then 0 else s[0] + 256 * FromLe(s[1..])
  }

  lemma {:induction false} FromLeBound(s: seq<byte>)
    ensures FromLe(s) < Pow256(|s|)
  {
    if s != [] { FromLeBound(s[1..]); }
  }

  lemma {:induction false} LeRoundTrip(n: nat, k: nat)
    requires n < Pow256(k)
    ensures FromLe(Le(n, k)) == n
    decreases k
  {
    if k > 0 {
      LeRoundTrip(n / 256, k - 1);
      assert Le(n, k)[1..] == Le(n / 256, k - 1);
    }
  }

  lemma {:induction false} LeOfFromLe(s: seq<byte>)
    ensures Le(FromLe(s), |s|) == s
  {
    if s != [] {
      LeOfFromLe(s[1..]);
      assert FromLe(s) % 256 == s[0] && FromLe(s) / 256 == FromLe(s[1..]);
      assert s == [s[0]] + s[1..];
    }
  }

  function LeU16(n: u16): (s: seq<byte>) ensures |s| == 2 { Le(n, 2) }

  function LeU32(n: u32): (s: seq<byte>) ensures |s| == 4 { Le(n, 4) }

  function LeU64(n: u64): (s: seq<byte>) ensures |s| == 8 { Le(n, 8) }

  function ReadU16(s: seq<byte>): u16
    requires |s| == 2
  {
    FromLeBound(s); WordSizes();
    FromLe(s)
  }

  function ReadU32(s: seq<byte>): u32
    requires |s| == 4
  {
    FromLeBound(s); WordSizes();
    FromLe(s)
  }

  function ReadU64(s: seq<byte>): u64
    requires |s| == 8
  {
    FromLeBound(s); WordSizes();
    FromLe(s)
  }

  /** The first byte counts least. */
  lemma LittleEndian32(s: seq<byte>)
    requires |s| == 4
    ensures ReadU32(s) == s[0] + 0x100 * (s[1] as int) + 0x1_0000 * (s[2] as int) + 0x100_0000 * (s[3] as int)
  {
    hide FromLe;
    FromLeFirst(s); FromLeFirst(s[1..]); FromLeFirst(s[2..]); FromLeFirst(s[3..]);
    FromLeNothing(s[4..]);
    assert s[1..][1..] == s[2..] && s[2..][1..] == s[3..] && s[3..][1..] == s[4..];
  }

  lemma FromLeFirst(s: seq<byte>)
    requires s != []
    ensures FromLe(s) == s[0] + 256 * FromLe(s[1..])
  {
  }

  lemma FromLeNothing(s: seq<byte>)
    ensures s == [] ==> FromLe(s) == 0
  {
  }

  lemma LittleEndian64(s: seq<byte>)
    requires |s| == 8
    ensures ReadU64(s) == ReadU32(s[..4]) + U32_SIZE * ReadU32(s[4..])
  {
    hide FromLe;
    FromLeFirst(s); FromLeFirst(s[1..]); FromLeFirst(s[2..]); FromLeFirst(s[3..]);
    assert s[1..][1..] == s[2..] && s[2..][1..] == s[3..] && s[3..][1..] == s[4..];
    LittleEndian32(s[..4]);
  }

  /** Two's complement: a signed word and its bits are the same modulo the number of words. */
  lemma TwosComplement(x: i64, y: i32, z: u64, w: u32)
    ensures (I64Bits(x) - x) % U64_SIZE == 0 && (I64FromBits(z) - z) % U64_SIZE == 0
    ensures (I32Bits(y) - y) % U32_SIZE == 0 && (I32FromBits(w) - w) % U32_SIZE == 0
  {
  }

  /** Writing a word and reading it back, in either order, changes nothing. */
  lemma U16RoundTrip(n: u16)
    ensures ReadU16(LeU16(n)) == n
  {
    WordSizes(); LeRoundTrip(n, 2);
  }

  lemma U32RoundTrip(n: u32)
    ensures ReadU32(LeU32(n)) == n
  {
    WordSizes(); LeRoundTrip(n, 4);
  }

  lemma U64RoundTrip(n: u64)
    ensures ReadU64(LeU64(n)) == n
  {
    WordSizes(); LeRoundTrip(n, 8);
  }

  lemma U32Canonical(s: seq<byte>)
    requires |s| == 4
    ensures LeU32(ReadU32(s)) == s
  {
    LeOfFromLe(s);
  }

  lemma U64Canonical(s: seq<byte>)
    requires |s| == 8
    ensures LeU64(ReadU64(s)) == s
  {
    LeOfFromLe(s);
  }
}
