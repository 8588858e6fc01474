/** The platform allocator: alignments beyond the C library's own, with the raw address hidden before the block. */
module Allocator {
  import opened Bytes
  import opened Results
  import opened Divisors

  /** `sizeof(void *)` on the 32-bit targets. */
  const WORD: nat := 4
  const SIZE_MAX: u32 := 0xffff_ffff

  // ----- arithmetic of machine words

  function Complement(x: u32): u32 { SIZE_MAX - x }

  function Wrap(x: nat): u32 { x % U32_SIZE }

  predicate PowerOfTwo(n: nat)
    decreases n
  {
    n == 1 || (n > 1 && n % 2 == 0 && PowerOfTwo(n / 2))
  }

  lemma NotPowerZero()
    ensures !PowerOfTwo(0)
  {
  }

  lemma {:induction false} BitAndSelf(x: nat)
    ensures BitAnd(x, x) == x
  {
    if x > 0 { BitAndSelf(x / 2); }
  }

  /** The check of the source singles out the powers of two. */
  lemma {:induction false} PowerOfTwoCheck(n: nat)
    requires n > 0
    ensures BitAnd(n, n - 1) == 0 <==> PowerOfTwo(n)
    decreases n
  {
    if n % 2 == 0 {
      PowerOfTwoCheck(n / 2);
      assert (n - 1) / 2 == n / 2 - 1;
    } else if n > 1 {
      assert (n - 1) / 2 == n / 2;
      BitAndSelf(n / 2);
    }
  }

  lemma HalfModulo(x: nat, b: nat)
    requires b > 0
    ensures x % (2 * b) == 2 * ((x / 2) % b) + x % 2
  {
    var q, r := (x / 2) / b, (x / 2) % b;
    assert x / 2 == q * b + r;
    assert x == q * (2 * b) + (2 * r + x % 2);
    Remainder(x, 2 * b, q, 2 * r + x % 2);
  }

  /** Masking with the complement of `a - 1` rounds down to a multiple of `a`. */
  lemma {:induction false} MaskRoundsDown(x: nat, a: nat, k: nat)
    requires PowerOfTwo(a) && x < Pow2(k) && a <= Pow2(k)
    ensures BitAnd(x, Pow2(k) - 1 - (a - 1)) == x - x % a
    decreases k
  {
    if a == 1 {
      AllOnes(x, k);
    } else {
      var b, y := a / 2, Pow2(k) - 1 - (a - 1);
      MaskRoundsDown(x / 2, b, k - 1);
      HalfModulo(x, b);
      assert y == 2 * (Pow2(k - 1) - 1 - (b - 1));
    }
  }

  lemma {:induction false} PowersDivide(a: nat, b: nat)
    requires PowerOfTwo(a) && PowerOfTwo(b) && a <= b
    ensures b % a == 0
    decreases a
  {
    if a > 1 {
      PowersDivide(a / 2, b / 2);
      HalfModulo(b, a / 2);
    }
  }

  lemma MultipleOfMultiple(x: nat, b: nat, a: nat)
    requires a > 0 && b > 0 && x % b == 0 && b % a == 0
    ensures x % a == 0
  {
    assert x == (x / b) * b && b == (b / a) * a;
    assert x == ((x / b) * (b / a)) * a;
    Remainder(x, a, (x / b) * (b / a), 0);
  }

  lemma WordPower()
    ensures Pow2(32) == U32_SIZE
  {
    assert Pow2(8) == 256;
    assert Pow2(16) == 256 * Pow2(8);
    assert Pow2(24) == 256 * Pow2(16);
    assert Pow2(32) == 256 * Pow2(24);
  }

  /** The rounding of the source: the least multiple of `align` at or after `start`, when nothing wraps. */
  lemma AlignedUp(start: nat, align: u32)
    requires PowerOfTwo(align) && start + align - 1 < U32_SIZE
    ensures var aligned := BitAnd(Wrap(start + align - 1), Complement(align - 1));
            aligned % align == 0 && start <= aligned < start + align
  {
    hide BitAnd, PowerOfTwo, Pow2;
    var x := start + align - 1;
    NotPowerZero();
    WordPower();
    SmallStays(x);
    MaskRoundsDown(x, align, 32);
    MultipleBelow(x, align);
  }

  lemma SmallStays(x: nat)
    ensures x < U32_SIZE ==> Wrap(x) == x
  {
  }

  lemma MultipleBelow(x: nat, a: nat)
    requires a > 0
    ensures (x - x % a) % a == 0 && x - a < x - x % a <= x
  {
    assert x - x % a == (x / a) * a;
    Remainder(x - x % a, a, x / a, 0);
  }

  // ----- who owns what

  /** A live block of the C library: its length, the pointer handed out for it and what was asked for. */
  datatype Entry = Entry(length: nat, pointer: nat, size: nat, align: nat) {
    /** From the hidden slot, where there is one, to the end of the user's block. */
    function Begin(maxAlign: nat): int { if align <= maxAlign then pointer else pointer - WORD }
    function End(): nat { pointer + size }
  }

  /** Live blocks by raw address. */
  type Blocks = map<nat, Entry>

  predicate Apart(a: nat, m: nat, b: nat, n: nat) { a + m <= b || b + n <= a }

  /** What the C library promises of a new block. */
  predicate CanPlace(live: Blocks, raw: nat, length: nat, maxAlign: nat, limit: nat)
    requires maxAlign > 0
  {
    0 < raw && raw % maxAlign == 0 && raw + length <= limit && raw !in live &&
    forall other :: other in live ==> Apart(raw, length, other, live[other].length)
  }

  /** A pointer is aligned, and its block and hidden slot lie inside the raw block. */
  predicate Placed(raw: nat, e: Entry, maxAlign: nat, limit: nat)
  {
    0 < raw && raw + e.length <= limit && PowerOfTwo(e.align) && e.pointer % e.align == 0 && e.size > 0 &&
    raw <= e.Begin(maxAlign) && e.End() <= raw + e.length && (e.align <= maxAlign ==> e.pointer == raw)
  }

  predicate Consistent(live: Blocks, maxAlign: nat, limit: nat)
  {
    (forall raw :: raw in live ==> Placed(raw, live[raw], maxAlign, limit)) &&
    (forall a, b :: a in live && b in live && a != b ==> Apart(a, live[a].length, b, live[b].length))
  }

  /** Blocks and hidden slots of different pointers share no byte. */
  lemma PointersApart(live: Blocks, maxAlign: nat, limit: nat, a: nat, b: nat)
    requires Consistent(live, maxAlign, limit) && a in live && b in live && a != b
    ensures live[a].End() <= live[b].Begin(maxAlign) || live[b].End() <= live[a].Begin(maxAlign)
    ensures live[a].pointer != live[b].pointer
  {
    hide PowerOfTwo;
    assert Placed(a, live[a], maxAlign, limit) && Placed(b, live[b], maxAlign, limit);
    assert Apart(a, live[a].length, b, live[b].length);
  }

  /** What is aligned for the C library is aligned for every smaller power of two. */
  lemma SmallAlignment(raw: nat, align: nat, maxAlign: nat)
    requires PowerOfTwo(align) && PowerOfTwo(maxAlign) && align <= maxAlign && raw % maxAlign == 0
    ensures raw % align == 0
  {
    PowersDivide(align, maxAlign);
    MultipleOfMultiple(raw, maxAlign, align);
  }

  lemma AddConsistent(live: Blocks, raw: nat, e: Entry, maxAlign: nat, limit: nat)
    requires maxAlign > 0 && Consistent(live, maxAlign, limit)
    requires CanPlace(live, raw, e.length, maxAlign, limit) && Placed(raw, e, maxAlign, limit)
    ensures Consistent(live[raw := e], maxAlign, limit)
  {
    hide Placed;
  }

  lemma RemoveConsistent(live: Blocks, raw: nat, maxAlign: nat, limit: nat)
    requires Consistent(live, maxAlign, limit)
    ensures Consistent(live - {raw}, maxAlign, limit)
  {
    hide Placed, Apart;
  }

  // ----- memory

  function WordAt(memory: seq<byte>, at: nat): u32
    requires at + WORD <= |memory|
  {
    ReadU32(memory[at..at + WORD])
  }

  /** The hidden slot holds the raw address. */
  predicate SlotHolds(raw: nat, e: Entry, memory: seq<byte>)
  {
    WORD <= e.pointer <= |memory| && WordAt(memory, e.pointer - WORD) == raw
  }

  predicate SlotsHold(live: Blocks, memory: seq<byte>, maxAlign: nat)
  {
    forall raw :: raw in live && live[raw].align > maxAlign ==> SlotHolds(raw, live[raw], memory)
  }

  /** The same bytes from the hidden slot to the end of the user's block. */
  predicate SameBytes(e: Entry, memory: seq<byte>, memory': seq<byte>, maxAlign: nat)
  {
    |memory| == |memory'| && 0 <= e.Begin(maxAlign) && e.End() <= |memory| &&
    memory[e.Begin(maxAlign)..e.End()] == memory'[e.Begin(maxAlign)..e.End()]
  }

  lemma SlotSurvives(raw: nat, e: Entry, memory: seq<byte>, memory': seq<byte>, maxAlign: nat)
    requires e.align > maxAlign && SlotHolds(raw, e, memory) && |memory| == |memory'|
    requires memory[e.pointer - WORD..e.pointer] == memory'[e.pointer - WORD..e.pointer]
    ensures SlotHolds(raw, e, memory')
  {
  }

  /** A change confined to bytes between the slot and the end of one pointer leaves all bytes of the others alone. */
  lemma OthersKeep(live: Blocks, memory: seq<byte>, memory': seq<byte>, maxAlign: nat, raw: nat, other: nat)
    requires |memory| == |memory'| && Consistent(live, maxAlign, |memory|)
    requires raw in live && other in live && raw != other
    requires forall i :: 0 <= i < |memory| && !(live[raw].Begin(maxAlign) <= i < live[raw].End()) ==>
               memory'[i] == memory[i]
    ensures SameBytes(live[other], memory, memory', maxAlign)
    ensures live[other].align > maxAlign && SlotHolds(other, live[other], memory) ==>
              SlotHolds(other, live[other], memory')
  {
    hide PowerOfTwo, WordAt;
    PointersApart(live, maxAlign, |memory|, raw, other);
    var e := live[other];
    assert Placed(other, e, maxAlign, |memory|);
    assert memory[e.Begin(maxAlign)..e.End()] == memory'[e.Begin(maxAlign)..e.End()];
    if e.align > maxAlign && SlotHolds(other, e, memory) {
      assert memory[e.pointer - WORD..e.pointer] == memory'[e.pointer - WORD..e.pointer];
      SlotSurvives(other, e, memory, memory', maxAlign);
    }
  }

  lemma NewSlotHolds(live: Blocks, raw: nat, e: Entry, memory: seq<byte>, memory': seq<byte>, maxAlign: nat)
    requires raw !in live && Consistent(live[raw := e], maxAlign, |memory|) && SlotsHold(live, memory, maxAlign)
    requires Consistent(live, maxAlign, |memory|)
    requires |memory| == |memory'|
    requires forall i :: 0 <= i < |memory| && !(e.Begin(maxAlign) <= i < e.pointer) ==> memory'[i] == memory[i]
    requires e.align > maxAlign ==> SlotHolds(raw, e, memory')
    ensures SlotsHold(live[raw := e], memory', maxAlign)
    ensures forall other :: other in live ==> SameBytes(live[other], memory, memory', maxAlign)
  {
    hide Consistent, SameBytes, SlotHolds;
    var live' := live[raw := e];
    forall other | other in live
      ensures SameBytes(live[other], memory, memory', maxAlign)
      ensures live[other].align > maxAlign ==> SlotHolds(other, live[other], memory')
    {
      OthersKeep(live', memory, memory', maxAlign, raw, other);
    }
  }

  /** What the C library was asked for, and the address it answered; zero for a failure. */
  datatype Request = Request(length: nat, answer: nat)

  /** When the C library is asked at all: for something, at a power of two, if the sum fits a word. */
  predicate Askable(size: u32, align: u32, maxAlign: nat)
  {
    size > 0 && PowerOfTwo(align) && (align <= maxAlign || size + align + WORD <= SIZE_MAX)
  }

  /** The C library is asked once, for the block or for room to align it, and its failure is the only other null. */
  predicate AskedFor(size: u32, align: u32, maxAlign: nat, asked: Option<Request>, pointer: nat)
  {
    (asked.Some? <==> Askable(size, align, maxAlign)) &&
    (asked.Some? ==> asked.value.length == if align <= maxAlign then size else size + (align - 1) + WORD) &&
    (pointer != 0 <==> asked.Some? && asked.value.answer != 0)
  }

  /** What a program keeps of an allocation, and what it can do. */
  datatype Handle = Handle(pointer: nat, size: nat, align: u32)

  datatype Operation =
    | Allocate(size: u32, align: u32)
    | Release(k: nat)
    | Store(k: nat, i: nat, value: byte)

  /** The handles a program still holds are exactly the live blocks, each with its own. */
  predicate Held(live: Blocks, handles: seq<Handle>, raws: seq<nat>)
  {
    |handles| == |raws| &&
    (forall k :: 0 <= k < |raws| ==>
      raws[k] in live && live[raws[k]].pointer == handles[k].pointer && handles[k].pointer != 0 &&
      live[raws[k]].size == handles[k].size && live[raws[k]].align == handles[k].align) &&
    (forall j, k :: 0 <= j < k < |raws| ==> raws[j] != raws[k]) &&
    (forall raw :: raw in live ==> raw in raws)
  }

  lemma HoldOne(live: Blocks, handles: seq<Handle>, raws: seq<nat>, raw: nat, e: Entry, h: Handle)
    requires Held(live, handles, raws) && raw !in live
    requires e.pointer == h.pointer != 0 && e.size == h.size && e.align == h.align
    ensures Held(live[raw := e], handles + [h], raws + [raw])
  {
  }

  lemma DropKeepsBlocks(live: Blocks, raws: seq<nat>, k: nat)
    requires k < |raws| && forall raw :: raw in live ==> raw in raws
    ensures forall raw :: raw in live - {raws[k]} ==> raw in raws[..k] + raws[k + 1..]
  {
    var left := raws[..k] + raws[k + 1..];
    forall raw | raw in live - {raws[k]} ensures raw in left {
      var j :| 0 <= j < |raws| && raws[j] == raw;
      assert left[if j < k then j else j - 1] == raw;
    }
  }

  lemma DropOne(live: Blocks, handles: seq<Handle>, raws: seq<nat>, k: nat)
    requires Held(live, handles, raws) && k < |raws|
    ensures Held(live - {raws[k]}, handles[..k] + handles[k + 1..], raws[..k] + raws[k + 1..])
  {
    DropKeepsBlocks(live, raws, k);
  }

  class Heap {
    /** The address space, by byte; address zero is the null pointer. */
    const memory: array<byte>
    /** `alignof(std::max_align_t)`. */
    const maxAlign: nat
    /** The books of the C library, with the pointer each block stands behind. */
    var live: Blocks

    ghost predicate Valid()
      reads this, memory
    {
      0 < memory.Length <= U32_SIZE && PowerOfTwo(maxAlign) &&
      Consistent(live, maxAlign, memory.Length) && SlotsHold(live, memory[..], maxAlign)
    }

    constructor (memory: array<byte>, maxAlign: nat)
      requires 0 < memory.Length <= U32_SIZE && PowerOfTwo(maxAlign)
      ensures this.memory == memory && this.maxAlign == maxAlign && live == map[] && Valid()
    {
      this.memory, this.maxAlign, live := memory, maxAlign, map[];
    }

    /** The C library: may fail, and chooses the place of a block itself. */
    method Malloc(length: nat) returns (raw: nat)
      requires memory.Length > 0 && maxAlign > 0
      ensures raw == 0 || CanPlace(live, raw, length, maxAlign, memory.Length)
    {
      raw :| 0 <= raw < memory.Length && (raw == 0 || CanPlace(live, raw, length, maxAlign, memory.Length));
    }

    /** The C library takes back only what it gave. */
    method Free(raw: nat)
      requires raw in live
      modifies `live
      ensures live == old(live) - {raw}
    {
      live := live - {raw};
    }

    method StoreWord(at: nat, word: u32)
      requires at + WORD <= memory.Length
      modifies memory
      ensures WordAt(memory[..], at) == word
      ensures forall i :: 0 <= i < memory.Length && !(at <= i < at + WORD) ==> memory[i] == old(memory[i])
    {
      var bytes := LeU32(word);
      forall i | 0 <= i < WORD { memory[at + i] := bytes[i]; }
      assert memory[..][at..at + WORD] == bytes;
      U32RoundTrip(word);
    }

    /** What an allocation leaves behind: nothing, or one more block with its pointer, and nobody's bytes touched. */
    twostate predicate Allocated(size: u32, align: u32, pointer: nat, raw: nat)
      reads this, memory
    {
      Valid() &&
      (pointer == 0 ==> live == old(live) && memory[..] == old(memory[..])) &&
      (pointer != 0 ==>
        var length := if align <= maxAlign then size else size + align - 1 + WORD;
        raw !in old(live) && live == old(live)[raw := Entry(length, pointer, size, align)]) &&
      forall other :: other in old(live) ==> SameBytes(old(live)[other], old(memory[..]), memory[..], maxAlign)
    }

    /** `rustscript_platform_alloc`; zero is the null pointer, `raw` the address the C library gave. */
    method Alloc(size: u32, align: u32) returns (pointer: nat, ghost raw: nat, ghost asked: Option<Request>)
      requires Valid()
      modifies `live, memory
      ensures Allocated(size, align, pointer, raw)
      ensures AskedFor(size, align, maxAlign, asked, pointer)
      ensures pointer != 0 ==> raw == asked.value.answer
    {
      hide PowerOfTwo, Consistent, SlotsHold, BitAnd;
      ghost var before := memory[..];
      AllSame(live, before, maxAlign);
      pointer, raw, asked := 0, 0, None;
      NotPowerZero();
      if align != 0 { PowerOfTwoCheck(align); }
      if size == 0 || align == 0 || BitAnd(align, align - 1) != 0 { return; }
      if align <= maxAlign {
        var block := Malloc(size);
        asked := Some(Request(size, block));
        if block == 0 { return; }
        AddSmall(live, block, size, align, maxAlign, before);
        live := live[block := Entry(size, block, size, align)];
        return block, block, asked;
      }
      pointer, raw, asked := AllocOverAligned(size, align);
    }

    /** A larger block, the next multiple of the alignment behind room for the hidden slot, and the slot written. */
    method AllocOverAligned(size: u32, align: u32)
      returns (pointer: nat, ghost raw: nat, ghost asked: Option<Request>)
      requires Valid() && size > 0 && PowerOfTwo(align) && align > maxAlign
      modifies `live, memory
      ensures Allocated(size, align, pointer, raw)
      ensures AskedFor(size, align, maxAlign, asked, pointer)
      ensures pointer != 0 ==> raw == asked.value.answer
    {
      hide PowerOfTwo, Consistent, SlotsHold, SameBytes, BitAnd;
      AllSame(live, memory[..], maxAlign);
      pointer, raw, asked := 0, 0, None;
      NotPowerZero();
      if size > SIZE_MAX - align - WORD { return; }
      var length := Wrap(size + align - 1 + WORD);
      var block := Malloc(length);
      asked := Some(Request(length, block));
      if block == 0 { return; }
      var start := Wrap(block + WORD);
      var aligned := BitAnd(Wrap(start + align - 1), Complement(align - 1));
      AlignedInBlock(live, block, size, align, maxAlign, memory.Length);
      Hide(block, Entry(length, aligned, size, align));
      pointer, raw := aligned, block;
    }

    /** Writes the raw address into the hidden slot of a new block. */
    method Hide(raw: nat, e: Entry)
      requires Valid() && raw !in live && Consistent(live[raw := e], maxAlign, memory.Length)
      requires e.align > maxAlign && WORD <= e.pointer <= memory.Length && raw < U32_SIZE
      modifies `live, memory
      ensures Valid() && live == old(live)[raw := e]
      ensures forall other :: other in old(live) ==>
                SameBytes(old(live)[other], old(memory[..]), memory[..], maxAlign)
    {
      hide PowerOfTwo, Consistent, SlotsHold, SameBytes;
      ghost var before := memory[..];
      StoreWord(e.pointer - WORD, raw);
      NewSlotHolds(live, raw, e, before, memory[..], maxAlign);
      live := live[raw := e];
    }

    /** `rustscript_platform_dealloc`, for a pointer of `Alloc` and the alignment it was asked for. */
    method Dealloc(pointer: nat, align: u32, ghost raw: nat) returns (freed: nat)
      requires Valid()
      requires pointer != 0 ==> raw in live && live[raw].pointer == pointer && live[raw].align == align
      modifies `live
      ensures Valid()
      ensures pointer == 0 ==> live == old(live)
      ensures pointer != 0 ==> freed == raw && live == old(live) - {raw}
    {
      freed := 0;
      if pointer == 0 { return; }
      ghost var e := live[raw];
      assert Placed(raw, e, maxAlign, memory.Length);
      if align <= maxAlign {
        freed := pointer;
      } else {
        assert SlotHolds(raw, e, memory[..]);
        freed := WordAt(memory[..], pointer - WORD);
      }
      RemoveConsistent(live, raw, maxAlign, memory.Length);
      Free(freed);
    }

    /** The owner of a pointer writes into its block. */
    method UserWrite(pointer: nat, i: nat, value: byte, ghost raw: nat)
      requires Valid() && raw in live && live[raw].pointer == pointer && i < live[raw].size
      requires pointer + i < memory.Length
      modifies memory
      ensures Valid() && memory[pointer + i] == value
      ensures forall other :: other in live && other != raw ==>
                SameBytes(live[other], old(memory[..]), memory[..], maxAlign)
    {
      ghost var before := memory[..];
      memory[pointer + i] := value;
      forall other | other in live && other != raw
        ensures SameBytes(live[other], before, memory[..], maxAlign)
        ensures live[other].align > maxAlign ==> SlotHolds(other, live[other], memory[..])
      {
        OthersKeep(live, before, memory[..], maxAlign, raw, other);
      }
      if live[raw].align > maxAlign {
        assert before[pointer - WORD..pointer] == memory[..][pointer - WORD..pointer];
        SlotSurvives(raw, live[raw], before, memory[..], maxAlign);
      }
    }

    /** Any sequence of allocations, releases and writes; operations on handles not held are skipped. */
    method Run(operations: seq<Operation>) returns (handles: seq<Handle>, ghost raws: seq<nat>)
      requires Valid() && live == map[]
      modifies `live, memory
      ensures Valid() && Held(live, handles, raws)
    {
      hide Consistent, SlotsHold, PowerOfTwo, Held, SameBytes;
      handles, raws := [], [];
      HoldNothing();
      for n := 0 to |operations|
        invariant Valid() && Held(live, handles, raws)
      {
        handles, raws := Perform(operations[n], handles, raws);
      }
    }

    method Perform(operation: Operation, handles: seq<Handle>, ghost raws: seq<nat>)
      returns (handles': seq<Handle>, ghost raws': seq<nat>)
      requires Valid() && Held(live, handles, raws)
      modifies `live, memory
      ensures Valid() && Held(live, handles', raws')
    {
      hide Consistent, SlotsHold, PowerOfTwo, SameBytes;
      handles', raws' := handles, raws;
      match operation
      case Allocate(size, align) =>
        ghost var before := live;
        var pointer, raw, _ := Alloc(size, align);
        if pointer != 0 {
          HoldOne(before, handles, raws, raw, live[raw], Handle(pointer, size, align));
          handles', raws' := handles + [Handle(pointer, size, align)], raws + [raw];
        }
      case Release(k) =>
        if k < |handles| {
          DropOne(live, handles, raws, k);
          var _ := Dealloc(handles[k].pointer, handles[k].align, raws[k]);
          handles', raws' := handles[..k] + handles[k + 1..], raws[..k] + raws[k + 1..];
        }
      case Store(k, i, value) =>
        if k < |handles| && i < handles[k].size {
          PointerInside(live, raws[k], maxAlign, memory.Length);
          UserWrite(handles[k].pointer, i, value, raws[k]);
        }
    }
  }

  lemma HoldNothing()
    ensures Held(map[], [], [])
  {
  }

  lemma PointerInside(live: Blocks, raw: nat, maxAlign: nat, limit: nat)
    requires Consistent(live, maxAlign, limit) && raw in live
    ensures live[raw].pointer % live[raw].align == 0 && raw <= live[raw].Begin(maxAlign) && live[raw].End() <= limit
  {
  }

  lemma AllSame(live: Blocks, memory: seq<byte>, maxAlign: nat)
    requires Consistent(live, maxAlign, |memory|)
    ensures forall other :: other in live ==> SameBytes(live[other], memory, memory, maxAlign)
  {
    hide PowerOfTwo;
  }

  lemma AddSmall(live: Blocks, raw: nat, size: nat, align: nat, maxAlign: nat, memory: seq<byte>)
    requires PowerOfTwo(maxAlign) && PowerOfTwo(align) && align <= maxAlign && size > 0
    requires Consistent(live, maxAlign, |memory|) && CanPlace(live, raw, size, maxAlign, |memory|)
    requires SlotsHold(live, memory, maxAlign)
    ensures var live' := live[raw := Entry(size, raw, size, align)];
            Consistent(live', maxAlign, |memory|) && SlotsHold(live', memory, maxAlign)
  {
    hide Consistent;
    SmallAlignment(raw, align, maxAlign);
    AddConsistent(live, raw, Entry(size, raw, size, align), maxAlign, |memory|);
  }

  /** No sum wraps, and the rounded address with its slot lies inside the block. */
  lemma AlignedInBlock(live: Blocks, raw: nat, size: u32, align: u32, maxAlign: nat, limit: nat)
    requires maxAlign > 0 && Consistent(live, maxAlign, limit) && limit <= U32_SIZE
    requires PowerOfTwo(align) && align > maxAlign && 0 < size <= SIZE_MAX - align - WORD
    requires CanPlace(live, raw, Wrap(size + align - 1 + WORD), maxAlign, limit)
    ensures var length := Wrap(size + align - 1 + WORD);
            var aligned := BitAnd(Wrap(Wrap(raw + WORD) + align - 1), Complement(align - 1));
            length == size + align - 1 + WORD && Wrap(raw + WORD) == raw + WORD &&
            raw + WORD <= aligned < raw + WORD + align && aligned % align == 0 && aligned <= limit &&
            Consistent(live[raw := Entry(length, aligned, size, align)], maxAlign, limit)
  {
    hide Consistent, PowerOfTwo, BitAnd, Wrap, CanPlace;
    SmallStays(size + align - 1 + WORD);
    PlacedBelow(live, raw, size + align - 1 + WORD, maxAlign, limit);
    SmallStays(raw + WORD);
    AlignedUp(raw + WORD, align);
    var aligned := BitAnd(Wrap(raw + WORD + align - 1), Complement(align - 1));
    var e := Entry(size + align - 1 + WORD, aligned, size, align);
    AddLarge(live, raw, e, maxAlign, limit);
  }

  lemma PlacedBelow(live: Blocks, raw: nat, length: nat, maxAlign: nat, limit: nat)
    requires maxAlign > 0 && CanPlace(live, raw, length, maxAlign, limit)
    ensures raw + length <= limit
  {
  }

  lemma AddLarge(live: Blocks, raw: nat, e: Entry, maxAlign: nat, limit: nat)
    requires maxAlign > 0 && Consistent(live, maxAlign, limit) && CanPlace(live, raw, e.length, maxAlign, limit)
    requires PowerOfTwo(e.align) && e.align > maxAlign && e.size > 0 && e.length == e.size + e.align - 1 + WORD
    requires e.pointer % e.align == 0 && raw + WORD <= e.pointer < raw + WORD + e.align
    ensures Consistent(live[raw := e], maxAlign, limit)
  {
    hide Consistent, PowerOfTwo;
    AddConsistent(live, raw, e, maxAlign, limit);
  }
}
