/** The linear pass over program bytes that finds the locals a snippet moves out of. */
module MoveScanner {
  import opened Bytes
  import opened Results
  import opened Names
  import opened Embedded

  /** The four opcodes the pass looks for, the operand lengths of all others, and one builtin's call index. */
  datatype Isa = Isa(ldloc: byte, stloc: byte, ldc: byte, call: byte,
                     otherOperands: byte -> Option<nat>, detachLocal: u16) {
    predicate Valid()
    {
      ldloc != stloc && ldloc != ldc && ldloc != call && stloc != ldc && stloc != call && ldc != call
    }

    /** `None` for bytes that are no opcode. */
    function OperandLen(opcode: byte): Option<nat>
    {
      if opcode == ldloc || opcode == stloc then Some(1)
      else if opcode == ldc then Some(4)
      else if opcode == call then Some(3)
      else otherOperands(opcode)
    }
  }

  datatype Code = Code(bytes: seq<byte>, constants: seq<Value>)

  // ----- the instruction list

  datatype Instr =
    | Load(slot: byte)
    | Store(slot: byte)
    | Const(index: u32)
    | Call(builtin: u16, argc: byte)
    | Other(opcode: byte)
    /** The bytes end before its operands do. */
    | Cut(opcode: byte)

  /** The instruction at an offset; `None` at the end and at a byte that is no opcode. */
  function InstrAt(isa: Isa, b: seq<byte>, ip: nat): Option<Instr>
  {
    if ip >= |b| || isa.OperandLen(b[ip]).None? then None
    else if ip + 1 + isa.OperandLen(b[ip]).value > |b| then Some(Cut(b[ip]))
    else if b[ip] == isa.ldloc then Some(Load(b[ip + 1]))
    else if b[ip] == isa.stloc then Some(Store(b[ip + 1]))
    else if b[ip] == isa.ldc then Some(Const(ReadU32(b[ip + 1..ip + 5])))
    else if b[ip] == isa.call then Some(Call(ReadU16(b[ip + 1..ip + 3]), b[ip + 3]))
    else Some(Other(b[ip]))
  }

  function Next(isa: Isa, b: seq<byte>, ip: nat): (next: nat)
    requires InstrAt(isa, b, ip).Some?
    ensures next > ip
  {
    ip + 1 + isa.OperandLen(b[ip]).value
  }

  /** Decoding from an offset to the end or to the first byte that is no opcode. */
  function Instructions(isa: Isa, b: seq<byte>, ip: nat): (p: seq<Instr>)
    decreases if ip <= |b| then |b| - ip else 0
  {
    if InstrAt(isa, b, ip).None? then []
    else [InstrAt(isa, b, ip).value] + Instructions(isa, b, Next(isa, b, ip))
  }

  /** Where the `k`-th instruction from `ip` starts. */
  function Boundary(isa: Isa, b: seq<byte>, ip: nat, k: nat): (at: nat)
    requires k <= |Instructions(isa, b, ip)|
    ensures at >= ip + k
    decreases k, ip
  {
    if k == 0 then ip else Boundary(isa, b, Next(isa, b, ip), k - 1)
  }

  lemma {:induction false} Decoded(isa: Isa, b: seq<byte>, ip: nat, k: nat)
    requires k <= |Instructions(isa, b, ip)|
    ensures Instructions(isa, b, Boundary(isa, b, ip, k)) == Instructions(isa, b, ip)[k..]
    decreases k
  {
    if k > 0 {
      Decoded(isa, b, Next(isa, b, ip), k - 1);
    }
  }

  lemma {:induction false} BoundaryStep(isa: Isa, b: seq<byte>, ip: nat, k: nat)
    requires k < |Instructions(isa, b, ip)|
    ensures var at := Boundary(isa, b, ip, k);
            InstrAt(isa, b, at) == Some(Instructions(isa, b, ip)[k]) &&
            Boundary(isa, b, ip, k + 1) == Next(isa, b, at)
    decreases k
  {
    if k > 0 {
      BoundaryStep(isa, b, Next(isa, b, ip), k - 1);
    }
  }

  lemma {:induction false} BoundariesAscend(isa: Isa, b: seq<byte>, ip: nat, j: nat, k: nat)
    requires j < k <= |Instructions(isa, b, ip)|
    ensures Boundary(isa, b, ip, j) < Boundary(isa, b, ip, k)
    decreases k
  {
    BoundaryStep(isa, b, ip, k - 1);
    if j < k - 1 { BoundariesAscend(isa, b, ip, j, k - 1); }
  }

  // ----- what the pass looks for, over the instruction list

  predicate StoresTo(p: seq<Instr>, k: int, slot: byte) { 0 <= k < |p| && p[k] == Store(slot) }

  predicate LoadsConstant(p: seq<Instr>, constants: seq<Value>, k: int, value: Value)
  {
    0 <= k < |p| && p[k].Const? && p[k].index < |constants| && constants[p[k].index] == value
  }

  /** Load, null, store back: the local is emptied. */
  predicate NullStore(p: seq<Instr>, constants: seq<Value>, k: int, slot: byte)
  {
    0 <= k < |p| && p[k] == Load(slot) && LoadsConstant(p, constants, k + 1, VNull) && StoresTo(p, k + 2, slot)
  }

  /** Load, own slot number, call of the detaching builtin with one argument. */
  predicate Detach(isa: Isa, p: seq<Instr>, constants: seq<Value>, k: int, slot: byte)
  {
    0 <= k < |p| && p[k] == Load(slot) && LoadsConstant(p, constants, k + 1, VInt(slot)) &&
    k + 2 < |p| && p[k + 2] == Call(isa.detachLocal, 1)
  }

  predicate Rebinding(p: seq<Instr>, k: int, slot: byte)
  {
    0 <= k && k + 1 < |p| && p[k] == Load(slot) && p[k + 1].Store? && p[k + 1].slot != slot
  }

  predicate MovesOut(isa: Isa, p: seq<Instr>, constants: seq<Value>, k: int, slot: byte)
  {
    Rebinding(p, k, slot) || NullStore(p, constants, k, slot) || Detach(isa, p, constants, k, slot)
  }

  /** A store that gives the local a value again; the store of a null-store pattern does not. */
  predicate Refills(p: seq<Instr>, constants: seq<Value>, k: int, slot: byte)
  {
    StoresTo(p, k, slot) && !NullStore(p, constants, k - 2, slot)
  }

  /** The last event: some move out of the slot among the first `n` instructions, and no refilling store after it. */
  ghost predicate Moved(isa: Isa, p: seq<Instr>, constants: seq<Value>, n: nat, slot: byte)
  {
    exists k :: 0 <= k < n && MovesOut(isa, p, constants, k, slot) && NotRefilled(p, constants, k, n, slot)
  }

  predicate NotRefilled(p: seq<Instr>, constants: seq<Value>, k: nat, n: nat, slot: byte)
  {
    forall j :: k < j < n ==> !Refills(p, constants, j, slot)
  }

  lemma MovedStep(isa: Isa, p: seq<Instr>, constants: seq<Value>, n: nat, slot: byte)
    requires n < |p|
    ensures Moved(isa, p, constants, n + 1, slot)
       <==> MovesOut(isa, p, constants, n, slot) ||
            (Moved(isa, p, constants, n, slot) && !Refills(p, constants, n, slot))
  {
    hide MovesOut, Refills;
    if MovesOut(isa, p, constants, n, slot) { assert NotRefilled(p, constants, n, n + 1, slot); }
    if Moved(isa, p, constants, n + 1, slot) {
      var k :| 0 <= k < n + 1 && MovesOut(isa, p, constants, k, slot) && NotRefilled(p, constants, k, n + 1, slot);
      assert NotRefilled(p, constants, k, n, slot);
    }
    if Moved(isa, p, constants, n, slot) && !Refills(p, constants, n, slot) {
      var k :| 0 <= k < n && MovesOut(isa, p, constants, k, slot) && NotRefilled(p, constants, k, n, slot);
      assert NotRefilled(p, constants, k, n + 1, slot);
    }
  }

  // ----- the same patterns, looked up at byte offsets

  function Get(b: seq<byte>, i: nat): Option<byte> { if i < |b| then Some(b[i]) else None }

  /** The target slot, when a complete store stands at the offset. */
  function StoreAt(isa: Isa, b: seq<byte>, at: nat): Option<byte>
  {
    if Get(b, at) == Some(isa.stloc) then Get(b, at + 1) else None
  }

  function ConstantAt(isa: Isa, code: Code, at: nat): Option<Value>
  {
    if Get(code.bytes, at) == Some(isa.ldc) && at + 5 <= |code.bytes| then
      var index := ReadU32(code.bytes[at + 1..at + 5]);
      if index < |code.constants| then Some(code.constants[index]) else None
    else None
  }

  predicate NullStoreAt(isa: Isa, code: Code, ip: nat, source: byte)
  {
    ConstantAt(isa, code, ip + 2) == Some(VNull) &&
    Get(code.bytes, ip + 7) == Some(isa.stloc) && Get(code.bytes, ip + 8) == Some(source)
  }

  predicate DetachAt(isa: Isa, code: Code, ip: nat, source: byte)
  {
    ConstantAt(isa, code, ip + 2) == Some(VInt(source)) && Get(code.bytes, ip + 7) == Some(isa.call) &&
    ip + 10 <= |code.bytes| && ReadU16(code.bytes[ip + 8..ip + 10]) == isa.detachLocal &&
    Get(code.bytes, ip + 10) == Some(1)
  }

  lemma LookAhead(isa: Isa, b: seq<byte>, k: nat)
    requires k <= |Instructions(isa, b, 0)|
    ensures var p := Instructions(isa, b, 0);
            InstrAt(isa, b, Boundary(isa, b, 0, k)) == if k < |p| then Some(p[k]) else None
  {
    Decoded(isa, b, 0, k);
  }

  lemma ConstantsAgree(isa: Isa, code: Code, k: nat, value: Value)
    requires isa.Valid() && k <= |Instructions(isa, code.bytes, 0)|
    ensures var p, at := Instructions(isa, code.bytes, 0), Boundary(isa, code.bytes, 0, k);
            (ConstantAt(isa, code, at) == Some(value) <==> LoadsConstant(p, code.constants, k, value)) &&
            (LoadsConstant(p, code.constants, k, value) ==> Boundary(isa, code.bytes, 0, k + 1) == at + 5)
  {
    hide Instructions, Boundary;
    LookAhead(isa, code.bytes, k);
    if k < |Instructions(isa, code.bytes, 0)| { BoundaryStep(isa, code.bytes, 0, k); }
  }

  /** Every fixed offset the pass looks at is where the decoded list has its next instructions. */
  lemma PatternsAgree(isa: Isa, code: Code, k: nat, source: byte)
    requires isa.Valid() && k < |Instructions(isa, code.bytes, 0)|
    requires Instructions(isa, code.bytes, 0)[k] == Load(source)
    ensures var p, ip := Instructions(isa, code.bytes, 0), Boundary(isa, code.bytes, 0, k);
            ((StoreAt(isa, code.bytes, ip + 2).Some? && StoreAt(isa, code.bytes, ip + 2).value != source)
             <==> Rebinding(p, k, source)) &&
            (NullStoreAt(isa, code, ip, source) <==> NullStore(p, code.constants, k, source)) &&
            (DetachAt(isa, code, ip, source) <==> Detach(isa, p, code.constants, k, source)) &&
            (NullStoreAt(isa, code, ip, source) ==> ip + 7 == Boundary(isa, code.bytes, 0, k + 2))
  {
    hide Instructions, Boundary, ConstantAt, LoadsConstant, ReadU16;
    var b, p := code.bytes, Instructions(isa, code.bytes, 0);
    BoundaryStep(isa, b, 0, k);
    LookAhead(isa, b, k + 1);
    ConstantsAgree(isa, code, k + 1, VNull);
    ConstantsAgree(isa, code, k + 1, VInt(source));
    if LoadsConstant(p, code.constants, k + 1, VNull) || LoadsConstant(p, code.constants, k + 1, VInt(source)) {
      BeforeEnd(p, code.constants, k + 1, VNull);
      BeforeEnd(p, code.constants, k + 1, VInt(source));
      LookAhead(isa, b, k + 2);
    }
  }

  lemma BeforeEnd(p: seq<Instr>, constants: seq<Value>, k: nat, value: Value)
    ensures LoadsConstant(p, constants, k, value) ==> k < |p|
  {
  }

  // ----- the tracked locals

  /** The map from slots to names; of two names for one slot the later one stays. */
  function SlotNames(names: seq<string>, debug: map<string, byte>): (m: map<byte, string>)
    ensures forall slot :: slot in m ==> m[slot] in names && m[slot] in debug && debug[m[slot]] == slot
    ensures forall name :: name in names && name in debug ==> debug[name] in m
  {
    if names == [] then map[]
    else
      var last, m := names[|names| - 1], SlotNames(names[..|names| - 1], debug);
      assert forall name :: name in names <==> name in names[..|names| - 1] || name == last by {
        assert names == names[..|names| - 1] + [last];
      }
      if last in debug then m[debug[last] := last] else m
  }

  type Slots = m: map<byte, string> | Injective(m)

  predicate Injective<K, V(==)>(m: map<K, V>)
  {
    forall s, t :: s in m && t in m && m[s] == m[t] ==> s == t
  }

  /** The names whose slot was moved out of by the whole program. */
  ghost function MovedNames(isa: Isa, code: Code, slots: map<byte, string>): set<string>
  {
    var p := Instructions(isa, code.bytes, 0);
    set slot | slot in slots && Moved(isa, p, code.constants, |p|, slot) :: slots[slot]
  }

  ghost predicate Tracks(isa: Isa, p: seq<Instr>, constants: seq<Value>, slots: Slots, moved: set<string>, n: nat)
  {
    (forall name :: name in moved ==> exists slot :: slot in slots && slots[slot] == name) &&
    forall slot :: slot in slots ==> (slots[slot] in moved <==> Moved(isa, p, constants, n, slot))
  }

  lemma TracksLoad(isa: Isa, p: seq<Instr>, constants: seq<Value>, slots: Slots, moved: set<string>, n: nat,
                   source: byte)
    requires n < |p| && p[n] == Load(source) && Tracks(isa, p, constants, slots, moved, n)
    ensures source in slots && MovesOut(isa, p, constants, n, source) ==>
              Tracks(isa, p, constants, slots, moved + {slots[source]}, n + 1)
    ensures !(source in slots && MovesOut(isa, p, constants, n, source)) ==>
              Tracks(isa, p, constants, slots, moved, n + 1)
  {
    hide Moved;
    forall slot: byte ensures Moved(isa, p, constants, n + 1, slot)
                         <==> (slot == source && MovesOut(isa, p, constants, n, source)) ||
                              Moved(isa, p, constants, n, slot)
    {
      MovedStep(isa, p, constants, n, slot);
    }
  }

  lemma TracksStore(isa: Isa, p: seq<Instr>, constants: seq<Value>, slots: Slots, moved: set<string>, n: nat,
                    target: byte)
    requires n < |p| && p[n] == Store(target) && Tracks(isa, p, constants, slots, moved, n)
    ensures target in slots && !NullStore(p, constants, n - 2, target) ==>
              Tracks(isa, p, constants, slots, moved - {slots[target]}, n + 1)
    ensures !(target in slots && !NullStore(p, constants, n - 2, target)) ==>
              Tracks(isa, p, constants, slots, moved, n + 1)
  {
    hide Moved, NullStore;
    forall slot: byte ensures Moved(isa, p, constants, n + 1, slot)
                         <==> Moved(isa, p, constants, n, slot) &&
                              !(slot == target && !NullStore(p, constants, n - 2, target))
    {
      MovedStep(isa, p, constants, n, slot);
      NoLoadNoMove(isa, p, constants, n, slot);
    }
  }

  lemma TracksOther(isa: Isa, p: seq<Instr>, constants: seq<Value>, slots: Slots, moved: set<string>, n: nat)
    requires n < |p| && !p[n].Load? && !p[n].Store? && Tracks(isa, p, constants, slots, moved, n)
    ensures Tracks(isa, p, constants, slots, moved, n + 1)
  {
    hide Moved;
    forall slot: byte ensures Moved(isa, p, constants, n + 1, slot) <==> Moved(isa, p, constants, n, slot)
    {
      MovedStep(isa, p, constants, n, slot);
      NoLoadNoMove(isa, p, constants, n, slot);
    }
  }

  lemma NoLoadNoMove(isa: Isa, p: seq<Instr>, constants: seq<Value>, n: nat, slot: byte)
    requires n < |p| && !p[n].Load?
    ensures !MovesOut(isa, p, constants, n, slot)
  {
  }

  /** The exempted offsets are the boundaries two instructions after the null-stores seen so far. */
  ghost predicate Marks(isa: Isa, code: Code, slots: Slots, offsets: set<nat>, n: nat)
  {
    var p := Instructions(isa, code.bytes, 0);
    n <= |p| &&
    forall j :: 0 <= j < |p| ==>
      (Boundary(isa, code.bytes, 0, j) in offsets <==> j - 2 < n && Exempted(p, code.constants, slots, j - 2))
  }

  predicate Exempted(p: seq<Instr>, constants: seq<Value>, slots: Slots, k: int)
  {
    0 <= k < |p| && p[k].Load? && p[k].slot in slots && NullStore(p, constants, k, p[k].slot)
  }

  lemma MarksStep(isa: Isa, code: Code, slots: Slots, offsets: set<nat>, n: nat)
    requires Marks(isa, code, slots, offsets, n) && n < |Instructions(isa, code.bytes, 0)|
    ensures var p := Instructions(isa, code.bytes, 0);
            if Exempted(p, code.constants, slots, n)
            then n + 2 < |p| && Marks(isa, code, slots, offsets + {Boundary(isa, code.bytes, 0, n + 2)}, n + 1)
            else Marks(isa, code, slots, offsets, n + 1)
  {
    hide Instructions, Boundary;
    var p := Instructions(isa, code.bytes, 0);
    if Exempted(p, code.constants, slots, n) {
      forall j | 0 <= j < |p| && j != n + 2
        ensures Boundary(isa, code.bytes, 0, j) != Boundary(isa, code.bytes, 0, n + 2)
      {
        BoundariesAscend(isa, code.bytes, 0, if j < n + 2 then j else n + 2, if j < n + 2 then n + 2 else j);
      }
    }
  }

  lemma StoreExempted(isa: Isa, code: Code, slots: Slots, offsets: set<nat>, n: nat, target: byte)
    requires Marks(isa, code, slots, offsets, n) && n < |Instructions(isa, code.bytes, 0)|
    requires Instructions(isa, code.bytes, 0)[n] == Store(target) && target in slots
    ensures Boundary(isa, code.bytes, 0, n) in offsets
       <==> NullStore(Instructions(isa, code.bytes, 0), code.constants, n - 2, target)
  {
  }

  /** The pass itself, over raw bytes; with no debug information nothing is tracked. */
  method LocalsMovedByRebinding(isa: Isa, code: Code, slots: Slots) returns (moved: set<string>)
    requires isa.Valid()
    ensures moved == MovedNames(isa, code, slots)
  {
    hide Instructions, Boundary, Moved, Rebinding, Detach, NullStore, NullStoreAt, DetachAt, StoreAt, Marks, Tracks;
    ghost var p, k := Instructions(isa, code.bytes, 0), 0;
    var b := code.bytes;
    var moveStoreOffsets: set<nat> := {};
    var ip := 0;
    moved := {};
    Start(isa, code, slots);
    while ip < |b|
      invariant k <= |p| && ip == Boundary(isa, b, 0, k)
      invariant Tracks(isa, p, code.constants, slots, moved, k)
      invariant Marks(isa, code, slots, moveStoreOffsets, k)
      decreases |b| - ip
    {
      LookAhead(isa, b, k);
      if isa.OperandLen(b[ip]).None? { break; }
      BoundaryStep(isa, b, 0, k);
      MarksStep(isa, code, slots, moveStoreOffsets, k);
      if b[ip] == isa.ldloc && ip + 1 < |b| {
        var source := b[ip + 1];
        PatternsAgree(isa, code, k, source);
        TracksLoad(isa, p, code.constants, slots, moved, k, source);
        if source in slots {
          ghost var before, name := moved, slots[source];
          var target := StoreAt(isa, b, ip + 2);
          if target.Some? && target.value != source { moved := moved + {slots[source]}; }
          var nullStore := NullStoreAt(isa, code, ip, source);
          if nullStore || DetachAt(isa, code, ip, source) { moved := moved + {slots[source]}; }
          assert moved == if MovesOut(isa, p, code.constants, k, source) then before + {name} else before;
          if nullStore { moveStoreOffsets := moveStoreOffsets + {ip + 7}; }
        }
      } else if b[ip] == isa.stloc && ip + 1 < |b| {
        var target := b[ip + 1];
        TracksStore(isa, p, code.constants, slots, moved, k, target);
        if target in slots {
          StoreExempted(isa, code, slots, moveStoreOffsets, k, target);
          if ip !in moveStoreOffsets { moved := moved - {slots[target]}; }
        }
      } else {
        TracksOther(isa, p, code.constants, slots, moved, k);
      }
      ip := ip + 1 + isa.OperandLen(b[ip]).value;
      k := k + 1;
    }
    LookAhead(isa, b, k);
    TracksAll(isa, code, slots, moved);
  }

  lemma Start(isa: Isa, code: Code, slots: Slots)
    ensures Boundary(isa, code.bytes, 0, 0) == 0
    ensures Tracks(isa, Instructions(isa, code.bytes, 0), code.constants, slots, {}, 0)
    ensures Marks(isa, code, slots, {}, 0)
  {
  }

  lemma TracksAll(isa: Isa, code: Code, slots: Slots, moved: set<string>)
    requires var p := Instructions(isa, code.bytes, 0); Tracks(isa, p, code.constants, slots, moved, |p|)
    ensures moved == MovedNames(isa, code, slots)
  {
  }

  lemma SlotNamesInjective(names: seq<string>, debug: map<string, byte>)
    ensures Injective(SlotNames(names, debug))
  {
  }

  /** A tracked local is reported exactly when a move out of its slot is the last event of the instruction list. */
  lemma ReportedIffMovedLast(isa: Isa, code: Code, names: set<string>, debug: map<string, byte>, name: string)
    requires name in names
    requires forall other :: other in names && other in debug && name in debug && debug[other] == debug[name] ==>
               other == name
    ensures var p := Instructions(isa, code.bytes, 0);
            name in MovedNames(isa, code, SlotNames(Sorted(names), debug))
            <==> name in debug && Moved(isa, p, code.constants, |p|, debug[name])
  {
    hide Moved, Instructions;
    var slots := SlotNames(Sorted(names), debug);
    if name in debug { assert slots[debug[name]] == name; }
  }

  // ----- whole programs, byte by byte

  lemma OneInstruction(isa: Isa, b: seq<byte>, ip: nat)
    ensures ip == |b| ==> Instructions(isa, b, ip) == []
    ensures isa.Valid() && ip + 2 <= |b| && b[ip] == isa.ldloc ==>
              Instructions(isa, b, ip) == [Load(b[ip + 1])] + Instructions(isa, b, ip + 2)
    ensures isa.Valid() && ip + 2 <= |b| && b[ip] == isa.stloc ==>
              Instructions(isa, b, ip) == [Store(b[ip + 1])] + Instructions(isa, b, ip + 2)
    ensures isa.Valid() && ip + 5 <= |b| && b[ip] == isa.ldc ==>
              Instructions(isa, b, ip) == [Const(ReadU32(b[ip + 1..ip + 5]))] + Instructions(isa, b, ip + 5)
    ensures isa.Valid() && ip + 4 <= |b| && b[ip] == isa.call ==>
              Instructions(isa, b, ip) == [Call(ReadU16(b[ip + 1..ip + 3]), b[ip + 3])] + Instructions(isa, b, ip + 4)
  {
    hide ReadU32, ReadU16;
  }

  /** A move out of the slot is the last event of the program for it. */
  ghost predicate MovedOut(isa: Isa, code: Code, slot: byte)
  {
    var p := Instructions(isa, code.bytes, 0);
    Moved(isa, p, code.constants, |p|, slot)
  }

  /** Load a slot and store it elsewhere: moved out of; stored back where it was: not. Storing something into the slot
      afterwards undoes it. */
  lemma RebindingBytes(isa: Isa, code: Code, source: byte, target: byte)
    requires isa.Valid()
    ensures code.bytes == [isa.ldloc, source, isa.stloc, target] ==>
              (MovedOut(isa, code, source) <==> target != source) && (target != source ==> !MovedOut(isa, code, target))
    ensures code.bytes == [isa.ldloc, source, isa.stloc, target, isa.stloc, source] ==> !MovedOut(isa, code, source)
  {
    hide ReadU32, ReadU16, Moved, Instructions;
    var b, p := code.bytes, Instructions(isa, code.bytes, 0);
    if b == [isa.ldloc, source, isa.stloc, target] {
      OneInstruction(isa, b, 0); OneInstruction(isa, b, 2); OneInstruction(isa, b, 4);
      assert p == [Load(source), Store(target)];
      TwoEvents(isa, p, code.constants, source);
      TwoEvents(isa, p, code.constants, target);
    }
    if b == [isa.ldloc, source, isa.stloc, target, isa.stloc, source] {
      OneInstruction(isa, b, 0); OneInstruction(isa, b, 2); OneInstruction(isa, b, 4); OneInstruction(isa, b, 6);
      assert p == [Load(source), Store(target), Store(source)];
      ThreeEvents(isa, p, code.constants, source);
    }
  }

  lemma NoEvents(isa: Isa, p: seq<Instr>, constants: seq<Value>, slot: byte)
    ensures !Moved(isa, p, constants, 0, slot)
  {
  }

  lemma TwoEvents(isa: Isa, p: seq<Instr>, constants: seq<Value>, slot: byte)
    requires |p| >= 2
    ensures Moved(isa, p, constants, 2, slot)
       <==> MovesOut(isa, p, constants, 1, slot) ||
            (MovesOut(isa, p, constants, 0, slot) && !Refills(p, constants, 1, slot))
  {
    hide Moved, MovesOut, Refills;
    NoEvents(isa, p, constants, slot);
    MovedStep(isa, p, constants, 0, slot);
    MovedStep(isa, p, constants, 1, slot);
  }

  lemma ThreeEvents(isa: Isa, p: seq<Instr>, constants: seq<Value>, slot: byte)
    requires |p| >= 3
    ensures Moved(isa, p, constants, 3, slot)
       <==> MovesOut(isa, p, constants, 2, slot) ||
            ((MovesOut(isa, p, constants, 1, slot) ||
              (MovesOut(isa, p, constants, 0, slot) && !Refills(p, constants, 1, slot))) &&
             !Refills(p, constants, 2, slot))
  {
    hide Moved, MovesOut, Refills;
    TwoEvents(isa, p, constants, slot);
    MovedStep(isa, p, constants, 2, slot);
  }

  /** Load a slot, load a constant, store: moved out of exactly when the constant is null and the store goes back to the
      slot. */
  lemma NullStoreBytes(isa: Isa, code: Code, source: byte, i: byte, j: byte, k: byte, l: byte, target: byte)
    requires isa.Valid() && code.bytes == [isa.ldloc, source, isa.ldc, i, j, k, l, isa.stloc, target]
    ensures var index := ReadU32([i, j, k, l]);
            MovedOut(isa, code, source) <==>
              target == source && index < |code.constants| && code.constants[index] == VNull
  {
    hide ReadU32, ReadU16, Moved, Instructions;
    var b, p := code.bytes, Instructions(isa, code.bytes, 0);
    OneInstruction(isa, b, 0); OneInstruction(isa, b, 2); OneInstruction(isa, b, 7); OneInstruction(isa, b, 9);
    assert b[3..7] == [i, j, k, l];
    assert p == [Load(source), Const(ReadU32([i, j, k, l])), Store(target)];
    ThreeEvents(isa, p, code.constants, source);
  }

  /** Load a slot, load a constant, call: moved out of exactly when the constant is the number of the slot and the call
      is that of the detaching builtin with one argument. */
  lemma DetachBytes(isa: Isa, code: Code, source: byte, i: byte, j: byte, k: byte, l: byte, low: byte, high: byte,
                    argc: byte)
    requires isa.Valid() && code.bytes == [isa.ldloc, source, isa.ldc, i, j, k, l, isa.call, low, high, argc]
    ensures var index := ReadU32([i, j, k, l]);
            MovedOut(isa, code, source) <==>
              index < |code.constants| && code.constants[index] == VInt(source) &&
              ReadU16([low, high]) == isa.detachLocal && argc == 1
  {
    hide ReadU32, ReadU16, Moved, Instructions;
    var b, p := code.bytes, Instructions(isa, code.bytes, 0);
    OneInstruction(isa, b, 0); OneInstruction(isa, b, 2); OneInstruction(isa, b, 7); OneInstruction(isa, b, 11);
    assert b[3..7] == [i, j, k, l] && b[8..10] == [low, high];
    assert p == [Load(source), Const(ReadU32([i, j, k, l])), Call(ReadU16([low, high]), argc)];
    ThreeEvents(isa, p, code.constants, source);
  }
}
