/** The encoder and the decoder as the source runs them: an output that grows in place, a cursor that moves. */
module WireCodec {
  import opened Bytes
  import opened Results
  import opened Wire
  import T = WireTheorems

  /** `r` and the growth of the output are what the specification says; after an error the output is discarded. */
  predicate Wrote(r: WireResult<()>, before: seq<byte>, after: seq<byte>, spec: WireResult<seq<byte>>)
  {
    match spec
    case Ok(bytes) => r == Ok(()) && after == before + bytes
    case Err(error) => r == Err(error) && before <= after
  }

  lemma PrependTwice(a: seq<byte>, b: seq<byte>, r: WireResult<seq<byte>>)
    ensures Prepend(a, Prepend(b, r)) == Prepend(a + b, r)
  {
    if r.Ok? { assert a + (b + r.value) == a + b + r.value; }
  }

  lemma PrependNothing(r: WireResult<seq<byte>>)
    ensures Prepend([], r) == r
  {
    if r.Ok? { assert [] + r.value == r.value; }
  }

  function WholeHead(v: ReplValue): WireResult<seq<byte>>
  {
    match Head(v)
    case Some(head) => Ok(head)
    case None => Err(LengthOverflow)
  }

  lemma TooDeep(v: ReplValue, depth: nat, output: seq<byte>)
    requires depth > MAX_NESTING
    ensures Wrote(Err(NestingTooDeep), output, output, Encode(v, depth))
  {
  }

  lemma EncodeScalar(v: ReplValue, depth: nat)
    requires depth <= MAX_NESTING && IsLeaf(v)
    ensures Encode(v, depth) == WholeHead(v)
  {
    if Head(v).Some? { assert Head(v).value + [] == Head(v).value; }
  }

  lemma EncodeCollection(v: ReplValue, depth: nat)
    requires depth <= MAX_NESTING
    ensures Encode(v, depth) == match Head(v)
                                case Some(head) => Prepend(head, EncodeAll(Children(v), depth + 1))
                                case None => Err(LengthOverflow)
  {
  }

  lemma WroteCollection(v: ReplValue, depth: nat, r: WireResult<()>,
                        before: seq<byte>, middle: seq<byte>, after: seq<byte>)
    requires depth <= MAX_NESTING && Head(v).Some?
    requires middle == before + Head(v).value
    requires Wrote(r, middle, after, EncodeAll(Children(v), depth + 1))
    ensures Wrote(r, before, after, Encode(v, depth))
  {
    hide Head, Children, EncodeAll;
    EncodeCollection(v, depth);
    var spec := EncodeAll(Children(v), depth + 1);
    if spec.Ok? { assert before + (Head(v).value + spec.value) == middle + spec.value; }
  }

  class Encoder {
    var output: seq<byte>

    constructor ()
      ensures output == []
    {
      output := [];
    }

    method WriteLen(length: nat) returns (r: WireResult<()>)
      modifies this
      ensures Wrote(r, old(output), output, if length < U32_SIZE then Ok(LeU32(length)) else Err(LengthOverflow))
    {
      if length >= U32_SIZE { return Err(LengthOverflow); }
      output := output + LeU32(length);
      r := Ok(());
    }

    method EncodeValue(value: ReplValue, depth: nat) returns (r: WireResult<()>)
      modifies this
      ensures Wrote(r, old(output), output, Encode(value, depth))
      decreases value
    {
      hide Wrote;
      if depth > MAX_NESTING {
        TooDeep(value, depth, output);
        return Err(NestingTooDeep);
      }
      hide Encode;
      ghost var before := output;
      match value {
        case Array(values) =>
          r := EncodeSize(6, |values|);
          EncodeCollection(value, depth);
          if r.Ok? {
            ghost var middle := output;
            r := EncodeValues(value, values, depth + 1);
            WroteCollection(value, depth, r, before, middle, output);
          }
        case Map(entries) =>
          r := EncodeSize(7, |entries|);
          EncodeCollection(value, depth);
          if r.Ok? {
            ghost var middle := output;
            r := EncodeEntries(value, entries, depth + 1);
            WroteCollection(value, depth, r, before, middle, output);
          }
        case _ =>
          r := EncodeLeaf(value);
          EncodeScalar(value, depth);
      }
    }

    /** The cases of the match without children. */
    method EncodeLeaf(value: ReplValue) returns (r: WireResult<()>)
      requires IsLeaf(value)
      modifies this
      ensures Wrote(r, old(output), output, WholeHead(value))
    {
      hide LeU64, LeU32, I64Bits;
      r := Ok(());
      match value {
        case Null => Put(0, []);
        case Int(number) => Put(1, LeU64(I64Bits(number)));
        case Float(bits) => Put(2, LeU64(bits));
        case Bool(truth) => Put(3, [if truth then 1 else 0]);
        case String(text) => r := EncodeBlob(4, text);
        case Bytes(data) => r := EncodeBlob(5, data);
      }
    }

    /** A tag pushed, then a payload of fixed size. */
    method Put(tag: byte, payload: seq<byte>)
      modifies this
      ensures output == old(output) + ([tag] + payload)
    {
      output := output + [tag];
      output := output + payload;
    }

    /** A tag and a length. */
    method EncodeSize(tag: byte, length: nat) returns (r: WireResult<()>)
      modifies this
      ensures Wrote(r, old(output), output,
                    if length < U32_SIZE then Ok([tag] + LeU32(length)) else Err(LengthOverflow))
    {
      output := output + [tag];
      r := WriteLen(length);
    }

    /** A tag, a length and that many bytes. */
    method EncodeBlob(tag: byte, blob: seq<byte>) returns (r: WireResult<()>)
      modifies this
      ensures Wrote(r, old(output), output,
                    if |blob| < U32_SIZE then Ok([tag] + LeU32(|blob|) + blob) else Err(LengthOverflow))
    {
      var _ :- EncodeSize(tag, |blob|);
      output := output + blob;
      r := Ok(());
    }

    /** The loop over array elements. */
    method EncodeValues(ghost parent: ReplValue, values: seq<ReplValue>, depth: nat) returns (r: WireResult<()>)
      requires forall i :: 0 <= i < |values| ==> values[i] < parent
      modifies this
      ensures Wrote(r, old(output), output, EncodeAll(values, depth))
      decreases parent, 0
    {
      hide Encode;
      ghost var done: seq<byte> := [];
      PrependNothing(EncodeAll(values, depth));
      assert values[0..] == values;
      for i := 0 to |values|
        invariant output == old(output) + done
        invariant EncodeAll(values, depth) == Prepend(done, EncodeAll(values[i..], depth))
      {
        var _ :- EncodeValue(values[i], depth);
        PrependTwice(done, Encode(values[i], depth).value, EncodeAll(values[i + 1..], depth));
        assert values[i..][1..] == values[i + 1..];
        done := done + Encode(values[i], depth).value;
      }
      r := Ok(());
    }

    /** The loop over map entries: key, then value. */
    method EncodeEntries(ghost parent: ReplValue, entries: seq<(ReplValue, ReplValue)>, depth: nat)
      returns (r: WireResult<()>)
      requires forall i :: 0 <= i < |entries| ==> entries[i].0 < parent && entries[i].1 < parent
      modifies this
      ensures Wrote(r, old(output), output, EncodeAll(Flatten(entries), depth))
      decreases parent, 0
    {
      hide Encode;
      ghost var done: seq<byte> := [];
      PrependNothing(EncodeAll(Flatten(entries), depth));
      assert entries[0..] == entries;
      for i := 0 to |entries|
        invariant output == old(output) + done
        invariant EncodeAll(Flatten(entries), depth) == Prepend(done, EncodeAll(Flatten(entries[i..]), depth))
      {
        var (key, value) := entries[i];
        ghost var rest := Flatten(entries[i..]);
        assert rest == [key, value] + Flatten(entries[i + 1..]) by { assert entries[i..][1..] == entries[i + 1..]; }
        assert rest[1..][1..] == Flatten(entries[i + 1..]);
        var _ :- EncodeValue(key, depth);
        PrependTwice(done, Encode(key, depth).value, EncodeAll(rest[1..], depth));
        done := done + Encode(key, depth).value;
        var _ :- EncodeValue(value, depth);
        PrependTwice(done, Encode(value, depth).value, EncodeAll(rest[1..][1..], depth));
        done := done + Encode(value, depth).value;
      }
      r := Ok(());
    }
  }

  /** The locals part both payloads share. */
  method EncodeLocals(encoder: Encoder, magic: seq<byte>, locals: seq<ReplValue>) returns (r: WireResult<()>)
    requires encoder.output == []
    modifies encoder
    ensures Wrote(r, [], encoder.output, EncodeList(magic, locals))
  {
    hide Encode, EncodeAll;
    encoder.output := encoder.output + magic;
    var _ :- encoder.WriteLen(|locals|);
    ghost var start := encoder.output;
    r := encoder.EncodeValues(Array(locals), locals, 0);
    ghost var spec := EncodeAll(locals, 0);
    assert spec.Ok? ==> [] + (magic + LeU32(|locals|) + spec.value) == start + spec.value;
  }

  /** `ensure_wire_size`. */
  method CheckWireSize(output: seq<byte>) returns (r: WireResult<seq<byte>>)
    ensures r == EnsureWireSize(Ok(output))
  {
    if |output| > MAX_WIRE_BYTES { r := Err(LengthOverflow); } else { r := Ok(output); }
  }

  method EncodeReplState(locals: seq<ReplValue>) returns (r: WireResult<seq<byte>>)
    ensures r == EncodeState(locals)
  {
    hide EncodeList;
    var encoder := new Encoder();
    var _ :- EncodeLocals(encoder, STATE_MAGIC, locals);
    assert encoder.output == EncodeList(STATE_MAGIC, locals).value;
    r := CheckWireSize(encoder.output);
  }

  method EncodeReplResponse(response: ReplResponse) returns (r: WireResult<seq<byte>>)
    ensures r == EncodeResponse(response)
  {
    hide EncodeList, Encode;
    var encoder := new Encoder();
    var _ :- EncodeLocals(encoder, RESPONSE_MAGIC, response.locals);
    ghost var list := EncodeList(RESPONSE_MAGIC, response.locals).value;
    assert encoder.output == list;
    match response.result {
      case Some(value) =>
        encoder.output := encoder.output + [1];
        var _ :- encoder.EncodeValue(value, 0);
        assert encoder.output == list + ([1] + Encode(value, 0).value);
      case None =>
        encoder.output := encoder.output + [0];
    }
    r := CheckWireSize(encoder.output);
  }

  // ----- the decoder

  /** One `try_reserve_exact`: how many slots, and how many bytes were left to fill them. */
  datatype Reservation = Reservation(count: nat, remaining: nat)

  function Slots(reservations: seq<Reservation>): nat
  {
    if reservations == [] then 0
    else Slots(reservations[..|reservations| - 1]) + reservations[|reservations| - 1].count
  }

  /** Continues a collection whose first elements are `done`. */
  function Glue(done: seq<ReplValue>, d: Decoded<seq<ReplValue>>): Decoded<seq<ReplValue>>
  {
    if d.result.Ok? then Decoded(Ok(done + d.result.value), d.at) else d
  }

  lemma GlueTwice(done: seq<ReplValue>, v: ReplValue, d: Decoded<seq<ReplValue>>)
    ensures Glue(done, Glue([v], d)) == Glue(done + [v], d)
  {
    if d.result.Ok? { assert done + ([v] + d.result.value) == done + [v] + d.result.value; }
  }

  lemma DecodeUnfolds(input: Input, at: Cursor, depth: nat)
    requires at.nodes + 1 <= MAX_VALUE_NODES && depth <= MAX_NESTING
    ensures var head := DecodeHead(input, at.(nodes := at.nodes + 1));
            Decode(input, at, depth)
            == match head.result
               case Err(error) => Decoded(Err(error), head.at)
               case Ok(h) =>
                 var children := DecodeAll(input, head.at, ChildCount(h), depth + 1);
                 match children.result
                 case Err(error) => Decoded(Err(error), children.at)
                 case Ok(vs) => Decoded(Ok(Fill(h, vs)), children.at)
  {
    hide DecodeHead, DecodeAll, ChildCount, Fill;
  }

  lemma DecodeRefuses(input: Input, at: Cursor, depth: nat)
    ensures at.nodes + 1 > MAX_VALUE_NODES ==>
              Decode(input, at, depth) == Decoded(Err(LengthOverflow), at.(nodes := at.nodes + 1))
    ensures at.nodes + 1 <= MAX_VALUE_NODES && depth > MAX_NESTING ==>
              Decode(input, at, depth) == Decoded(Err(NestingTooDeep), at.(nodes := at.nodes + 1))
  {
  }

  lemma DecodeAllUnfolds(input: Input, at: Cursor, count: nat, depth: nat)
    ensures count == 0 ==> DecodeAll(input, at, count, depth) == Decoded(Ok([]), at)
    ensures count > 0 ==>
              DecodeAll(input, at, count, depth)
              == var first := Decode(input, at, depth);
                 match first.result
                 case Err(error) => Decoded(Err(error), first.at)
                 case Ok(v) => Glue([v], DecodeAll(input, first.at, count - 1, depth))
  {
  }

  /** The entries read so far, as the keys and values the specification counts. */
  function Flat(r: WireResult<seq<(ReplValue, ReplValue)>>): WireResult<seq<ReplValue>>
  {
    match r
    case Ok(entries) => Ok(Flatten(entries))
    case Err(error) => Err(error)
  }

  lemma {:induction false} FlattenSnoc(entries: seq<(ReplValue, ReplValue)>, key: ReplValue, value: ReplValue)
    ensures Flatten(entries + [(key, value)]) == Flatten(entries) + [key, value]
  {
    if entries == [] {
      assert [(key, value)][1..] == [];
    } else {
      assert (entries + [(key, value)])[1..] == entries[1..] + [(key, value)];
      FlattenSnoc(entries[1..], key, value);
    }
  }

  class Decoder {
    const bytes: seq<byte>
    const usizeMax: nat
    var offset: nat
    var nodes: nat
    /** What the run has cost so far; the program itself does not carry these. */
    ghost var calls: nat
    ghost var reservations: seq<Reservation>
    /** Collections begun and not yet complete, and the most there ever were; the list of locals counts until the
        end. */
    ghost var open: nat
    ghost var deepest: nat

    function Source(): Input { Input(bytes, usizeMax) }

    function At(): Cursor
      reads this
    {
      Cursor(offset, nodes)
    }

    /** The resource bounds that hold on every input, accepted or not. */
    ghost predicate Bounded()
      reads this
    {
      offset <= |bytes| &&
      calls == nodes <= MAX_VALUE_NODES + 1 &&
      open <= deepest <= MAX_NESTING + 2 &&
      forall i :: 0 <= i < |reservations| ==> reservations[i].count <= reservations[i].remaining <= |bytes|
    }

    constructor (bytes: seq<byte>, usizeMax: nat)
      ensures this.bytes == bytes && this.usizeMax == usizeMax
      ensures At() == Cursor(0, 0) && Bounded() && reservations == [] && open == 0
    {
      this.bytes, this.usizeMax := bytes, usizeMax;
      offset, nodes := 0, 0;
      calls, reservations, open, deepest := 0, [], 0, 0;
    }

    method FinishDecoding() returns (r: WireResult<()>)
      ensures r == Finish(Source(), At())
    {
      if offset == |bytes| { r := Ok(()); } else { r := Err(TrailingData); }
    }

    method ReadExactBytes(length: nat) returns (r: WireResult<seq<byte>>)
      requires Bounded()
      modifies `offset
      ensures Decoded(r, At()) == ReadExact(Source(), old(At()), length) && Bounded()
    {
      var end := offset + length;
      if end > usizeMax { return Err(LengthOverflow); }
      if end > |bytes| { return Err(UnexpectedEnd); }
      r := Ok(bytes[offset..end]);
      offset := end;
    }

    method ReadLength() returns (r: WireResult<u32>)
      requires Bounded()
      modifies `offset
      ensures Decoded(r, At()) == ReadLen(Source(), old(At())) && Bounded()
    {
      var size :- ReadExactBytes(4);
      r := Ok(ReadU32(size));
    }

    /** The node budget, before anything is read. */
    method Enter() returns (r: WireResult<()>)
      requires Bounded() && nodes <= MAX_VALUE_NODES
      modifies `nodes, `calls
      ensures Bounded() && nodes == old(nodes) + 1
      ensures r == if nodes > MAX_VALUE_NODES then Err(LengthOverflow) else Ok(())
    {
      nodes, calls := nodes + 1, calls + 1;
      r := if nodes > MAX_VALUE_NODES then Err(LengthOverflow) else Ok(());
    }

    method ReadHead() returns (r: WireResult<HeadValue>)
      requires Bounded()
      modifies `offset
      ensures Decoded(r, At()) == DecodeHead(Source(), old(At())) && Bounded()
    {
      var tag :- ReadExactBytes(1);
      r := ReadTagged(tag[0]);
    }

    method ReadTagged(tag: byte) returns (r: WireResult<HeadValue>)
      requires Bounded()
      modifies `offset
      ensures Decoded(r, At()) == DecodeTagged(Source(), old(At()), tag) && Bounded()
    {
      hide ReadU32, ReadU64, ValidUtf8;
      match tag {
        case 0 =>
          r := Ok(Leaf(Null));
        case 1 =>
          var word :- ReadExactBytes(8);
          r := Ok(Leaf(Int(I64FromBits(ReadU64(word)))));
        case 2 =>
          var word :- ReadExactBytes(8);
          r := Ok(Leaf(Float(ReadU64(word))));
        case 3 =>
          var flag :- ReadExactBytes(1);
          r := if flag[0] <= 1 then Ok(Leaf(Bool(flag[0] == 1))) else Err(InvalidBool(flag[0]));
        case 4 =>
          var length :- ReadLength();
          var text :- ReadExactBytes(length);
          r := if ValidUtf8(text) then Ok(Leaf(String(text))) else Err(InvalidUtf8);
        case 5 =>
          var length :- ReadLength();
          var data :- ReadExactBytes(length);
          r := Ok(Leaf(Bytes(data)));
        case 6 =>
          var count :- ReadLength();
          if count > Remaining(Source(), At()) { return Err(LengthOverflow); }
          r := Ok(Open(false, count));
        case 7 =>
          var count :- ReadLength();
          if count > Remaining(Source(), At()) / 2 { return Err(LengthOverflow); }
          r := Ok(Open(true, count));
        case _ =>
          r := Err(InvalidTag(tag));
      }
    }
  
    /** Records one `try_reserve_exact`, which begins a collection; the memory itself is not modelled. */
    ghost method Reserve(count: nat)
      requires Bounded() && count <= |bytes| - offset && open <= MAX_NESTING + 1
      modifies `reservations, `open, `deepest
      ensures Bounded() && Slots(reservations) == Slots(old(reservations)) + count && open == old(open) + 1
    {
      var now := Reservation(count, |bytes| - offset);
      assert (reservations + [now])[..|reservations|] == reservations;
      reservations := reservations + [now];
      open := open + 1;
      deepest := if deepest < open then open else deepest;
    }

    /** The innermost collection is complete. */
    ghost method Close()
      requires Bounded() && open > 0
      modifies `open
      ensures Bounded() && open == old(open) - 1
    {
      open := open - 1;
    }

    method DecodeValue(depth: nat) returns (r: WireResult<ReplValue>)
      requires Bounded() && nodes <= MAX_VALUE_NODES && open == depth + 1
      modifies this
      ensures Decoded(r, At()) == Decode(Source(), old(At()), depth)
      ensures Bounded()
      ensures r.Ok? ==> nodes <= MAX_VALUE_NODES && open == old(open)
      ensures r.Ok? ==> Slots(reservations) - Slots(old(reservations)) < nodes - old(nodes)
      decreases |bytes| - offset, 0
    {
      hide Decode, DecodeAll, DecodeHead, Slots;
      DecodeRefuses(Source(), At(), depth);
      if nodes < MAX_VALUE_NODES && depth <= MAX_NESTING { DecodeUnfolds(Source(), At(), depth); }
      DecodeHeadAdvances(Source(), Cursor(offset, nodes + 1));
      var _ :- Enter();
      if depth > MAX_NESTING { return Err(NestingTooDeep); }
      var head :- ReadHead();
      match head {
        case Leaf(value) =>
          DecodeAllUnfolds(Source(), At(), 0, depth + 1);
          r := Ok(value);
        case Open(isMap, count) =>
          CountWithinRemaining(Source(), Cursor(old(offset), nodes));
          Reserve(count);
          if isMap {
            var entries :- DecodeEntries(count, depth + 1);
            PairFlatten(entries);
            r := Ok(Map(entries));
          } else {
            var values :- DecodeValues(count, depth + 1);
            r := Ok(Array(values));
          }
          Close();
      }
    }

    /** The loop over array elements, or over the locals of a payload. */
    method DecodeValues(count: nat, depth: nat) returns (r: WireResult<seq<ReplValue>>)
      requires Bounded() && nodes <= MAX_VALUE_NODES && open == depth + 1
      modifies this
      ensures Decoded(r, At()) == DecodeAll(Source(), old(At()), count, depth)
      ensures Bounded()
      ensures r.Ok? ==> nodes <= MAX_VALUE_NODES && open == old(open)
      ensures r.Ok? ==> Slots(reservations) - Slots(old(reservations)) + count <= nodes - old(nodes)
      decreases |bytes| - offset, 1
    {
      hide Decode, DecodeAll, Slots;
      ghost var whole := DecodeAll(Source(), At(), count, depth);
      var values: seq<ReplValue> := [];
      GlueNothing(whole);
      for i := 0 to count
        invariant Bounded() && nodes <= MAX_VALUE_NODES && old(offset) <= offset && open == old(open)
        invariant |values| == i
        invariant whole == Glue(values, DecodeAll(Source(), At(), count - i, depth))
        invariant Slots(reservations) - Slots(old(reservations)) + i <= nodes - old(nodes)
      {
        DecodeAllUnfolds(Source(), At(), count - i, depth);
        ghost var before := At();
        var value :- DecodeValue(depth);
        GlueTwice(values, value, DecodeAll(Source(), At(), count - i - 1, depth));
        values := values + [value];
      }
      DecodeAllUnfolds(Source(), At(), 0, depth);
      assert values + [] == values;
      r := Ok(values);
    }

    /** The loop over map entries. */
    method DecodeEntries(count: nat, depth: nat) returns (r: WireResult<seq<(ReplValue, ReplValue)>>)
      requires Bounded() && nodes <= MAX_VALUE_NODES && open == depth + 1
      modifies this
      ensures Decoded(Flat(r), At()) == DecodeAll(Source(), old(At()), 2 * count, depth)
      ensures Bounded()
      ensures r.Ok? ==> nodes <= MAX_VALUE_NODES && open == old(open)
      ensures r.Ok? ==> Slots(reservations) - Slots(old(reservations)) + 2 * count <= nodes - old(nodes)
      decreases |bytes| - offset, 1
    {
      hide Decode, DecodeAll, Slots, Flatten;
      ghost var whole := DecodeAll(Source(), At(), 2 * count, depth);
      var entries: seq<(ReplValue, ReplValue)> := [];
      GlueNothing(whole);
      FlattenNothing();
      for i := 0 to count
        invariant Bounded() && nodes <= MAX_VALUE_NODES && old(offset) <= offset && open == old(open)
        invariant |entries| == i
        invariant whole == Glue(Flatten(entries), DecodeAll(Source(), At(), 2 * (count - i), depth))
        invariant Slots(reservations) - Slots(old(reservations)) + 2 * i <= nodes - old(nodes)
      {
        DecodeAllUnfolds(Source(), At(), 2 * (count - i), depth);
        var key :- DecodeValue(depth);
        GlueTwice(Flatten(entries), key, DecodeAll(Source(), At(), 2 * (count - i) - 1, depth));
        DecodeAllUnfolds(Source(), At(), 2 * (count - i) - 1, depth);
        var value :- DecodeValue(depth);
        GlueTwice(Flatten(entries) + [key], value, DecodeAll(Source(), At(), 2 * (count - i) - 2, depth));
        FlattenSnoc(entries, key, value);
        assert Flatten(entries) + [key] + [value] == Flatten(entries) + [key, value];
        entries := entries + [(key, value)];
      }
      DecodeAllUnfolds(Source(), At(), 0, depth);
      assert Flatten(entries) + [] == Flatten(entries);
      r := Ok(entries);
    }
  }

  lemma GlueNothing(d: Decoded<seq<ReplValue>>)
    ensures Glue([], d) == d
  {
    if d.result.Ok? { assert [] + d.result.value == d.result.value; }
  }

  lemma FlattenNothing()
    ensures Flatten([]) == []
  {
  }

  lemma CountWithinRemaining(input: Input, at: Cursor)
    requires DecodeHead(input, at).result.Ok? && DecodeHead(input, at).result.value.Open?
    ensures DecodeHead(input, at).result.value.count <= Remaining(input, DecodeHead(input, at).at)
  {
  }

  method ReadMagic(decoder: Decoder, magic: seq<byte>) returns (r: WireResult<()>)
    requires decoder.Bounded()
    modifies decoder`offset
    ensures Decoded(r, decoder.At()) == ExpectMagic(decoder.Source(), old(decoder.At()), magic)
    ensures decoder.Bounded()
  {
    var found :- decoder.ReadExactBytes(|magic|);
    r := if found == magic then Ok(()) else Err(InvalidMagic);
  }

  /** The part of a payload up to and including the locals. */
  method DecodeLocals(decoder: Decoder, magic: seq<byte>) returns (r: WireResult<seq<ReplValue>>)
    requires decoder.Bounded() && decoder.At() == Cursor(0, 0) && decoder.reservations == [] && decoder.open == 0
    modifies decoder
    ensures Decoded(r, decoder.At()) == DecodeList(decoder.Source(), Cursor(0, 0), magic)
    ensures decoder.Bounded()
    ensures r.Ok? ==>
              decoder.nodes <= MAX_VALUE_NODES && Slots(decoder.reservations) <= decoder.nodes && decoder.open == 1
  {
    hide DecodeAll;
    var _ :- ReadMagic(decoder, magic);
    var count :- decoder.ReadLength();
    if count > Remaining(decoder.Source(), decoder.At()) { return Err(LengthOverflow); }
    decoder.Reserve(count);
    r := decoder.DecodeValues(count, 0);
  }

  /** `decode_repl_state`, with what decoding cost, whether or not the bytes were accepted. */
  method DecodeReplState(bytes: seq<byte>, usizeMax: nat)
    returns (r: WireResult<seq<ReplValue>>, ghost decoder: Decoder?)
    ensures r == DecodeState(Input(bytes, usizeMax))
    ensures decoder == null <==> |bytes| > MAX_WIRE_BYTES
    ensures decoder != null ==> decoder.bytes == bytes && decoder.Bounded()
    ensures r.Ok? ==> Slots(decoder.reservations) <= NodesOfAll(r.value) <= MAX_VALUE_NODES
  {
    hide DecodeList;
    decoder := null;
    if |bytes| > MAX_WIRE_BYTES { return Err(LengthOverflow), decoder; }
    var d := new Decoder(bytes, usizeMax);
    decoder := d;
    r := DecodeLocals(d, STATE_MAGIC);
    if r.Err? { return; }
    T.ListSound(d.Source(), STATE_MAGIC);
    var finished := d.FinishDecoding();
    if finished.Err? { r := Err(finished.error); }
  }

  /** `decode_repl_response`. */
  method DecodeReplResponse(bytes: seq<byte>, usizeMax: nat)
    returns (r: WireResult<ReplResponse>, ghost decoder: Decoder?)
    ensures r == DecodeResponse(Input(bytes, usizeMax))
    ensures decoder == null <==> |bytes| > MAX_WIRE_BYTES
    ensures decoder != null ==> decoder.bytes == bytes && decoder.Bounded()
    ensures r.Ok? ==> Slots(decoder.reservations) <= T.NodesOfResponse(r.value) <= MAX_VALUE_NODES
  {
    hide DecodeList, Decode, Nodes, NodesOfAll;
    decoder := null;
    if |bytes| > MAX_WIRE_BYTES { return Err(LengthOverflow), decoder; }
    var d := new Decoder(bytes, usizeMax);
    decoder := d;
    var locals := DecodeLocals(d, RESPONSE_MAGIC);
    if locals.Err? { return Err(locals.error), decoder; }
    T.ListSound(d.Source(), RESPONSE_MAGIC);
    ghost var at := d.At();
    var result := DecodeFlaggedResult(d);
    if result.Err? { return Err(result.error), decoder; }
    T.ResultSound(d.Source(), at);
    var finished := d.FinishDecoding();
    if finished.Err? { return Err(finished.error), decoder; }
    r := Ok(ReplResponse(locals.value, result.value));
  }

  method DecodeFlaggedResult(decoder: Decoder) returns (r: WireResult<Option<ReplValue>>)
    requires decoder.Bounded() && decoder.nodes <= MAX_VALUE_NODES && decoder.open == 1
    modifies decoder
    ensures Decoded(r, decoder.At()) == DecodeResult(decoder.Source(), old(decoder.At()))
    ensures decoder.Bounded()
    ensures r.Ok? ==>
              Slots(decoder.reservations) - Slots(old(decoder.reservations)) <= decoder.nodes - old(decoder.nodes)
  {
    hide Decode, Slots;
    var flag :- decoder.ReadExactBytes(1);
    match flag[0] {
      case 0 =>
        r := Ok(None);
      case 1 =>
        var value :- decoder.DecodeValue(0);
        r := Ok(Some(value));
      case b =>
        r := Err(InvalidBool(b));
    }
  }
}
