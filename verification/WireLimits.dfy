/** How large and how deep a value is, and so what the encoder takes, what it refuses, and with which error. */
module WireLimits {
  import opened Bytes
  import opened Results
  import opened Wire
  import opened WireTheorems

  // ----- size, height and lengths

  /** Bytes on the wire: a tag, then eight bytes, one byte, or a length of four with the contents. */
  function Size(v: ReplValue): (n: nat)
    ensures n >= 1
    decreases Nodes(v), 0
  {
    NodesOfChildren(v);
    match v
    case Null => 1
    case Int(_) => 9
    case Float(_) => 9
    case Bool(_) => 2
    case String(text) => 5 + |text|
    case Bytes(data) => 5 + |data|
    case Array(values) => 5 + SizeOfAll(values)
    case Map(entries) => 5 + SizeOfAll(Flatten(entries))
  }

  function SizeOfAll(vs: seq<ReplValue>): (n: nat)
    ensures n >= |vs|
    decreases NodesOfAll(vs), 1 + |vs|
  {
    if vs == [] then 0 else Size(vs[0]) + SizeOfAll(vs[1..])
  }

  /** How many collections stand around the innermost value. */
  function Height(v: ReplValue): nat
    decreases Nodes(v), 0
  {
    NodesOfChildren(v);
    if Children(v) == [] then 0 else 1 + MaxHeight(Children(v))
  }

  function MaxHeight(vs: seq<ReplValue>): nat
    decreases NodesOfAll(vs), 1 + |vs|
  {
    if vs == [] then 0
    else
      var first, rest := Height(vs[0]), MaxHeight(vs[1..]);
      if first < rest then rest else first
  }

  predicate Countable(v: ReplValue)
  {
    match v
    case String(text) => |text| < U32_SIZE
    case Bytes(data) => |data| < U32_SIZE
    case Array(values) => |values| < U32_SIZE
    case Map(entries) => |entries| < U32_SIZE
    case _ => true
  }

  /** Every length in the value fits 32 bits. */
  predicate Fits(v: ReplValue)
    decreases Nodes(v), 0
  {
    NodesOfChildren(v);
    Countable(v) && AllFit(Children(v))
  }

  predicate AllFit(vs: seq<ReplValue>)
    decreases NodesOfAll(vs), 1 + |vs|
  {
    vs == [] || (Fits(vs[0]) && AllFit(vs[1..]))
  }

  lemma HeadFacts(v: ReplValue)
    ensures Head(v).Some? <==> Countable(v)
    ensures Head(v).Some? ==> Size(v) == |Head(v).value| + SizeOfAll(Children(v))
  {
    hide LeU32, LeU64;
    if IsLeaf(v) { assert SizeOfAll([]) == 0; }
  }

  // ----- what one value comes to

  /** A value that stands at some depth encodes exactly when it is not too deep and its lengths fit, and then to as many
      bytes as its size; when all lengths fit, it is the depth that is refused. */
  lemma {:induction false} EncodesIff(v: ReplValue, depth: nat)
    ensures Encode(v, depth).Ok? <==> Fits(v) && depth + Height(v) <= 32
    ensures Encode(v, depth).Ok? ==> |Encode(v, depth).value| == Size(v)
    ensures Encode(v, depth).Err? ==>
              Encode(v, depth).error == LengthOverflow || Encode(v, depth).error == NestingTooDeep
    ensures Encode(v, depth).Err? && Fits(v) ==> Encode(v, depth) == Err(NestingTooDeep)
    ensures Encode(v, depth) == Err(NestingTooDeep) ==> depth + Height(v) > 32
    decreases Nodes(v), 0
  {
    hide Head, Children, Size, SizeOfAll, Countable;
    NodesOfChildren(v);
    HeadFacts(v);
    if depth <= MAX_NESTING {
      EncodeAllIff(Children(v), depth + 1);
      NoChildren(v, depth);
    }
  }

  lemma NoChildren(v: ReplValue, depth: nat)
    requires depth <= MAX_NESTING
    ensures Children(v) == [] ==> EncodeAll(Children(v), depth + 1) == Ok([]) && AllFit(Children(v))
  {
  }

  lemma {:induction false} EncodeAllIff(vs: seq<ReplValue>, depth: nat)
    ensures EncodeAll(vs, depth).Ok? <==> AllFit(vs) && (vs == [] || depth + MaxHeight(vs) <= 32)
    ensures EncodeAll(vs, depth).Ok? ==> |EncodeAll(vs, depth).value| == SizeOfAll(vs)
    ensures EncodeAll(vs, depth).Err? ==>
              EncodeAll(vs, depth).error == LengthOverflow || EncodeAll(vs, depth).error == NestingTooDeep
    ensures EncodeAll(vs, depth).Err? && AllFit(vs) ==> EncodeAll(vs, depth) == Err(NestingTooDeep)
    ensures EncodeAll(vs, depth) == Err(NestingTooDeep) ==> vs != [] && depth + MaxHeight(vs) > 32
    decreases NodesOfAll(vs), 1 + |vs|
  {
    hide Encode, Height, Size, Fits;
    if vs != [] {
      EncodesIff(vs[0], depth);
      EncodeAllIff(vs[1..], depth);
    }
  }

  // ----- whole payloads

  /** Lengths that do not fit take more room than any payload has. */
  lemma {:induction false} SmallFits(v: ReplValue)
    ensures Size(v) < U32_SIZE ==> Fits(v)
    decreases Nodes(v), 0
  {
    hide Children;
    NodesOfChildren(v);
    HeadFacts(v);
    ChildrenSmaller(v);
    SmallAllFit(Children(v));
  }

  lemma ChildrenSmaller(v: ReplValue)
    ensures SizeOfAll(Children(v)) <= Size(v) && (Size(v) < U32_SIZE ==> Countable(v))
  {
  }

  lemma {:induction false} SmallAllFit(vs: seq<ReplValue>)
    ensures SizeOfAll(vs) < U32_SIZE ==> AllFit(vs)
    decreases NodesOfAll(vs), 1 + |vs|
  {
    hide Size, Fits;
    if vs != [] {
      SmallFits(vs[0]);
      SmallAllFit(vs[1..]);
    }
  }

  /** Saved locals are encoded exactly when none is deeper than 32 collections and all take at most 128 KiB together
      with magic and count; otherwise the error tells which of the two it is, depth before size. */
  lemma StateEncodesIff(locals: seq<ReplValue>)
    ensures EncodeState(locals).Ok? <==> MaxHeight(locals) <= 32 && 8 + SizeOfAll(locals) <= 131072
    ensures EncodeState(locals).Ok? ==> |EncodeState(locals).value| == 8 + SizeOfAll(locals)
    ensures EncodeState(locals).Err? && AllFit(locals) && |locals| < U32_SIZE ==>
              EncodeState(locals) == Err(if MaxHeight(locals) > 32 then NestingTooDeep else LengthOverflow)
  {
    hide EncodeAll, AllFit, SizeOfAll, MaxHeight, LeU32;
    EncodeAllIff(locals, 0);
    SmallAllFit(locals);
    MaxHeightOfNone(locals);
  }

  lemma MaxHeightOfNone(vs: seq<ReplValue>)
    ensures vs == [] ==> MaxHeight(vs) == 0 && SizeOfAll(vs) == 0
  {
  }

  function SizeOfResult(result: Option<ReplValue>): nat { if result.Some? then 1 + Size(result.value) else 1 }

  function HeightOfResult(result: Option<ReplValue>): nat { if result.Some? then Height(result.value) else 0 }

  /** The same for responses, locals and result together. */
  lemma ResponseEncodesIff(response: ReplResponse)
    ensures var height, size := MaxHeight(response.locals), SizeOfAll(response.locals);
            EncodeResponse(response).Ok? <==>
              height <= 32 && HeightOfResult(response.result) <= 32 &&
              8 + size + SizeOfResult(response.result) <= 131072
    ensures EncodeResponse(response).Ok? ==>
              |EncodeResponse(response).value| == 8 + SizeOfAll(response.locals) + SizeOfResult(response.result)
    ensures EncodeResponse(response).Err? && AllFit(response.locals) && |response.locals| < U32_SIZE &&
            (response.result.Some? ==> Fits(response.result.value)) ==>
              EncodeResponse(response)
              == Err(if MaxHeight(response.locals) > 32 || HeightOfResult(response.result) > 32
                     then NestingTooDeep else LengthOverflow)
  {
    hide Encode, EncodeAll, AllFit, Fits, Size, SizeOfAll, Height, MaxHeight, LeU32;
    EncodeAllIff(response.locals, 0);
    SmallAllFit(response.locals);
    MaxHeightOfNone(response.locals);
    if response.result.Some? {
      EncodesIff(response.result.value, 0);
      SmallFits(response.result.value);
    }
  }

  // ----- the bytes themselves

  /** What the bytes of an encoded value say, tag by tag. */
  lemma Layout(v: ReplValue, depth: nat)
    requires Encode(v, depth).Ok?
    ensures var e := Encode(v, depth).value;
            match v
            case Null => e == [0]
            case Int(x) => |e| == 9 && e[0] == 1 && (ReadU64(e[1..]) - x) % U64_SIZE == 0
            case Float(bits) => |e| == 9 && e[0] == 2 && ReadU64(e[1..]) == bits
            case Bool(b) => e == [3, if b then 1 else 0]
            case String(text) => |e| == 5 + |text| && e[0] == 4 && ReadU32(e[1..5]) == |text| && e[5..] == text
            case Bytes(data) => |e| == 5 + |data| && e[0] == 5 && ReadU32(e[1..5]) == |data| && e[5..] == data
            case Array(values) =>
              |e| >= 5 && e[0] == 6 && ReadU32(e[1..5]) == |values| && EncodeAll(values, depth + 1) == Ok(e[5..])
            case Map(entries) =>
              |e| >= 5 && e[0] == 7 && ReadU32(e[1..5]) == |entries| &&
              EncodeAll(Flatten(entries), depth + 1) == Ok(e[5..])
  {
    hide LeU32, LeU64, ReadU32, ReadU64, EncodeAll, Nodes;
    var e := Encode(v, depth).value;
    NoChildren(v, depth);
    match v
    case Null =>
    case Int(x) => assert e == [1] + LeU64(I64Bits(x)); assert e[1..] == LeU64(I64Bits(x)); U64RoundTrip(I64Bits(x));
    case Float(bits) => assert e == [2] + LeU64(bits); assert e[1..] == LeU64(bits); U64RoundTrip(bits);
    case Bool(b) =>
    case String(text) => BlobLayout(e, 4, text);
    case Bytes(data) => BlobLayout(e, 5, data);
    case Array(values) => CountLayout(e, 6, |values|, EncodeAll(values, depth + 1).value);
    case Map(entries) => CountLayout(e, 7, |entries|, EncodeAll(Flatten(entries), depth + 1).value);
  }

  lemma BlobLayout(e: seq<byte>, tag: byte, blob: seq<byte>)
    requires |blob| < U32_SIZE && e == [tag] + LeU32(|blob|) + blob + []
    ensures |e| == 5 + |blob| && e[0] == tag && ReadU32(e[1..5]) == |blob| && e[5..] == blob
  {
    hide LeU32, ReadU32;
    assert e[1..5] == LeU32(|blob|);
    U32RoundTrip(|blob|);
  }

  lemma CountLayout(e: seq<byte>, tag: byte, count: u32, rest: seq<byte>)
    requires e == [tag] + LeU32(count) + rest
    ensures |e| >= 5 && e[0] == tag && ReadU32(e[1..5]) == count && e[5..] == rest
  {
    hide LeU32, ReadU32;
    assert e[1..5] == LeU32(count);
    U32RoundTrip(count);
  }

  /** The elements follow one another. */
  lemma {:induction false} ElementsFollow(vs: seq<ReplValue>, depth: nat, i: nat)
    requires EncodeAll(vs, depth).Ok? && i < |vs|
    ensures AllFit(vs) && Encode(vs[i], depth).Ok?
    ensures SizeOfAll(vs[..i]) + Size(vs[i]) <= |EncodeAll(vs, depth).value|
    ensures StandsAt(EncodeAll(vs, depth).value, SizeOfAll(vs[..i]), Encode(vs[i], depth).value)
    decreases i
  {
    hide Encode, Size, Fits, StandsAt;
    EncodeAllIff(vs, depth);
    EncodesIff(vs[0], depth);
    var first, rest := Encode(vs[0], depth).value, EncodeAll(vs[1..], depth).value;
    if i == 0 {
      assert vs[..0] == [];
      StandsFirst(first, rest);
    } else {
      ElementsFollow(vs[1..], depth, i - 1);
      assert vs[..i][1..] == vs[1..][..i - 1];
      StandsBehind(first, rest, SizeOfAll(vs[1..][..i - 1]), Encode(vs[i], depth).value);
    }
  }

  lemma StandsFirst(a: seq<byte>, b: seq<byte>)
    ensures StandsAt(a + b, 0, a)
  {
  }

  lemma StandsBehind(a: seq<byte>, b: seq<byte>, offset: nat, e: seq<byte>)
    requires StandsAt(b, offset, e)
    ensures StandsAt(a + b, |a| + offset, e)
  {
    assert (a + b)[|a| + offset..|a| + offset + |e|] == b[offset..offset + |e|];
  }

  // ----- what the decoder refuses, and how

  /** The bytes from `i` on start no value, for the given reason. */
  predicate Faulty(input: Input, i: nat, error: WireError)
    requires i <= |input.bytes|
  {
    var rest := input.bytes[i..];
    match error
    case InvalidTag(tag) => rest != [] && rest[0] == tag && tag > 7
    case InvalidBool(value) => |rest| >= 2 && rest[0] == 3 && rest[1] == value && value > 1
    case InvalidUtf8 =>
      |rest| >= 5 && rest[0] == 4 && |rest| >= 5 + ReadU32(rest[1..5]) &&
      !ValidUtf8(rest[5..5 + ReadU32(rest[1..5])])
    case LengthOverflow =>
      |rest| >= 5 &&
      (((rest[0] == 4 || rest[0] == 5) && i + 5 + ReadU32(rest[1..5]) > input.usizeMax) ||
       (rest[0] == 6 && ReadU32(rest[1..5]) > |rest| - 5) ||
       (rest[0] == 7 && 2 * ReadU32(rest[1..5]) > |rest| - 5))
    case UnexpectedEnd =>
      || rest == []
      || ((rest[0] == 1 || rest[0] == 2) && |rest| < 9)
      || (rest[0] == 3 && |rest| < 2)
      || (4 <= rest[0] <= 7 && |rest| < 5)
      || ((rest[0] == 4 || rest[0] == 5) && |rest| >= 5 && |rest| < 5 + ReadU32(rest[1..5]) &&
          i + 5 + ReadU32(rest[1..5]) <= input.usizeMax)
    case _ => false
  }

  lemma FaultyTagged(input: Input, at: Cursor, error: WireError)
    requires input.usizeMax >= |input.bytes| + 9 && 0 < at.offset <= |input.bytes|
    requires Faulty(input, at.offset - 1, error)
    ensures DecodeTagged(input, at, input.bytes[at.offset - 1]).result == Err(error)
  {
    hide ValidUtf8, ReadU32, ReadU64;
    var rest := input.bytes[at.offset - 1..];
    if |rest| >= 5 { assert rest[1..5] == input.bytes[at.offset..at.offset + 4]; }
    if error.InvalidUtf8? {
      var n := ReadU32(rest[1..5]);
      assert rest[5..5 + n] == input.bytes[at.offset + 4..at.offset + 4 + n];
    }
  }

  lemma FaultyValue(input: Input, at: Cursor, depth: nat, error: WireError)
    requires input.usizeMax >= |input.bytes| + 9 && at.offset <= |input.bytes|
    requires Faulty(input, at.offset, error) && at.nodes < MAX_VALUE_NODES && depth <= MAX_NESTING
    ensures Decode(input, at, depth).result == Err(error)
  {
    hide DecodeTagged, ReadU32;
    if at.offset < |input.bytes| { FaultyTagged(input, Cursor(at.offset + 1, at.nodes + 1), error); }
  }

  /** Behind whole values, the first one that does not decode gives its error to the sequence. */
  lemma {:induction false} FirstFault(input: Input, at: Cursor, vs: seq<ReplValue>, count: nat, depth: nat)
    requires input.usizeMax >= |input.bytes| && |vs| < count
    requires EncodeAll(vs, depth).Ok? && StandsAt(input.bytes, at.offset, EncodeAll(vs, depth).value)
    requires at.nodes + NodesOfAll(vs) <= MAX_VALUE_NODES
    requires var next := Cursor(at.offset + |EncodeAll(vs, depth).value|, at.nodes + NodesOfAll(vs));
             Decode(input, next, depth).result.Err?
    ensures var next := Cursor(at.offset + |EncodeAll(vs, depth).value|, at.nodes + NodesOfAll(vs));
            DecodeAll(input, at, count, depth).result == Err(Decode(input, next, depth).result.error)
    decreases |vs|
  {
    hide Encode, Decode, Nodes;
    if vs != [] {
      var first, rest := Encode(vs[0], depth).value, EncodeAll(vs[1..], depth).value;
      StandsAtParts(input.bytes, at.offset, first, rest);
      DecodeComplete(input, at, vs[0], depth);
      FirstFault(input, Cursor(at.offset + |first|, at.nodes + Nodes(vs[0])), vs[1..], count - 1, depth);
    }
  }

  /** A payload of saved locals whose first values are in order and whose next one is faulty is refused for that
      fault. */
  lemma StateFault(input: Input, count: u32, vs: seq<ReplValue>, rest: seq<byte>, error: WireError)
    requires input.Valid() && |input.bytes| <= 131072 && EncodeAll(vs, 0).Ok?
    requires input.bytes == [0x52, 0x53, 0x52, 0x31] + LeU32(count) + EncodeAll(vs, 0).value + rest
    requires |vs| < count <= |input.bytes| - 8 && NodesOfAll(vs) < 4096
    requires Faulty(input, 8 + |EncodeAll(vs, 0).value|, error)
    ensures DecodeState(input) == Err(error)
  {
    hide EncodeAll, DecodeAll, Decode, NodesOfAll, LeU32, ReadU32, Faulty;
    var body := EncodeAll(vs, 0).value;
    assert input.bytes[..4] == [0x52, 0x53, 0x52, 0x31] && input.bytes[0..4] == input.bytes[..4];
    assert input.bytes[4..8] == LeU32(count);
    U32RoundTrip(count);
    assert input.bytes[8..8 + |body|] == body;
    FaultyValue(input, Cursor(8 + |body|, NodesOfAll(vs)), 0, error);
    FirstFault(input, Cursor(8, 0), vs, count, 0);
  }

  /** Collections of one element around a null, `k` of them. */
  function Nested(k: nat): (s: seq<byte>)
    ensures |s| == 5 * k + 1
  {
    if k == 0 then [0] else [6, 1, 0, 0, 0] + Nested(k - 1)
  }

  /** More than 32 of them are refused as too deep. */
  lemma {:induction false} NestedTooDeep(input: Input, at: Cursor, k: nat, depth: nat)
    requires input.usizeMax >= |input.bytes| && StandsAt(input.bytes, at.offset, Nested(k))
    requires depth <= 33 && depth + k > 32 && at.nodes + 34 - depth <= 4096
    ensures Decode(input, at, depth).result == Err(NestingTooDeep)
    decreases k
  {
    hide DecodeHead, Fill;
    if depth <= 32 {
      var head: seq<byte> := [6, 1, 0, 0, 0];
      StandsAtParts(input.bytes, at.offset, head, Nested(k - 1));
      OneElement(input, at.(nodes := at.nodes + 1));
      NestedTooDeep(input, Cursor(at.offset + 5, at.nodes + 1), k - 1, depth + 1);
    }
  }

  lemma OneElement(input: Input, at: Cursor)
    requires input.usizeMax >= |input.bytes| && StandsAt(input.bytes, at.offset, [6, 1, 0, 0, 0])
    requires at.offset + 5 < |input.bytes|
    ensures DecodeHead(input, at) == Decoded(Ok(Open(false, 1)), Cursor(at.offset + 5, at.nodes))
  {
    var size := input.bytes[at.offset + 1..at.offset + 5];
    assert size == input.bytes[at.offset..at.offset + 5][1..5] == [1, 0, 0, 0];
    LittleEndian32(size);
    assert input.bytes[at.offset] == input.bytes[at.offset..at.offset + 5][0];
  }

  /** Behind the locals of a response the flag of the result is zero or one. */
  lemma ResponseFlagFault(input: Input, locals: seq<ReplValue>, flag: byte, rest: seq<byte>)
    requires input.Valid() && |input.bytes| <= 131072 && EncodeList(RESPONSE_MAGIC, locals).Ok? && flag > 1
    requires input.bytes == EncodeList(RESPONSE_MAGIC, locals).value + [flag] + rest && NodesOfAll(locals) <= 4096
    ensures DecodeResponse(input) == Err(InvalidBool(flag))
  {
    hide EncodeList, DecodeList, NodesOfAll;
    var list := EncodeList(RESPONSE_MAGIC, locals).value;
    assert input.bytes[0..|list|] == list && input.bytes[|list|..|list| + 1] == [flag];
    ListComplete(input, RESPONSE_MAGIC, locals);
  }

  /** What is wrong with a payload before its first value. */
  lemma StateHeaderFault(input: Input)
    requires input.Valid()
    ensures |input.bytes| > 131072 ==> DecodeState(input) == Err(LengthOverflow)
    ensures |input.bytes| < 4 ==> DecodeState(input) == Err(UnexpectedEnd)
    ensures 4 <= |input.bytes| <= 131072 && input.bytes[..4] != [0x52, 0x53, 0x52, 0x31] ==>
              DecodeState(input) == Err(InvalidMagic)
    ensures 4 <= |input.bytes| < 8 && input.bytes[..4] == [0x52, 0x53, 0x52, 0x31] ==>
              DecodeState(input) == Err(UnexpectedEnd)
    ensures 8 <= |input.bytes| <= 131072 && input.bytes[..4] == [0x52, 0x53, 0x52, 0x31] &&
            ReadU32(input.bytes[4..8]) > |input.bytes| - 8 ==>
              DecodeState(input) == Err(LengthOverflow)
  {
    hide DecodeAll, ReadU32;
    if |input.bytes| >= 4 { assert input.bytes[0..4] == input.bytes[..4]; }
  }
}
