/** The tagged value format of the REPL: values, what the encoder writes and what the decoder accepts. */
module Wire {
  import opened Bytes
  import opened Results

  const MAX_NESTING: nat := 32
  const MAX_WIRE_BYTES: nat := 128 * 1024
  const MAX_VALUE_NODES: nat := 4096
  const STATE_MAGIC: seq<byte> := [0x52, 0x53, 0x52, 0x31]     // RSR1
  const RESPONSE_MAGIC: seq<byte> := [0x52, 0x53, 0x4f, 0x31]  // RSO1

  /** Well-formed UTF-8: the byte ranges of table 3-7 of the Unicode Standard. */
  predicate ValidUtf8(s: seq<byte>)
    decreases |s|
  {
    || s == []
    || (s[0] < 0x80 && ValidUtf8(s[1..]))
    || (|s| >= 2 && 0xc2 <= s[0] <= 0xdf && IsTail(s[1]) && ValidUtf8(s[2..]))
    || (|s| >= 3 && 0xe0 <= s[0] <= 0xef && IsTail(s[1]) && IsTail(s[2])
        && (s[0] == 0xe0 ==> 0xa0 <= s[1]) && (s[0] == 0xed ==> s[1] <= 0x9f) && ValidUtf8(s[3..]))
    || (|s| >= 4 && 0xf0 <= s[0] <= 0xf4 && IsTail(s[1]) && IsTail(s[2]) && IsTail(s[3])
        && (s[0] == 0xf0 ==> 0x90 <= s[1]) && (s[0] == 0xf4 ==> s[1] <= 0x8f) && ValidUtf8(s[4..]))
  }

  predicate IsTail(b: byte) { 0x80 <= b <= 0xbf }

  type Utf8 = s: seq<byte> | ValidUtf8(s) witness []

  /** A float is its 64-bit pattern, which is what the codec carries. */
  datatype ReplValue =
    | Null
    | Int(number: i64)
    | Float(bits: u64)
    | Bool(truth: bool)
    | String(text: Utf8)
    | Bytes(data: seq<byte>)
    | Array(values: seq<ReplValue>)
    | Map(entries: seq<(ReplValue, ReplValue)>)

  datatype ReplResponse = ReplResponse(locals: seq<ReplValue>, result: Option<ReplValue>)

  datatype WireError =
    | InvalidMagic
    | InvalidTag(tag: byte)
    | InvalidBool(value: byte)
    | InvalidUtf8
    | UnexpectedEnd
    | TrailingData
    | LengthOverflow
    | NestingTooDeep

  type WireResult<+T> = Result<T, WireError>

  // ----- the children of a value, in the order both sides visit them

  /** Keys and values of a map, alternating. */
  function Flatten(entries: seq<(ReplValue, ReplValue)>): (vs: seq<ReplValue>)
    ensures |vs| == 2 * |entries|
  {
    if entries == [] then [] else [entries[0].0, entries[0].1] + Flatten(entries[1..])
  }

  lemma {:induction false} FlattenAt(entries: seq<(ReplValue, ReplValue)>, i: nat)
    requires i < |entries|
    ensures Flatten(entries)[2 * i] == entries[i].0 && Flatten(entries)[2 * i + 1] == entries[i].1
    decreases i
  {
    if i > 0 { FlattenAt(entries[1..], i - 1); }
  }

  function Pair(vs: seq<ReplValue>): (entries: seq<(ReplValue, ReplValue)>)
    requires |vs| % 2 == 0
    ensures 2 * |entries| == |vs|
  {
    if vs == [] then [] else [(vs[0], vs[1])] + Pair(vs[2..])
  }

  lemma {:induction false} PairFlatten(entries: seq<(ReplValue, ReplValue)>)
    ensures Pair(Flatten(entries)) == entries
  {
    if entries != [] {
      assert Flatten(entries)[2..] == Flatten(entries[1..]);
      PairFlatten(entries[1..]);
      assert entries == [entries[0]] + entries[1..];
    }
  }

  lemma {:induction false} FlattenPair(vs: seq<ReplValue>)
    requires |vs| % 2 == 0
    ensures Flatten(Pair(vs)) == vs
  {
    if vs != [] {
      assert Pair(vs)[1..] == Pair(vs[2..]);
      FlattenPair(vs[2..]);
      assert vs == [vs[0], vs[1]] + vs[2..];
    }
  }

  function Children(v: ReplValue): seq<ReplValue>
  {
    match v
    case Array(values) => values
    case Map(entries) => Flatten(entries)
    case _ => []
  }

  /** How many values a tree holds, itself included: what the decoder's node budget counts. */
  function Nodes(v: ReplValue): (n: nat)
    ensures n >= 1
    decreases v, 0
  {
    match v
    case Array(values) => 1 + NodesOfAll(values)
    case Map(entries) => 1 + NodesOfEntries(entries)
    case _ => 1
  }

  function NodesOfAll(vs: seq<ReplValue>): (n: nat)
    ensures n >= |vs|
    decreases vs, 1
  {
    if vs == [] then 0 else Nodes(vs[0]) + NodesOfAll(vs[1..])
  }

  function NodesOfEntries(entries: seq<(ReplValue, ReplValue)>): (n: nat)
    ensures n >= 2 * |entries|
    decreases entries, 1
  {
    if entries == [] then 0 else NodesOfEntry(entries[0]) + NodesOfEntries(entries[1..])
  }

  function NodesOfEntry(entry: (ReplValue, ReplValue)): (n: nat)
    ensures n >= 2
    decreases entry, 2
  {
    Nodes(entry.0) + Nodes(entry.1)
  }

  lemma {:induction false} NodesOfFlatten(entries: seq<(ReplValue, ReplValue)>)
    ensures NodesOfAll(Flatten(entries)) == NodesOfEntries(entries)
  {
    if entries != [] {
      var vs := Flatten(entries);
      assert vs[1..][1..] == Flatten(entries[1..]);
      NodesOfFlatten(entries[1..]);
    }
  }

  lemma NodesOfChildren(v: ReplValue)
    ensures Nodes(v) == 1 + NodesOfAll(Children(v))
  {
    if v.Map? { NodesOfFlatten(v.entries); }
  }

  // ----- what the encoder writes

  /** The tag of a value with its scalar payload or its element count; `None` when a length does not fit 32 bits. */
  function Head(v: ReplValue): (h: Option<seq<byte>>)
    ensures h.Some? ==> |h.value| >= 1
  {
    match v
    case Null => Some([0])
    case Int(x) => Some([1] + LeU64(I64Bits(x)))
    case Float(bits) => Some([2] + LeU64(bits))
    case Bool(b) => Some([3, if b then 1 else 0])
    case String(text) => if |text| < U32_SIZE then Some([4] + LeU32(|text|) + text) else None
    case Bytes(bytes) => if |bytes| < U32_SIZE then Some([5] + LeU32(|bytes|) + bytes) else None
    case Array(values) => if |values| < U32_SIZE then Some([6] + LeU32(|values|)) else None
    case Map(entries) => if |entries| < U32_SIZE then Some([7] + LeU32(|entries|)) else None
  }

  function Prepend(s: seq<byte>, r: WireResult<seq<byte>>): WireResult<seq<byte>>
  {
    if r.Ok? then Ok(s + r.value) else r
  }

  function Encode(v: ReplValue, depth: nat): WireResult<seq<byte>>
    decreases Nodes(v), 0
  {
    NodesOfChildren(v);
    if depth > MAX_NESTING then Err(NestingTooDeep)
    else if Head(v).None? then Err(LengthOverflow)
    else Prepend(Head(v).value, EncodeAll(Children(v), depth + 1))
  }

  function EncodeAll(vs: seq<ReplValue>, depth: nat): WireResult<seq<byte>>
    decreases NodesOfAll(vs), 1 + |vs|
  {
    if vs == [] then Ok([])
    else
      var first :- Encode(vs[0], depth);
      Prepend(first, EncodeAll(vs[1..], depth))
  }

  function EnsureWireSize(r: WireResult<seq<byte>>): WireResult<seq<byte>>
  {
    if r.Ok? && |r.value| > MAX_WIRE_BYTES then Err(LengthOverflow) else r
  }

  function EncodeList(magic: seq<byte>, locals: seq<ReplValue>): WireResult<seq<byte>>
  {
    if |locals| < U32_SIZE then Prepend(magic + LeU32(|locals|), EncodeAll(locals, 0))
    else Err(LengthOverflow)
  }

  function EncodeState(locals: seq<ReplValue>): WireResult<seq<byte>>
  {
    EnsureWireSize(EncodeList(STATE_MAGIC, locals))
  }

  function EncodeResult(result: Option<ReplValue>): WireResult<seq<byte>>
  {
    if result.None? then Ok([0]) else Prepend([1], Encode(result.value, 0))
  }

  function EncodeResponse(response: ReplResponse): WireResult<seq<byte>>
  {
    var locals :- EncodeList(RESPONSE_MAGIC, response.locals);
    EnsureWireSize(Prepend(locals, EncodeResult(response.result)))
  }

  // ----- what the decoder accepts

  /** The bytes to decode and the largest `usize` of the machine that decodes them. */
  datatype Input = Input(bytes: seq<byte>, usizeMax: nat) {
    /** `usize` has at least 32 bits on the host and on the device. */
    predicate Valid() { usizeMax >= U32_SIZE - 1 }
  }

  datatype Cursor = Cursor(offset: nat, nodes: nat)

  /** A result together with where the decoder stands, also after an error. */
  datatype Decoded<+T> = Decoded(result: WireResult<T>, at: Cursor) {
    predicate IsFailure() { result.Err? }

    function PropagateFailure<U>(): Decoded<U>
      requires result.Err?
    {
      Decoded(Err(result.error), at)
    }

    function Extract(): (T, Cursor)
      requires result.Ok?
    {
      (result.value, at)
    }
  }

  function Remaining(input: Input, at: Cursor): nat
  {
    if at.offset <= |input.bytes| then |input.bytes| - at.offset else 0
  }

  function ReadExact(input: Input, at: Cursor, length: nat): Decoded<seq<byte>>
  {
    var end := at.offset + length;
    if end > input.usizeMax then Decoded(Err(LengthOverflow), at)
    else if end > |input.bytes| then Decoded(Err(UnexpectedEnd), at)
    else Decoded(Ok(input.bytes[at.offset..end]), at.(offset := end))
  }

  function ReadLen(input: Input, at: Cursor): Decoded<u32>
  {
    var (bytes, at) :- ReadExact(input, at, 4);
    Decoded(Ok(ReadU32(bytes)), at)
  }

  /** A whole scalar, or a collection with its element count still to be filled. */
  datatype HeadValue = Leaf(value: ReplValue) | Open(isMap: bool, count: nat)

  function ChildCount(h: HeadValue): nat
  {
    match h
    case Leaf(_) => 0
    case Open(isMap, count) => if isMap then 2 * count else count
  }

  predicate IsLeaf(v: ReplValue) { !v.Array? && !v.Map? }

  function HeadOf(v: ReplValue): HeadValue
  {
    match v
    case Array(values) => Open(false, |values|)
    case Map(entries) => Open(true, |entries|)
    case _ => Leaf(v)
  }

  function Fill(h: HeadValue, children: seq<ReplValue>): ReplValue
    requires |children| == ChildCount(h)
  {
    match h
    case Leaf(v) => v
    case Open(isMap, count) => if isMap then Map(Pair(children)) else Array(children)
  }

  lemma FillChildren(v: ReplValue)
    ensures ChildCount(HeadOf(v)) == |Children(v)|
    ensures Fill(HeadOf(v), Children(v)) == v
  {
    if v.Map? { PairFlatten(v.entries); }
  }

  lemma ChildrenOfFill(h: HeadValue, children: seq<ReplValue>)
    requires |children| == ChildCount(h)
    requires h.Leaf? ==> IsLeaf(h.value)
    ensures HeadOf(Fill(h, children)) == h
    ensures Children(Fill(h, children)) == children
  {
    if h.Open? && h.isMap { FlattenPair(children); }
  }

  function DecodeWord(input: Input, at: Cursor): Decoded<u64>
  {
    var (bytes, at) :- ReadExact(input, at, 8);
    Decoded(Ok(ReadU64(bytes)), at)
  }

  function DecodeBlob(input: Input, at: Cursor): Decoded<seq<byte>>
  {
    var (length, at) :- ReadLen(input, at);
    ReadExact(input, at, length)
  }

  function DecodeCount(input: Input, at: Cursor, isMap: bool): Decoded<HeadValue>
  {
    var (count, at) :- ReadLen(input, at);
    if count > (if isMap then Remaining(input, at) / 2 else Remaining(input, at))
    then Decoded(Err(LengthOverflow), at)
    else Decoded(Ok(Open(isMap, count)), at)
  }

  function DecodeTagged(input: Input, at: Cursor, tag: byte): Decoded<HeadValue>
  {
    match tag
    case 0 =>
      Decoded(Ok(Leaf(Null)), at)
    case 1 =>
      var (word, at) :- DecodeWord(input, at);
      Decoded(Ok(Leaf(Int(I64FromBits(word)))), at)
    case 2 =>
      var (word, at) :- DecodeWord(input, at);
      Decoded(Ok(Leaf(Float(word))), at)
    case 3 =>
      var (flag, at) :- ReadExact(input, at, 1);
      Decoded(if flag[0] <= 1 then Ok(Leaf(Bool(flag[0] == 1))) else Err(InvalidBool(flag[0])), at)
    case 4 =>
      var (text, at) :- DecodeBlob(input, at);
      Decoded(if ValidUtf8(text) then Ok(Leaf(String(text))) else Err(InvalidUtf8), at)
    case 5 =>
      var (data, at) :- DecodeBlob(input, at);
      Decoded(Ok(Leaf(Bytes(data))), at)
    case 6 =>
      DecodeCount(input, at, false)
    case 7 =>
      DecodeCount(input, at, true)
    case _ =>
      Decoded(Err(InvalidTag(tag)), at)
  }

  function DecodeHead(input: Input, at: Cursor): Decoded<HeadValue>
  {
    var (tag, at) :- ReadExact(input, at, 1);
    DecodeTagged(input, at, tag[0])
  }

  lemma DecodeHeadAdvances(input: Input, at: Cursor)
    ensures var d := DecodeHead(input, at);
            d.at.nodes == at.nodes && at.offset <= d.at.offset &&
            (at.offset <= |input.bytes| ==> d.at.offset <= |input.bytes|) &&
            (d.result.Ok? ==> at.offset < d.at.offset <= |input.bytes|)
  {
  }

  function Decode(input: Input, at: Cursor, depth: nat): (d: Decoded<ReplValue>)
    ensures at.offset <= d.at.offset && at.nodes <= d.at.nodes
    ensures d.result.Ok? ==> at.offset < d.at.offset <= |input.bytes|
    decreases if at.offset <= |input.bytes| then |input.bytes| - at.offset else 0, 0, 0
  {
    DecodeHeadAdvances(input, at.(nodes := at.nodes + 1));
    var at := at.(nodes := at.nodes + 1);
    if at.nodes > MAX_VALUE_NODES then Decoded(Err(LengthOverflow), at)
    else if depth > MAX_NESTING then Decoded(Err(NestingTooDeep), at)
    else
      var (head, at) :- DecodeHead(input, at);
      var (children, at) :- DecodeAll(input, at, ChildCount(head), depth + 1);
      Decoded(Ok(Fill(head, children)), at)
  }

  function DecodeAll(input: Input, at: Cursor, count: nat, depth: nat): (d: Decoded<seq<ReplValue>>)
    ensures at.offset <= d.at.offset && at.nodes <= d.at.nodes
    ensures d.result.Ok? ==> |d.result.value| == count
    ensures d.result.Ok? && at.offset <= |input.bytes| ==> d.at.offset <= |input.bytes|
    decreases if at.offset <= |input.bytes| then |input.bytes| - at.offset else 0, 1, count
  {
    if count == 0 then Decoded(Ok([]), at)
    else
      var (first, at) :- Decode(input, at, depth);
      var (rest, at) :- DecodeAll(input, at, count - 1, depth);
      Decoded(Ok([first] + rest), at)
  }

  function ExpectMagic(input: Input, at: Cursor, magic: seq<byte>): Decoded<()>
  {
    var (found, at) :- ReadExact(input, at, |magic|);
    Decoded(if found == magic then Ok(()) else Err(InvalidMagic), at)
  }

  function DecodeList(input: Input, at: Cursor, magic: seq<byte>): Decoded<seq<ReplValue>>
  {
    var (_, at) :- ExpectMagic(input, at, magic);
    var (count, at) :- ReadLen(input, at);
    if count > Remaining(input, at) then Decoded(Err(LengthOverflow), at)
    else DecodeAll(input, at, count, 0)
  }

  function DecodeResult(input: Input, at: Cursor): Decoded<Option<ReplValue>>
  {
    var (flag, at) :- ReadExact(input, at, 1);
    match flag[0]
    case 0 =>
      Decoded(Ok(None), at)
    case 1 =>
      var (value, at) :- Decode(input, at, 0);
      Decoded(Ok(Some(value)), at)
    case b =>
      Decoded(Err(InvalidBool(b)), at)
  }

  function Finish(input: Input, at: Cursor): WireResult<()>
  {
    if at.offset == |input.bytes| then Ok(()) else Err(TrailingData)
  }

  function DecodeState(input: Input): WireResult<seq<ReplValue>>
  {
    if |input.bytes| > MAX_WIRE_BYTES then Err(LengthOverflow)
    else
      var d := DecodeList(input, Cursor(0, 0), STATE_MAGIC);
      var locals :- d.result;
      var _ :- Finish(input, d.at);
      Ok(locals)
  }

  function DecodeResponse(input: Input): WireResult<ReplResponse>
  {
    if |input.bytes| > MAX_WIRE_BYTES then Err(LengthOverflow)
    else
      var d := DecodeList(input, Cursor(0, 0), RESPONSE_MAGIC);
      var locals :- d.result;
      var r := DecodeResult(input, d.at);
      var result :- r.result;
      var _ :- Finish(input, r.at);
      Ok(ReplResponse(locals, result))
  }
}
