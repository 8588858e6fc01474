/** Encoder and decoder of the REPL value format are inverse to each other, exactly within the node budget. */
module WireTheorems {
  import opened Bytes
  import opened Results
  import opened Wire

  /** The bytes `e` stand at `offset`. */
  predicate StandsAt(s: seq<byte>, offset: nat, e: seq<byte>)
  {
    offset + |e| <= |s| && s[offset..offset + |e|] == e
  }

  lemma StandsAtParts(s: seq<byte>, offset: nat, a: seq<byte>, b: seq<byte>)
    ensures StandsAt(s, offset, a + b) <==> StandsAt(s, offset, a) && StandsAt(s, offset + |a|, b)
  {
    var c := a + b;
    if StandsAt(s, offset, c) {
      assert s[offset..offset + |a|] == c[..|a|] == a;
      assert s[offset + |a|..offset + |a| + |b|] == c[|a|..] == b;
    }
    if StandsAt(s, offset, a) && StandsAt(s, offset + |a|, b) {
      assert s[offset..offset + |c|] == s[offset..offset + |a|] + s[offset + |a|..offset + |a| + |b|];
    }
  }

  lemma SignedRoundTrips(x: i64, w: u64)
    ensures I64FromBits(I64Bits(x)) == x
    ensures I64Bits(I64FromBits(w)) == w
  {
  }

  // ----- decoding then encoding

  lemma BlobSound(input: Input, at: Cursor)
    requires DecodeBlob(input, at).result.Ok? && at.offset <= |input.bytes|
    ensures var d := DecodeBlob(input, at);
            |d.result.value| < U32_SIZE && d.at.nodes == at.nodes &&
            StandsAt(input.bytes, at.offset, LeU32(|d.result.value|) + d.result.value) &&
            d.at.offset == at.offset + 4 + |d.result.value|
  {
    hide LeU32, ReadU32;
    var d := DecodeBlob(input, at);
    var size := input.bytes[at.offset..at.offset + 4];
    U32Canonical(size);
    StandsAtParts(input.bytes, at.offset, size, d.result.value);
  }

  lemma CountSound(input: Input, at: Cursor, isMap: bool)
    requires DecodeCount(input, at, isMap).result.Ok? && at.offset <= |input.bytes|
    ensures var d := DecodeCount(input, at, isMap);
            d.result.value.Open? && d.result.value.isMap == isMap && d.result.value.count < U32_SIZE &&
            StandsAt(input.bytes, at.offset, LeU32(d.result.value.count)) &&
            d.at == Cursor(at.offset + 4, at.nodes)
  {
    U32Canonical(input.bytes[at.offset..at.offset + 4]);
  }

  lemma WordSound(input: Input, at: Cursor)
    requires DecodeWord(input, at).result.Ok? && at.offset <= |input.bytes|
    ensures var d := DecodeWord(input, at);
            StandsAt(input.bytes, at.offset, LeU64(d.result.value)) && d.at == Cursor(at.offset + 8, at.nodes)
  {
    U64Canonical(input.bytes[at.offset..at.offset + 8]);
  }

  lemma TaggedSound(input: Input, at: Cursor, tag: byte)
    requires DecodeTagged(input, at, tag).result.Ok? && at.offset <= |input.bytes|
    ensures var d := DecodeTagged(input, at, tag);
            at.offset <= d.at.offset <= |input.bytes| && d.at.nodes == at.nodes
    ensures var d := DecodeTagged(input, at, tag);
            match d.result.value
            case Leaf(v) => IsLeaf(v) && Head(v) == Some([tag] + input.bytes[at.offset..d.at.offset])
            case Open(isMap, count) => tag == (if isMap then 7 else 6) && count < U32_SIZE &&
                                       LeU32(count) == input.bytes[at.offset..d.at.offset]
  {
    hide DecodeBlob, DecodeWord, DecodeCount, ValidUtf8, LeU32, LeU64;
    if tag == 1 || tag == 2 {
      WordSound(input, at);
      SignedRoundTrips(0, DecodeWord(input, at).result.value);
    } else if tag == 4 || tag == 5 {
      BlobSound(input, at);
      var blob := DecodeBlob(input, at).result.value;
      assert [tag] + (LeU32(|blob|) + blob) == [tag] + LeU32(|blob|) + blob;
    } else if tag == 6 || tag == 7 {
      CountSound(input, at, tag == 7);
    } else {
      var d := DecodeTagged(input, at, tag);
      var payload := if tag == 3 then [input.bytes[at.offset]] else [];
      assert input.bytes[at.offset..d.at.offset] == payload;
      assert [tag] + payload == Head(d.result.value.value).value;
    }
  }

  lemma HeadOfFill(h: HeadValue, children: seq<ReplValue>)
    requires |children| == ChildCount(h)
    ensures h.Leaf? ==> Fill(h, children) == h.value
    ensures h.Open? && h.count < U32_SIZE ==>
              Head(Fill(h, children)) == Some([if h.isMap then 7 else 6] + LeU32(h.count))
  {
  }

  /** What `DecodeHead` accepts is the head of every value it can be filled to. */
  lemma HeadSound(input: Input, at: Cursor, children: seq<ReplValue>)
    requires DecodeHead(input, at).result.Ok? && at.offset <= |input.bytes|
    requires |children| == ChildCount(DecodeHead(input, at).result.value)
    ensures var d := DecodeHead(input, at);
            at.offset < d.at.offset <= |input.bytes| && d.at.nodes == at.nodes
    ensures var d := DecodeHead(input, at);
            var v := Fill(d.result.value, children);
            Head(v) == Some(input.bytes[at.offset..d.at.offset]) && Children(v) == children
  {
    hide DecodeTagged, Head, Fill, Children;
    var tag := input.bytes[at.offset];
    var next := at.(offset := at.offset + 1);
    TaggedSound(input, next, tag);
    var d := DecodeTagged(input, next, tag);
    assert DecodeHead(input, at) == d;
    assert input.bytes[at.offset..d.at.offset] == [tag] + input.bytes[next.offset..d.at.offset];
    ChildrenOfFill(d.result.value, children);
    HeadOfFill(d.result.value, children);
  }

  /** Whatever the decoder accepts is what the encoder would have written for the same value. */
  lemma {:induction false} DecodeSound(input: Input, at: Cursor, depth: nat)
    requires Decode(input, at, depth).result.Ok? && at.offset <= |input.bytes|
    ensures var d := Decode(input, at, depth);
            Encode(d.result.value, depth) == Ok(input.bytes[at.offset..d.at.offset]) &&
            d.at.nodes == at.nodes + Nodes(d.result.value) <= MAX_VALUE_NODES
    decreases |input.bytes| - at.offset, 0, 0
  {
    hide DecodeHead, Head, Children, HeadOf, Fill;
    var entered := at.(nodes := at.nodes + 1);
    var head := DecodeHead(input, entered);
    DecodeHeadAdvances(input, entered);
    var children := DecodeAll(input, head.at, ChildCount(head.result.value), depth + 1);
    DecodeAllSound(input, head.at, ChildCount(head.result.value), depth + 1);
    HeadSound(input, entered, children.result.value);
    var v := Fill(head.result.value, children.result.value);
    NodesOfChildren(v);
    SlicesJoin(input.bytes, at.offset, head.at.offset, children.at.offset);
  }

  lemma {:induction false} DecodeAllSound(input: Input, at: Cursor, count: nat, depth: nat)
    requires DecodeAll(input, at, count, depth).result.Ok? && at.offset <= |input.bytes|
    ensures var d := DecodeAll(input, at, count, depth);
            EncodeAll(d.result.value, depth) == Ok(input.bytes[at.offset..d.at.offset]) &&
            d.at.nodes == at.nodes + NodesOfAll(d.result.value) &&
            (count > 0 ==> d.at.nodes <= MAX_VALUE_NODES)
    decreases |input.bytes| - at.offset, 1, count
  {
    hide Decode, Encode, Nodes;
    assert input.bytes[at.offset..at.offset] == [];
    if count > 0 {
      var first := Decode(input, at, depth);
      DecodeSound(input, at, depth);
      DecodeAllSound(input, first.at, count - 1, depth);
      var rest := DecodeAll(input, first.at, count - 1, depth);
      var all := DecodeAll(input, at, count, depth);
      assert all.result.value == [first.result.value] + rest.result.value;
      SlicesJoin(input.bytes, at.offset, first.at.offset, rest.at.offset);
    }
  }

  lemma SlicesJoin(s: seq<byte>, i: nat, j: nat, k: nat)
    requires i <= j <= k <= |s|
    ensures s[i..k] == s[i..j] + s[j..k]
  {
  }

  // ----- encoding then decoding

  lemma {:induction false} EncodeAllLength(vs: seq<ReplValue>, depth: nat)
    requires EncodeAll(vs, depth).Ok?
    ensures |EncodeAll(vs, depth).value| >= |vs|
  {
    if vs != [] {
      EncodeAllLength(vs[1..], depth);
    }
  }

  lemma BlobComplete(input: Input, at: Cursor, blob: seq<byte>)
    requires input.usizeMax >= |input.bytes|
    requires |blob| < U32_SIZE && StandsAt(input.bytes, at.offset, LeU32(|blob|) + blob)
    ensures DecodeBlob(input, at) == Decoded(Ok(blob), Cursor(at.offset + 4 + |blob|, at.nodes))
  {
    U32RoundTrip(|blob|);
    StandsAtParts(input.bytes, at.offset, LeU32(|blob|), blob);
  }

  lemma WordComplete(input: Input, at: Cursor, w: u64)
    requires input.usizeMax >= |input.bytes| && StandsAt(input.bytes, at.offset, LeU64(w))
    ensures DecodeWord(input, at) == Decoded(Ok(w), Cursor(at.offset + 8, at.nodes))
  {
    U64RoundTrip(w);
  }

  lemma CountComplete(input: Input, at: Cursor, isMap: bool, count: u32)
    requires input.usizeMax >= |input.bytes| && StandsAt(input.bytes, at.offset, LeU32(count))
    requires ChildCount(Open(isMap, count)) <= |input.bytes| - (at.offset + 4)
    ensures DecodeCount(input, at, isMap) == Decoded(Ok(Open(isMap, count)), Cursor(at.offset + 4, at.nodes))
  {
    U32RoundTrip(count);
  }

  lemma TaggedComplete(input: Input, at: Cursor, v: ReplValue)
    requires input.usizeMax >= |input.bytes|
    requires Head(v).Some? && StandsAt(input.bytes, at.offset, Head(v).value[1..])
    requires |Children(v)| <= |input.bytes| - (at.offset + |Head(v).value| - 1)
    ensures DecodeTagged(input, at, Head(v).value[0])
         == Decoded(Ok(HeadOf(v)), Cursor(at.offset + |Head(v).value| - 1, at.nodes))
  {
    hide DecodeBlob, DecodeWord, DecodeCount, ValidUtf8, LeU32, LeU64;
    var payload := Head(v).value[1..];
    match v
    case Null =>
    case Int(x) => assert payload == LeU64(I64Bits(x)); WordComplete(input, at, I64Bits(x)); SignedRoundTrips(x, 0);
    case Float(bits) => assert payload == LeU64(bits); WordComplete(input, at, bits);
    case Bool(b) => assert payload == [input.bytes[at.offset]];
    case String(text) =>
      assert Head(v).value == [4] + (LeU32(|text|) + text);
      assert payload == LeU32(|text|) + text;
      BlobComplete(input, at, text);
    case Bytes(data) =>
      assert Head(v).value == [5] + (LeU32(|data|) + data);
      assert payload == LeU32(|data|) + data;
      BlobComplete(input, at, data);
    case Array(values) => assert payload == LeU32(|values|); CountComplete(input, at, false, |values|);
    case Map(entries) => assert payload == LeU32(|entries|); CountComplete(input, at, true, |entries|);
  }

  /** A head followed by at least one byte per child decodes to itself: the count guards reject no encoder output. */
  lemma HeadComplete(input: Input, at: Cursor, v: ReplValue)
    requires input.usizeMax >= |input.bytes|
    requires Head(v).Some? && StandsAt(input.bytes, at.offset, Head(v).value)
    requires |Children(v)| <= |input.bytes| - (at.offset + |Head(v).value|)
    ensures DecodeHead(input, at) == Decoded(Ok(HeadOf(v)), Cursor(at.offset + |Head(v).value|, at.nodes))
  {
    hide DecodeTagged, Head, HeadOf, Children;
    var head := Head(v).value;
    assert head == [head[0]] + head[1..];
    StandsAtParts(input.bytes, at.offset, [head[0]], head[1..]);
    TaggedComplete(input, at.(offset := at.offset + 1), v);
  }

  /** What the encoder writes is decoded back, or refused for its size alone when it exceeds the node budget. */
  lemma {:induction false} DecodeComplete(input: Input, at: Cursor, v: ReplValue, depth: nat)
    requires input.usizeMax >= |input.bytes|
    requires Encode(v, depth).Ok? && StandsAt(input.bytes, at.offset, Encode(v, depth).value)
    ensures at.nodes + Nodes(v) <= MAX_VALUE_NODES ==>
              Decode(input, at, depth)
              == Decoded(Ok(v), Cursor(at.offset + |Encode(v, depth).value|, at.nodes + Nodes(v)))
    ensures at.nodes + Nodes(v) > MAX_VALUE_NODES ==> Decode(input, at, depth).result == Err(LengthOverflow)
    decreases Nodes(v), 0
  {
    hide DecodeHead, DecodeAll, EncodeAll, Head, Children, ChildCount, HeadOf, Fill, Nodes, NodesOfAll;
    var entered := at.(nodes := at.nodes + 1);
    var children := Children(v);
    var head, tail := Head(v).value, EncodeAll(children, depth + 1).value;
    StandsAtParts(input.bytes, at.offset, head, tail);
    EncodeAllLength(children, depth + 1);
    NodesOfChildren(v);
    HeadComplete(input, entered, v);
    FillChildren(v);
    var next := Cursor(at.offset + |head|, entered.nodes);
    if entered.nodes <= MAX_VALUE_NODES {
      DecodeAllComplete(input, next, children, depth + 1);
    }
  }

  lemma {:induction false} DecodeAllComplete(input: Input, at: Cursor, vs: seq<ReplValue>, depth: nat)
    requires input.usizeMax >= |input.bytes|
    requires EncodeAll(vs, depth).Ok? && StandsAt(input.bytes, at.offset, EncodeAll(vs, depth).value)
    requires at.nodes <= MAX_VALUE_NODES
    ensures at.nodes + NodesOfAll(vs) <= MAX_VALUE_NODES ==>
              DecodeAll(input, at, |vs|, depth)
              == Decoded(Ok(vs), Cursor(at.offset + |EncodeAll(vs, depth).value|, at.nodes + NodesOfAll(vs)))
    ensures at.nodes + NodesOfAll(vs) > MAX_VALUE_NODES ==>
              DecodeAll(input, at, |vs|, depth).result == Err(LengthOverflow)
    decreases NodesOfAll(vs), 1 + |vs|
  {
    hide Decode, Encode;
    if vs != [] {
      var first, rest := Encode(vs[0], depth).value, EncodeAll(vs[1..], depth).value;
      StandsAtParts(input.bytes, at.offset, first, rest);
      DecodeComplete(input, at, vs[0], depth);
      var next := Cursor(at.offset + |first|, at.nodes + Nodes(vs[0]));
      if next.nodes <= MAX_VALUE_NODES {
        DecodeAllComplete(input, next, vs[1..], depth);
      }
      assert vs == [vs[0]] + vs[1..];
    }
  }

  // ----- whole payloads

  lemma ListComplete(input: Input, magic: seq<byte>, locals: seq<ReplValue>)
    requires input.usizeMax >= |input.bytes|
    requires EncodeList(magic, locals).Ok? && StandsAt(input.bytes, 0, EncodeList(magic, locals).value)
    ensures NodesOfAll(locals) <= MAX_VALUE_NODES ==>
              DecodeList(input, Cursor(0, 0), magic)
              == Decoded(Ok(locals), Cursor(|EncodeList(magic, locals).value|, NodesOfAll(locals)))
    ensures NodesOfAll(locals) > MAX_VALUE_NODES ==>
              DecodeList(input, Cursor(0, 0), magic).result == Err(LengthOverflow)
  {
    hide EncodeAll, DecodeAll, NodesOfAll, LeU32;
    var size, body := LeU32(|locals|), EncodeAll(locals, 0).value;
    StandsAtParts(input.bytes, 0, magic + size, body);
    StandsAtParts(input.bytes, 0, magic, size);
    U32RoundTrip(|locals|);
    EncodeAllLength(locals, 0);
    DecodeAllComplete(input, Cursor(|magic| + 4, 0), locals, 0);
  }

  lemma ListSound(input: Input, magic: seq<byte>)
    requires DecodeList(input, Cursor(0, 0), magic).result.Ok?
    ensures var d := DecodeList(input, Cursor(0, 0), magic);
            d.at.offset <= |input.bytes| && |d.result.value| < U32_SIZE &&
            EncodeList(magic, d.result.value) == Ok(input.bytes[..d.at.offset]) &&
            d.at.nodes == NodesOfAll(d.result.value) <= MAX_VALUE_NODES
  {
    hide EncodeAll, DecodeAll, NodesOfAll, LeU32;
    var d := DecodeList(input, Cursor(0, 0), magic);
    var start := |magic| + 4;
    var size := input.bytes[|magic|..start];
    U32Canonical(size);
    var count := ReadU32(size);
    DecodeAllSound(input, Cursor(start, 0), count, 0);
    if count == 0 { NoNodes(); }
    assert input.bytes[..d.at.offset] == (magic + size) + input.bytes[start..d.at.offset];
  }

  lemma NoNodes()
    ensures NodesOfAll([]) == 0
  {
  }

  /** Exact round trip of the saved locals: the decoder's node budget is the only thing the encoder does not check. */
  lemma StateRoundTrip(input: Input, locals: seq<ReplValue>)
    requires input.Valid() && EncodeState(locals) == Ok(input.bytes)
    ensures DecodeState(input)
         == if NodesOfAll(locals) <= MAX_VALUE_NODES then Ok(locals) else Err(LengthOverflow)
  {
    hide EncodeList, DecodeList, NodesOfAll;
    assert input.bytes[0..|input.bytes|] == input.bytes;
    ListComplete(input, STATE_MAGIC, locals);
  }

  /** Canonical form: accepted bytes and encodable values within the budget correspond one to one. */
  lemma StateAcceptedIffEncoded(input: Input, locals: seq<ReplValue>)
    requires input.Valid()
    ensures DecodeState(input) == Ok(locals)
       <==> EncodeState(locals) == Ok(input.bytes) && NodesOfAll(locals) <= MAX_VALUE_NODES
  {
    hide EncodeList, DecodeList, NodesOfAll;
    if EncodeState(locals) == Ok(input.bytes) {
      StateRoundTrip(input, locals);
    }
    if DecodeState(input) == Ok(locals) {
      ListSound(input, STATE_MAGIC);
      assert input.bytes[..|input.bytes|] == input.bytes;
    }
  }

  function NodesOfResult(result: Option<ReplValue>): nat
  {
    if result.None? then 0 else Nodes(result.value)
  }

  function NodesOfResponse(response: ReplResponse): nat
  {
    NodesOfAll(response.locals) + NodesOfResult(response.result)
  }

  lemma ResultComplete(input: Input, at: Cursor, result: Option<ReplValue>)
    requires input.usizeMax >= |input.bytes| && at.nodes <= MAX_VALUE_NODES
    requires EncodeResult(result).Ok? && StandsAt(input.bytes, at.offset, EncodeResult(result).value)
    ensures at.nodes + NodesOfResult(result) <= MAX_VALUE_NODES ==>
              DecodeResult(input, at)
              == Decoded(Ok(result), Cursor(at.offset + |EncodeResult(result).value|, at.nodes + NodesOfResult(result)))
    ensures at.nodes + NodesOfResult(result) > MAX_VALUE_NODES ==>
              DecodeResult(input, at).result == Err(LengthOverflow)
  {
    hide Encode, Decode, Nodes;
    if result.Some? {
      var body := Encode(result.value, 0).value;
      StandsAtParts(input.bytes, at.offset, [1], body);
      assert input.bytes[at.offset..at.offset + 1] == [1];
      DecodeComplete(input, at.(offset := at.offset + 1), result.value, 0);
    } else {
      assert input.bytes[at.offset..at.offset + 1] == [0];
    }
  }

  lemma ResultSound(input: Input, at: Cursor)
    requires DecodeResult(input, at).result.Ok? && at.offset <= |input.bytes| && at.nodes <= MAX_VALUE_NODES
    ensures var d := DecodeResult(input, at);
            at.offset <= d.at.offset <= |input.bytes| &&
            EncodeResult(d.result.value) == Ok(input.bytes[at.offset..d.at.offset]) &&
            d.at.nodes == at.nodes + NodesOfResult(d.result.value) <= MAX_VALUE_NODES
  {
    hide Encode, Decode, Nodes;
    var d := DecodeResult(input, at);
    var next := at.(offset := at.offset + 1);
    assert input.bytes[at.offset..next.offset] == [input.bytes[at.offset]];
    if input.bytes[at.offset] == 1 {
      DecodeSound(input, next, 0);
      assert input.bytes[at.offset..d.at.offset] == [1] + input.bytes[next.offset..d.at.offset];
    }
  }

  /** Exact round trip of a response. */
  lemma ResponseRoundTrip(input: Input, response: ReplResponse)
    requires input.Valid() && EncodeResponse(response) == Ok(input.bytes)
    ensures DecodeResponse(input)
         == if NodesOfResponse(response) <= MAX_VALUE_NODES then Ok(response) else Err(LengthOverflow)
  {
    hide EncodeList, DecodeList, EncodeResult, DecodeResult, NodesOfAll, NodesOfResult;
    var list := EncodeList(RESPONSE_MAGIC, response.locals).value;
    var rest := EncodeResult(response.result).value;
    assert StandsAt(input.bytes, 0, list + rest);
    StandsAtParts(input.bytes, 0, list, rest);
    ListComplete(input, RESPONSE_MAGIC, response.locals);
    if NodesOfAll(response.locals) <= MAX_VALUE_NODES {
      ResultComplete(input, Cursor(|list|, NodesOfAll(response.locals)), response.result);
    }
  }

  lemma ResponseAcceptedIffEncoded(input: Input, response: ReplResponse)
    requires input.Valid()
    ensures DecodeResponse(input) == Ok(response)
       <==> EncodeResponse(response) == Ok(input.bytes) && NodesOfResponse(response) <= MAX_VALUE_NODES
  {
    hide EncodeList, DecodeList, EncodeResult, DecodeResult, NodesOfAll, NodesOfResult;
    if EncodeResponse(response) == Ok(input.bytes) {
      ResponseRoundTrip(input, response);
    }
    if DecodeResponse(input) == Ok(response) {
      ListSound(input, RESPONSE_MAGIC);
      var d := DecodeList(input, Cursor(0, 0), RESPONSE_MAGIC);
      ResultSound(input, d.at);
      assert input.bytes == input.bytes[..d.at.offset] + input.bytes[d.at.offset..|input.bytes|];
    }
  }

  /** A 32-bit device and a 64-bit host accept the same bytes and read the same values from them. */
  lemma PlatformsAgree(host: Input, device: Input)
    requires host.Valid() && device.Valid() && host.bytes == device.bytes
    ensures DecodeState(host).Ok? <==> DecodeState(device).Ok?
    ensures DecodeState(host).Ok? ==> DecodeState(host) == DecodeState(device)
  {
    hide EncodeState, DecodeState, NodesOfAll;
    if DecodeState(host).Ok? {
      StateAcceptedIffEncoded(host, DecodeState(host).value);
      StateAcceptedIffEncoded(device, DecodeState(host).value);
    }
    if DecodeState(device).Ok? {
      StateAcceptedIffEncoded(device, DecodeState(device).value);
      StateAcceptedIffEncoded(host, DecodeState(device).value);
    }
  }

  // ----- a state that encodes and is refused

  function Nulls(n: nat): (vs: seq<ReplValue>)
    ensures |vs| == n
  {
    seq(n, _ => Null)
  }

  lemma {:induction false} NodesOfNulls(n: nat)
    ensures NodesOfAll(Nulls(n)) == n
  {
    if n > 0 {
      assert Nulls(n)[1..] == Nulls(n - 1);
      NodesOfNulls(n - 1);
    }
  }

  lemma {:induction false} EncodeNulls(n: nat, depth: nat)
    requires depth <= MAX_NESTING
    ensures EncodeAll(Nulls(n), depth).Ok? && |EncodeAll(Nulls(n), depth).value| == n
    decreases n, depth
  {
    if n == 0 {
      assert Nulls(0) == [];
    } else {
      assert Nulls(n)[1..] == Nulls(n - 1) && Nulls(n)[0] == Null;
      EncodeNull(depth);
      EncodeNulls(n - 1, depth);
    }
  }

  lemma EncodeNull(depth: nat)
    requires depth <= MAX_NESTING
    ensures Encode(Null, depth).Ok? && |Encode(Null, depth).value| == 1
  {
  }

  /** One local that holds an array of `n` nulls. */
  lemma EncodeNullArray(n: nat)
    requires n < 100_000
    ensures EncodeState([Array(Nulls(n))]).Ok? && NodesOfAll([Array(Nulls(n))]) == n + 1
  {
    hide EncodeAll, LeU32, Nulls;
    var v := Array(Nulls(n));
    EncodeNulls(n, 1);
    NodesOfNulls(n);
    EncodeSingle(v);
    assert Encode(v, 0).Ok? && |Encode(v, 0).value| == n + 5 by { EncodeArray(Nulls(n)); }
    assert NodesOfAll([v]) == Nodes(v) by { SingleNodes(v); }
  }

  lemma EncodeArray(vs: seq<ReplValue>)
    requires |vs| < U32_SIZE && EncodeAll(vs, 1).Ok?
    ensures Encode(Array(vs), 0).Ok? && |Encode(Array(vs), 0).value| == 5 + |EncodeAll(vs, 1).value|
  {
    hide EncodeAll, LeU32;
  }

  lemma EncodeSingle(v: ReplValue)
    ensures Encode(v, 0).Ok? ==> EncodeAll([v], 0).Ok? && |EncodeAll([v], 0).value| == |Encode(v, 0).value|
  {
    hide Encode;
    assert [v][1..] == [];
    assert EncodeAll([], 0) == Ok([]);
  }

  lemma SingleNodes(v: ReplValue)
    ensures NodesOfAll([v]) == Nodes(v)
  {
    assert [v][1..] == [];
  }

  /** A local that is an array of 4096 nulls is encoded, and no decoder takes the bytes back. */
  lemma EncodedButRefused(usizeMax: nat)
    requires usizeMax >= U32_SIZE - 1
    ensures var encoded := EncodeState([Array(Nulls(4096))]);
            encoded.Ok? && DecodeState(Input(encoded.value, usizeMax)) == Err(LengthOverflow)
  {
    hide EncodeState, DecodeState, NodesOfAll, Nulls;
    EncodeNullArray(4096);
    var encoded := EncodeState([Array(Nulls(4096))]);
    StateRoundTrip(Input(encoded.value, usizeMax), [Array(Nulls(4096))]);
  }

  // ----- prefix code

  /** The input ends inside `e`, having agreed with it so far. */
  predicate EndsInside(s: seq<byte>, offset: nat, e: seq<byte>)
  {
    offset <= |s| < offset + |e| && s[offset..] == e[..|s| - offset]
  }

  lemma EndsInsideParts(s: seq<byte>, offset: nat, a: seq<byte>, b: seq<byte>)
    requires EndsInside(s, offset, a + b)
    ensures EndsInside(s, offset, a) || (StandsAt(s, offset, a) && EndsInside(s, offset + |a|, b))
  {
    var n := |s| - offset;
    if n < |a| {
      assert (a + b)[..n] == a[..n];
    } else {
      assert s[offset..offset + |a|] == s[offset..][..|a|] == (a + b)[..n][..|a|] == a;
      assert s[offset + |a|..] == s[offset..][|a|..] == (a + b)[..n][|a|..] == b[..n - |a|];
    }
  }

  /** The errors that say the input was too short. */
  predicate Starved<T>(r: WireResult<T>) { r == Err(UnexpectedEnd) || r == Err(LengthOverflow) }

  lemma BlobStarved(input: Input, at: Cursor, blob: seq<byte>)
    requires |blob| < U32_SIZE && EndsInside(input.bytes, at.offset, LeU32(|blob|) + blob)
    ensures Starved(DecodeBlob(input, at).result)
  {
    EndsInsideParts(input.bytes, at.offset, LeU32(|blob|), blob);
    U32RoundTrip(|blob|);
  }

  lemma TaggedStarved(input: Input, at: Cursor, v: ReplValue)
    requires Head(v).Some? && EndsInside(input.bytes, at.offset, Head(v).value[1..])
    ensures Starved(DecodeTagged(input, at, Head(v).value[0]).result)
  {
    hide DecodeBlob, ValidUtf8, LeU32, LeU64;
    var payload := Head(v).value[1..];
    match v
    case String(text) => assert payload == LeU32(|text|) + text; BlobStarved(input, at, text);
    case Bytes(data) => assert payload == LeU32(|data|) + data; BlobStarved(input, at, data);
    case _ =>
  }

  /** A head that is cut short, or that announces more children than there are bytes left, is refused. */
  lemma HeadStarved(input: Input, at: Cursor, v: ReplValue)
    requires Head(v).Some?
    requires EndsInside(input.bytes, at.offset, Head(v).value)
    ensures Starved(DecodeHead(input, at).result)
  {
    hide DecodeTagged, Head;
    var head := Head(v).value;
    assert head == [head[0]] + head[1..];
    EndsInsideParts(input.bytes, at.offset, [head[0]], head[1..]);
    if StandsAt(input.bytes, at.offset, [head[0]]) {
      TaggedStarved(input, at.(offset := at.offset + 1), v);
    }
  }

  lemma CountStarved(input: Input, at: Cursor, v: ReplValue)
    requires input.usizeMax >= |input.bytes|
    requires Head(v).Some? && StandsAt(input.bytes, at.offset, Head(v).value)
    requires |Children(v)| > |input.bytes| - (at.offset + |Head(v).value|)
    ensures Starved(DecodeHead(input, at).result)
  {
    hide DecodeTagged, Head, Children;
    var head := Head(v).value;
    assert head == [head[0]] + head[1..];
    StandsAtParts(input.bytes, at.offset, [head[0]], head[1..]);
    TaggedCountStarved(input, at.(offset := at.offset + 1), v);
  }

  lemma TaggedCountStarved(input: Input, at: Cursor, v: ReplValue)
    requires input.usizeMax >= |input.bytes|
    requires Head(v).Some? && StandsAt(input.bytes, at.offset, Head(v).value[1..])
    requires |Children(v)| > |input.bytes| - (at.offset + |Head(v).value| - 1)
    ensures Starved(DecodeTagged(input, at, Head(v).value[0]).result)
  {
    hide DecodeBlob, DecodeWord, DecodeCount, ValidUtf8, LeU32, LeU64;
    match v
    case Array(values) =>
      assert Head(v).value[1..] == LeU32(|values|);
      CountRefused(input, at, false, |values|);
    case Map(entries) =>
      assert Head(v).value[1..] == LeU32(|entries|);
      CountRefused(input, at, true, |entries|);
    case _ =>
  }

  lemma CountRefused(input: Input, at: Cursor, isMap: bool, count: u32)
    requires input.usizeMax >= |input.bytes| && StandsAt(input.bytes, at.offset, LeU32(count))
    requires ChildCount(Open(isMap, count)) > |input.bytes| - (at.offset + 4)
    ensures Starved(DecodeCount(input, at, isMap).result)
  {
    U32RoundTrip(count);
  }

  lemma {:induction false} DecodeStarved(input: Input, at: Cursor, v: ReplValue, depth: nat)
    requires input.usizeMax >= |input.bytes|
    requires Encode(v, depth).Ok? && EndsInside(input.bytes, at.offset, Encode(v, depth).value)
    ensures Starved(Decode(input, at, depth).result)
    decreases Nodes(v), 0
  {
    hide DecodeHead, DecodeAll, EncodeAll, Head, Children, ChildCount, HeadOf, Fill, Nodes, NodesOfAll, EndsInside;
    var entered := at.(nodes := at.nodes + 1);
    var children := Children(v);
    var head, tail := Head(v).value, EncodeAll(children, depth + 1).value;
    EndsInsideParts(input.bytes, at.offset, head, tail);
    if EndsInside(input.bytes, at.offset, head) {
      HeadStarved(input, entered, v);
    } else if |children| > |input.bytes| - (at.offset + |head|) {
      CountStarved(input, entered, v);
    } else {
      HeadComplete(input, entered, v);
      FillChildren(v);
      NodesOfChildren(v);
      DecodeAllStarved(input, Cursor(at.offset + |head|, entered.nodes), children, depth + 1);
    }
  }

  lemma {:induction false} DecodeAllStarved(input: Input, at: Cursor, vs: seq<ReplValue>, depth: nat)
    requires input.usizeMax >= |input.bytes|
    requires EncodeAll(vs, depth).Ok? && EndsInside(input.bytes, at.offset, EncodeAll(vs, depth).value)
    ensures Starved(DecodeAll(input, at, |vs|, depth).result)
    decreases NodesOfAll(vs), 1 + |vs|
  {
    hide Encode, Decode;
    assert vs != [];
    var first, rest := Encode(vs[0], depth).value, EncodeAll(vs[1..], depth).value;
    EndsInsideParts(input.bytes, at.offset, first, rest);
    if EndsInside(input.bytes, at.offset, first) {
      DecodeStarved(input, at, vs[0], depth);
    } else {
      DecodeComplete(input, at, vs[0], depth);
      DecodeAllStarved(input, Cursor(at.offset + |first|, at.nodes + Nodes(vs[0])), vs[1..], depth);
    }
  }

  lemma ListStarved(input: Input, magic: seq<byte>, locals: seq<ReplValue>)
    requires input.usizeMax >= |input.bytes|
    requires EncodeList(magic, locals).Ok? && EndsInside(input.bytes, 0, EncodeList(magic, locals).value)
    ensures Starved(DecodeList(input, Cursor(0, 0), magic).result)
  {
    hide EncodeAll, DecodeAll, LeU32;
    var size, body := LeU32(|locals|), EncodeAll(locals, 0).value;
    EndsInsideParts(input.bytes, 0, magic + size, body);
    if EndsInside(input.bytes, 0, magic + size) {
      EndsInsideParts(input.bytes, 0, magic, size);
    } else {
      StandsAtParts(input.bytes, 0, magic, size);
      U32RoundTrip(|locals|);
      DecodeAllStarved(input, Cursor(|magic| + 4, 0), locals, 0);
    }
  }

  lemma ResultStarved(input: Input, at: Cursor, result: Option<ReplValue>)
    requires input.usizeMax >= |input.bytes|
    requires EncodeResult(result).Ok? && EndsInside(input.bytes, at.offset, EncodeResult(result).value)
    ensures Starved(DecodeResult(input, at).result)
  {
    hide Encode, Decode;
    if result.Some? {
      EndsInsideParts(input.bytes, at.offset, [1], Encode(result.value, 0).value);
      if StandsAt(input.bytes, at.offset, [1]) {
        assert input.bytes[at.offset..at.offset + 1] == [1];
        DecodeStarved(input, at.(offset := at.offset + 1), result.value, 0);
      }
    }
  }

  /** Saved locals form a prefix code: nothing shorter and nothing longer than an encoding is accepted. */
  lemma StatePrefixCode(input: Input, locals: seq<ReplValue>, encoded: seq<byte>)
    requires input.Valid() && EncodeState(locals) == Ok(encoded)
    ensures |input.bytes| < |encoded| && input.bytes <= encoded ==> Starved(DecodeState(input))
    ensures NodesOfAll(locals) <= MAX_VALUE_NODES ==>
              |encoded| < |input.bytes| <= MAX_WIRE_BYTES && encoded <= input.bytes ==>
                DecodeState(input) == Err(TrailingData)
  {
    hide EncodeList, DecodeList, NodesOfAll;
    if |input.bytes| < |encoded| && input.bytes <= encoded {
      ListStarved(input, STATE_MAGIC, locals);
    }
    if |encoded| < |input.bytes| <= MAX_WIRE_BYTES && encoded <= input.bytes {
      assert StandsAt(input.bytes, 0, encoded);
      ListComplete(input, STATE_MAGIC, locals);
    }
  }

  /** Responses form a prefix code too. */
  lemma ResponsePrefixCode(input: Input, response: ReplResponse, encoded: seq<byte>)
    requires input.Valid() && EncodeResponse(response) == Ok(encoded)
    ensures |input.bytes| < |encoded| && input.bytes <= encoded ==> Starved(DecodeResponse(input))
    ensures NodesOfResponse(response) <= MAX_VALUE_NODES ==>
              |encoded| < |input.bytes| <= MAX_WIRE_BYTES && encoded <= input.bytes ==>
                DecodeResponse(input) == Err(TrailingData)
  {
    hide EncodeList, DecodeList, EncodeResult, DecodeResult, NodesOfAll, NodesOfResult;
    var list, rest := EncodeList(RESPONSE_MAGIC, response.locals).value, EncodeResult(response.result).value;
    var at := Cursor(|list|, NodesOfAll(response.locals));
    if |input.bytes| < |encoded| && input.bytes <= encoded {
      assert EndsInside(input.bytes, 0, list + rest);
      EndsInsideParts(input.bytes, 0, list, rest);
      if EndsInside(input.bytes, 0, list) {
        ListStarved(input, RESPONSE_MAGIC, response.locals);
      } else {
        ListComplete(input, RESPONSE_MAGIC, response.locals);
        ResultStarved(input, at, response.result);
      }
    }
    if |encoded| < |input.bytes| <= MAX_WIRE_BYTES && encoded <= input.bytes {
      assert StandsAt(input.bytes, 0, list + rest);
      StandsAtParts(input.bytes, 0, list, rest);
      ListComplete(input, RESPONSE_MAGIC, response.locals);
      if NodesOfAll(response.locals) <= MAX_VALUE_NODES {
        ResultComplete(input, at, response.result);
      }
    }
  }
}
