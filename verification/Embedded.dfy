/** Running one compiled snippet on the device: values of the virtual machine, its locals and the reply it encodes. */
module Embedded {
  import opened Bytes
  import opened Results
  import opened Wire
  import C = WireCodec

  const STATUS_OK: i32 := 0
  const STATUS_INVALID_ARGUMENT: i32 := -1
  const STATUS_INVALID_VMBC: i32 := -2
  const STATUS_HOST_ERROR: i32 := -3
  const STATUS_OUT_OF_FUEL: i32 := -4
  const STATUS_VM_ERROR: i32 := -5
  const STATUS_INVALID_REPL_STATE: i32 := -6

  /** Values of the virtual machine; only these include callables. */
  datatype Value =
    | VNull
    | VInt(number: i64)
    | VFloat(bits: u64)
    | VBool(truth: bool)
    | VString(text: Utf8)
    | VBytes(data: seq<byte>)
    | VArray(values: seq<Value>)
    | VMap(entries: seq<(Value, Value)>)
    | VCallable(target: nat)

  function ToEmbedded(v: ReplValue): Value
    decreases v, 0
  {
    match v
    case Null => VNull
    case Int(number) => VInt(number)
    case Float(bits) => VFloat(bits)
    case Bool(truth) => VBool(truth)
    case String(text) => VString(text)
    case Bytes(data) => VBytes(data)
    case Array(values) => VArray(ToEmbeddedAll(values))
    case Map(entries) => VMap(ToEmbeddedEntries(entries))
  }

  function ToEmbeddedAll(vs: seq<ReplValue>): (es: seq<Value>)
    ensures |es| == |vs|
    decreases vs, 1
  {
    if vs == [] then [] else [ToEmbedded(vs[0])] + ToEmbeddedAll(vs[1..])
  }

  function ToEmbeddedEntries(entries: seq<(ReplValue, ReplValue)>): seq<(Value, Value)>
    decreases entries, 1
  {
    if entries == [] then [] else [ToEmbeddedEntry(entries[0])] + ToEmbeddedEntries(entries[1..])
  }

  function ToEmbeddedEntry(entry: (ReplValue, ReplValue)): (Value, Value)
    decreases entry, 2
  {
    (ToEmbedded(entry.0), ToEmbedded(entry.1))
  }

  /** Fails exactly on callables, at any depth. */
  function FromEmbedded(e: Value): Option<ReplValue>
    decreases e, 0
  {
    match e
    case VNull => Some(Null)
    case VInt(number) => Some(Int(number))
    case VFloat(bits) => Some(Float(bits))
    case VBool(truth) => Some(Bool(truth))
    case VString(text) => Some(String(text))
    case VBytes(data) => Some(Bytes(data))
    case VArray(values) =>
      (match FromEmbeddedAll(values) case Some(vs) => Some(Array(vs)) case None => None)
    case VMap(entries) =>
      (match FromEmbeddedEntries(entries) case Some(es) => Some(Map(es)) case None => None)
    case VCallable(_) => None
  }

  function FromEmbeddedAll(es: seq<Value>): Option<seq<ReplValue>>
    decreases es, 1
  {
    if es == [] then Some([])
    else
      match (FromEmbedded(es[0]), FromEmbeddedAll(es[1..]))
      case (Some(v), Some(vs)) => Some([v] + vs)
      case _ => None
  }

  function FromEmbeddedEntries(es: seq<(Value, Value)>): Option<seq<(ReplValue, ReplValue)>>
    decreases es, 1
  {
    if es == [] then Some([])
    else
      match (FromEmbeddedEntry(es[0]), FromEmbeddedEntries(es[1..]))
      case (Some(entry), Some(entries)) => Some([entry] + entries)
      case _ => None
  }

  function FromEmbeddedEntry(e: (Value, Value)): Option<(ReplValue, ReplValue)>
    decreases e, 2
  {
    match (FromEmbedded(e.0), FromEmbedded(e.1))
    case (Some(key), Some(value)) => Some((key, value))
    case _ => None
  }

  /** Crossing into the machine and back loses nothing, and nothing else comes back as the same value. */
  lemma {:induction false} EmbeddedRoundTrip(v: ReplValue)
    ensures FromEmbedded(ToEmbedded(v)) == Some(v)
    decreases v, 0
  {
    match v
    case Array(values) => EmbeddedRoundTripAll(values);
    case Map(entries) => EmbeddedRoundTripEntries(entries);
    case _ =>
  }

  lemma {:induction false} EmbeddedRoundTripAll(vs: seq<ReplValue>)
    ensures FromEmbeddedAll(ToEmbeddedAll(vs)) == Some(vs)
    decreases vs, 1
  {
    if vs != [] {
      EmbeddedRoundTrip(vs[0]);
      EmbeddedRoundTripAll(vs[1..]);
      assert ToEmbeddedAll(vs)[1..] == ToEmbeddedAll(vs[1..]);
      assert vs == [vs[0]] + vs[1..];
    }
  }

  lemma {:induction false} EmbeddedRoundTripEntries(entries: seq<(ReplValue, ReplValue)>)
    ensures FromEmbeddedEntries(ToEmbeddedEntries(entries)) == Some(entries)
    decreases entries, 1
  {
    if entries != [] {
      EmbeddedRoundTripEntry(entries[0]);
      EmbeddedRoundTripEntries(entries[1..]);
      assert ToEmbeddedEntries(entries)[1..] == ToEmbeddedEntries(entries[1..]);
      assert entries == [entries[0]] + entries[1..];
    }
  }

  lemma {:induction false} EmbeddedRoundTripEntry(entry: (ReplValue, ReplValue))
    ensures FromEmbeddedEntry(ToEmbeddedEntry(entry)) == Some(entry)
    decreases entry, 2
  {
    EmbeddedRoundTrip(entry.0);
    EmbeddedRoundTrip(entry.1);
  }

  lemma {:induction false} EmbeddedCanonical(e: Value)
    requires FromEmbedded(e).Some?
    ensures ToEmbedded(FromEmbedded(e).value) == e
    decreases e, 0
  {
    match e
    case VArray(values) => EmbeddedCanonicalAll(values);
    case VMap(entries) => EmbeddedCanonicalEntries(entries);
    case _ =>
  }

  lemma {:induction false} EmbeddedCanonicalAll(es: seq<Value>)
    requires FromEmbeddedAll(es).Some?
    ensures ToEmbeddedAll(FromEmbeddedAll(es).value) == es
    decreases es, 1
  {
    if es != [] {
      EmbeddedCanonical(es[0]);
      EmbeddedCanonicalAll(es[1..]);
      assert FromEmbeddedAll(es).value[1..] == FromEmbeddedAll(es[1..]).value;
    }
  }

  lemma {:induction false} EmbeddedCanonicalEntries(es: seq<(Value, Value)>)
    requires FromEmbeddedEntries(es).Some?
    ensures ToEmbeddedEntries(FromEmbeddedEntries(es).value) == es
    decreases es, 1
  {
    if es != [] {
      EmbeddedCanonicalEntry(es[0]);
      EmbeddedCanonicalEntries(es[1..]);
      assert FromEmbeddedEntries(es).value[1..] == FromEmbeddedEntries(es[1..]).value;
    }
  }

  lemma {:induction false} EmbeddedCanonicalEntry(e: (Value, Value))
    requires FromEmbeddedEntry(e).Some?
    ensures ToEmbeddedEntry(FromEmbeddedEntry(e).value) == e
    decreases e, 2
  {
    EmbeddedCanonical(e.0);
    EmbeddedCanonical(e.1);
  }

  // ----- the virtual machine, known only by what it is asked to do

  datatype RunEnd = Halted | OutOfFuel | HostError | HostCallsUnavailable | OtherError

  /** How a run ended, what it left behind, and what it printed on the serial line meanwhile. */
  datatype Run<+W> = Run(end: RunEnd, locals: seq<Value>, stack: seq<Value>, log: seq<byte>, world: W)

  /** The decoder of program bytes and the interpreter, with everything outside the machine as a world `W`. */
  datatype Machine<!W> = Machine(
    accepts: seq<byte> -> bool,
    localCount: seq<byte> -> nat,
    run: (seq<byte>, seq<Value>, W) -> Run<W>)

  function VmStatus(end: RunEnd): i32
  {
    match end
    case Halted => STATUS_OK
    case OutOfFuel => STATUS_OUT_OF_FUEL
    case HostError => STATUS_HOST_ERROR
    case HostCallsUnavailable => STATUS_HOST_ERROR
    case OtherError => STATUS_VM_ERROR
  }

  /** What one call hands back to the device loop. */
  datatype Reply<+W> = Reply(status: i32, output: seq<byte>, log: seq<byte>, world: W)

  /** `set_local` with the index cut to eight bits, for the values from `i` on. */
  function SetLocals(values: seq<ReplValue>, i: nat, locals: seq<Value>): (r: seq<Value>)
    requires i <= |values| == |locals|
    ensures |r| == |locals|
    decreases |values| - i
  {
    if i == |values| then locals
    else SetLocals(values, i + 1, locals[i % 256 := ToEmbedded(values[i])])
  }

  function Nulls(n: nat): (s: seq<Value>)
    ensures |s| == n
  {
    seq(n, _ => VNull)
  }

  /** With at most 256 locals the cut index is the index, and the machine starts from exactly the given values. */
  lemma {:induction false} SetLocalsIsAll(values: seq<ReplValue>, i: nat, locals: seq<Value>)
    requires i <= |values| == |locals| <= 256
    requires locals[..i] == ToEmbeddedAll(values)[..i]
    ensures SetLocals(values, i, locals) == ToEmbeddedAll(values)
    decreases |values| - i
  {
    if i < |values| {
      ToEmbeddedAt(values, i);
      SetLocalsIsAll(values, i + 1, locals[i := ToEmbedded(values[i])]);
    }
  }

  lemma {:induction false} ToEmbeddedAt(vs: seq<ReplValue>, i: nat)
    requires i < |vs|
    ensures ToEmbeddedAll(vs)[i] == ToEmbedded(vs[i])
  {
    if i > 0 { ToEmbeddedAt(vs[1..], i - 1); }
  }

  /** The locals and the result of a run as values of the session; `None` when a callable is among them. */
  function Reported<W>(run: Run<W>): Option<ReplResponse>
  {
    var result := if VmStatus(run.end) == STATUS_OK && run.stack != []
                  then Lift(FromEmbedded(run.stack[|run.stack| - 1]))
                  else Some(None);
    match (FromEmbeddedAll(run.locals), result)
    case (Some(locals), Some(top)) => Some(ReplResponse(locals, top))
    case _ => None
  }

  function Lift(v: Option<ReplValue>): Option<Option<ReplValue>>
  {
    match v
    case None => None
    case Some(value) => Some(Some(value))
  }

  /** The statuses of the device, and a payload that is absent or starts with the magic of a response. */
  predicate Recognisable(status: i32, payload: seq<byte>)
  {
    STATUS_INVALID_REPL_STATE <= status <= STATUS_OK && (payload == [] || RESPONSE_MAGIC <= payload)
  }

  lemma ResponseStarts(response: ReplResponse)
    ensures EncodeResponse(response).Ok? ==> RESPONSE_MAGIC <= EncodeResponse(response).value
  {
    hide EncodeAll, EncodeResult;
  }

  /** The reply after a run: callables and oversized values turn it into an error without a payload. */
  function Answer<W>(run: Run<W>): (reply: Reply<W>)
    ensures |reply.output| <= MAX_WIRE_BYTES && Recognisable(reply.status, reply.output)
    ensures reply.status == STATUS_OK ==> reply.output != []
    ensures reply.status != STATUS_INVALID_ARGUMENT && reply.status != STATUS_INVALID_VMBC
    ensures reply.log == run.log && reply.world == run.world
  {
    var failed := Reply(STATUS_INVALID_REPL_STATE, [], run.log, run.world);
    match Reported(run)
    case None => failed
    case Some(response) =>
      ResponseStarts(response);
      match EncodeResponse(response)
      case Err(_) => failed
      case Ok(encoded) => Reply(VmStatus(run.end), encoded, run.log, run.world)
  }

  /** `rustscript_repl_run_vmbc`. A reply fits the client's limit and is one the client can tell from noise: a clean
      status always comes with a response, a payload always starts like one, and a refusal before the run leaves the
      world and the line alone. */
  function RunVmbc<W>(machine: Machine<W>, program: seq<byte>, state: Input, world: W): (reply: Reply<W>)
    ensures |reply.output| <= MAX_WIRE_BYTES
    ensures Recognisable(reply.status, reply.output)
    ensures reply.status == STATUS_OK ==> reply.output != []
    ensures reply.status == STATUS_INVALID_ARGUMENT <==> program == [] || state.bytes == []
    ensures reply.status == STATUS_INVALID_VMBC <==> program != [] && state.bytes != [] && !machine.accepts(program)
    ensures reply.status == STATUS_INVALID_ARGUMENT || reply.status == STATUS_INVALID_VMBC ==>
              reply == Reply(reply.status, [], [], world)
  {
    if program == [] || state.bytes == [] then Reply(STATUS_INVALID_ARGUMENT, [], [], world)
    else if !machine.accepts(program) then Reply(STATUS_INVALID_VMBC, [], [], world)
    else
      match DecodeState(state)
      case Err(_) => Reply(STATUS_INVALID_REPL_STATE, [], [], world)
      case Ok(locals) =>
        if |locals| != machine.localCount(program) then Reply(STATUS_INVALID_REPL_STATE, [], [], world)
        else Answer(machine.run(program, SetLocals(locals, 0, Nulls(|locals|)), world))
  }

  method ReplRunVmbc<W(0)>(machine: Machine<W>, program: seq<byte>, state: seq<byte>, usizeMax: nat, world: W)
    returns (reply: Reply<W>)
    ensures reply == RunVmbc(machine, program, Input(state, usizeMax), world)
  {
    hide DecodeState, Answer;
    if program == [] || state == [] { return Reply(STATUS_INVALID_ARGUMENT, [], [], world); }
    if !machine.accepts(program) { return Reply(STATUS_INVALID_VMBC, [], [], world); }
    var decoded, _ := C.DecodeReplState(state, usizeMax);
    if decoded.Err? || |decoded.value| != machine.localCount(program) {
      return Reply(STATUS_INVALID_REPL_STATE, [], [], world);
    }
    var values := decoded.value;
    var locals := Nulls(|values|);
    for i := 0 to |values|
      invariant |locals| == |values|
      invariant SetLocals(values, i, locals) == SetLocals(values, 0, Nulls(|values|))
    {
      locals := locals[i % 256 := ToEmbedded(values[i])];
    }
    reply := Respond(machine.run(program, locals, world));
  }

  method Respond<W>(run: Run<W>) returns (reply: Reply<W>)
    ensures reply == Answer(run)
  {
    hide EncodeResponse, FromEmbedded, FromEmbeddedAll;
    var status := VmStatus(run.end);
    reply := Reply(STATUS_INVALID_REPL_STATE, [], run.log, run.world);
    var locals := FromEmbeddedAll(run.locals);
    if locals.None? { return; }
    var result: Option<ReplValue> := None;
    if status == STATUS_OK && run.stack != [] {
      result := FromEmbedded(run.stack[|run.stack| - 1]);
      if result.None? { return; }
    }
    var encoded := C.EncodeReplResponse(ReplResponse(locals.value, result));
    if encoded.Err? { return; }
    reply := Reply(status, encoded.value, run.log, run.world);
  }
}
