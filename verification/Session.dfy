/** The host's session: what it saves between snippets, and one evaluation. */
module Session {
  import opened Bytes
  import opened Results
  import opened Names
  import opened Wire
  import opened Frames
  import opened Transport
  import opened Text
  import C = WireCodec
  import M = MoveScanner

  // ----- types and schemas

  /** The schemas this crate names; `TOther` stands for those only the compiler knows. */
  datatype TypeSchema =
    | TUnknown | TNull | TInt | TFloat | TBool | TString | TBytes
    | TArray(element: TypeSchema) | TMap(element: TypeSchema) | TCallable(result: TypeSchema) | TOther(code: nat)

  datatype ValueType =
    | UnknownType | NullType | IntType | FloatType | BoolType
    | StringType | BytesType | ArrayType | MapType | CallableType

  datatype TypeMap =
    TypeMap(localSchemas: seq<Option<TypeSchema>>, localTypes: seq<ValueType>, optionalSlots: seq<bool>)

  /** The schema admits the value; nothing is known of the elements of collections. */
  predicate Admits(schema: TypeSchema, value: ReplValue)
  {
    match value
    case Null => schema == TNull
    case Int(_) => schema == TInt
    case Float(_) => schema == TFloat
    case Bool(_) => schema == TBool
    case String(_) => schema == TString
    case Bytes(_) => schema == TBytes
    case Array(_) => schema.TArray? && schema.element == TUnknown
    case Map(_) => schema.TMap? && schema.element == TUnknown
  }

  predicate OfType(value: ReplValue, valueType: ValueType)
  {
    match valueType
    case NullType => value.Null?
    case IntType => value.Int?
    case FloatType => value.Float?
    case BoolType => value.Bool?
    case StringType => value.String?
    case BytesType => value.Bytes?
    case ArrayType => value.Array?
    case MapType => value.Map?
    case UnknownType => false
    case CallableType => false
  }

  function SchemaFromValue(value: ReplValue): (schema: TypeSchema)
    ensures Admits(schema, value)
  {
    match value
    case Null => TNull
    case Int(_) => TInt
    case Float(_) => TFloat
    case Bool(_) => TBool
    case String(_) => TString
    case Bytes(_) => TBytes
    case Array(_) => TArray(TUnknown)
    case Map(_) => TMap(TUnknown)
  }

  function SchemaFromValueType(valueType: ValueType): (schema: Option<TypeSchema>)
    ensures schema.None? <==> valueType == UnknownType
    ensures schema.Some? ==> forall value :: Admits(schema.value, value) <==> OfType(value, valueType)
    ensures valueType == CallableType ==> schema == Some(TCallable(TUnknown))
  {
    match valueType
    case UnknownType => None
    case NullType => Some(TNull)
    case IntType => Some(TInt)
    case FloatType => Some(TFloat)
    case BoolType => Some(TBool)
    case StringType => Some(TString)
    case BytesType => Some(TBytes)
    case ArrayType => Some(TArray(TUnknown))
    case MapType => Some(TMap(TUnknown))
    case CallableType => Some(TCallable(TUnknown))
  }

  /** The compiler's schema of a slot, or else its type, or else the type of the value that came back. */
  function LocalSchema(typeMap: Option<TypeMap>, slot: nat, value: ReplValue): (s: (Option<TypeSchema>, bool))
    ensures s.0.Some? && (typeMap.None? ==> s.0 == Some(SchemaFromValue(value)))
    ensures s.1 <==> typeMap.Some? && slot < |typeMap.value.optionalSlots| && typeMap.value.optionalSlots[slot]
    ensures typeMap.Some? && slot < |typeMap.value.localSchemas| && typeMap.value.localSchemas[slot].Some? ==>
              s.0 == typeMap.value.localSchemas[slot]
    ensures typeMap.Some? && (slot < |typeMap.value.localSchemas| ==> typeMap.value.localSchemas[slot].None?) ==>
              s.0 == if slot < |typeMap.value.localTypes| && typeMap.value.localTypes[slot] != UnknownType
                     then SchemaFromValueType(typeMap.value.localTypes[slot])
                     else Some(SchemaFromValue(value))
  {
    match typeMap
    case None => (Some(SchemaFromValue(value)), false)
    case Some(types) =>
      var declared := if slot < |types.localSchemas| then types.localSchemas[slot] else None;
      var inferred := if slot < |types.localTypes| then SchemaFromValueType(types.localTypes[slot]) else None;
      var schema := if declared.Some? then declared
                    else if inferred.Some? then inferred
                    else Some(SchemaFromValue(value));
      (schema, slot < |types.optionalSlots| && types.optionalSlots[slot])
  }

  // ----- the compiler, known only by what it is asked for

  datatype Program = Program(code: M.Code, localCount: nat, debug: Option<map<string, byte>>, typeMap: Option<TypeMap>)

  datatype Binding = Binding(name: string, mutable: bool)

  datatype Output = Output(program: Program, locals: nat, bindings: seq<Binding>) {
    /** Slots are numbered by one byte, lie below the local count and belong to one name each. */
    predicate SlotsFit()
    {
      locals <= 256 &&
      (program.debug.Some? ==> (forall name :: name in program.debug.value ==> program.debug.value[name] < locals)) &&
      (program.debug.Some? ==> M.Injective(program.debug.value))
    }
  }

  type Compiled = c: Output | c.SlotsFit() witness Output(Program(M.Code([], []), 0, None, None), 0, [])

  datatype SourceError =
    | Parse(code: Option<string>, message: string)
    | Compile(message: string)
    | OtherSource(message: string)

  /** What the compiler is told about a saved local; its value is not part of it. */
  datatype LocalState = LocalState(mutable: bool, schema: Option<TypeSchema>, optional: bool, moved: bool)

  datatype Toolchain = Toolchain(
    isa: M.Isa,
    compile: (string, map<string, LocalState>) -> Result<Compiled, SourceError>,
    encode: Program -> Result<seq<byte>, string>)

  datatype SessionLocal =
    SessionLocal(value: ReplValue, mutable: bool, schema: Option<TypeSchema>, optional: bool, moved: bool)

  type Locals = map<string, SessionLocal>

  datatype ClientError =
    | CompileFailed(source: SourceError)
    | EncodeFailed(message: string)
    | WireFailed(wire: WireError)
    | IoFailed(io: IoError)
    | Device(status: i32)
    | MissingDebugInfo
    | MissingLocal(name: string)
    | InvalidLocalCount(expected: nat, actual: nat)

  // ----- compiling a snippet

  /** Everything the compiler is to know of the saved locals: all of them, and of each all but its value. */
  predicate Tells(states: map<string, LocalState>, locals: Locals)
  {
    states.Keys == locals.Keys &&
    forall name :: name in locals ==>
      states[name].mutable == locals[name].mutable && states[name].schema == locals[name].schema &&
      states[name].optional == locals[name].optional && states[name].moved == locals[name].moved
  }

  function States(locals: Locals): (states: map<string, LocalState>)
    ensures Tells(states, locals)
  {
    map name | name in locals ::
      LocalState(locals[name].mutable, locals[name].schema, locals[name].optional, locals[name].moved)
  }

  lemma OneAccount(locals: Locals)
    ensures forall states :: Tells(states, locals) ==> states == States(locals)
  {
    forall states | Tells(states, locals) ensures states == States(locals) {
      forall name | name in locals ensures states[name] == States(locals)[name] {
      }
    }
  }

  /** A snippet without a final semicolon gets a second chance with one; coded parse errors and compile errors of
      the second attempt are the ones reported, otherwise those of the first. */
  function CompileSnippet(tools: Toolchain, source: string, locals: Locals): (r: Result<Compiled, SourceError>)
    ensures forall states :: Tells(states, locals) ==>
              var trimmed := TrimEnd(source);
              var first, second := tools.compile(trimmed, states), tools.compile(trimmed + ";", states);
              if first.Ok? || (trimmed != [] && trimmed[|trimmed| - 1] == ';') then r == first
              else if second.Ok? then r == second
              else r == Err(if second.error.Compile? || (second.error.Parse? && second.error.code.Some?)
                            then second.error else first.error)
  {
    assert forall states :: Tells(states, locals) ==> states == States(locals) by { OneAccount(locals); }
    var trimmed := TrimEnd(source);
    var first := tools.compile(trimmed, States(locals));
    if first.Ok? || (trimmed != [] && trimmed[|trimmed| - 1] == ';') then first
    else
      match tools.compile(trimmed + ";", States(locals))
      case Ok(compiled) => Ok(compiled)
      case Err(Parse(Some(code), message)) => Err(Parse(Some(code), message))
      case Err(Compile(message)) => Err(Compile(message))
      case Err(_) => first
  }

  // ----- before the device is contacted

  datatype Plan =
    Plan(program: Program, bindings: seq<Binding>, moves: set<string>, seed: seq<ReplValue>, bytes: seq<byte>)
  {
    predicate Sound()
    {
      program.debug.Some? && |seed| == program.localCount <= 256 &&
      (forall name :: name in program.debug.value ==> program.debug.value[name] < program.localCount)
    }
  }

  /** Saved values put into their slots, for the names from `k` on in ascending order. */
  function Seed(names: seq<string>, k: nat, locals: Locals, debug: map<string, byte>, seed: seq<ReplValue>)
    : (r: Result<seq<ReplValue>, string>)
    requires k <= |names| && (forall name :: name in names ==> name in locals)
    requires forall name :: name in debug ==> debug[name] < |seed|
    ensures r.Ok? ==> |r.value| == |seed|
    decreases |names| - k
  {
    if k == |names| then Ok(seed)
    else if names[k] !in debug then Err(names[k])
    else Seed(names, k + 1, locals, debug, seed[debug[names[k]] := locals[names[k]].value])
  }

  function Empty(n: nat): (s: seq<ReplValue>)
    ensures |s| == n && forall i :: 0 <= i < n ==> s[i] == Null
  {
    seq(n, _ => Null)
  }

  ghost function MakePlan(tools: Toolchain, source: string, locals: Locals): (plan: Result<Plan, ClientError>)
    ensures plan.Ok? ==> plan.value.Sound() && tools.encode(plan.value.program) == Ok(plan.value.bytes)
  {
    match CompileSnippet(tools, source, locals)
    case Err(error) => Err(CompileFailed(error))
    case Ok(compiled) =>
      var program := compiled.program.(localCount := compiled.locals);
      match program.debug
      case None => Err(MissingDebugInfo)
      case Some(debug) =>
        match Seed(Sorted(locals.Keys), 0, locals, debug, Empty(program.localCount))
        case Err(name) => Err(MissingLocal(name))
        case Ok(seed) =>
          match tools.encode(program)
          case Err(message) => Err(EncodeFailed(message))
          case Ok(bytes) =>
            var slots := M.SlotNames(Sorted(locals.Keys), debug);
            Ok(Plan(program, compiled.bindings, M.MovedNames(tools.isa, program.code, slots), seed, bytes))
  }

  /** The plan with the encoded state, or the first thing that went wrong. */
  ghost function Prepared(tools: Toolchain, source: string, locals: Locals): Result<(Plan, seq<byte>), ClientError>
  {
    match MakePlan(tools, source, locals)
    case Err(error) => Err(error)
    case Ok(plan) =>
      match EncodeState(plan.seed)
      case Err(error) => Err(WireFailed(error))
      case Ok(state) => Ok((plan, state))
  }

  lemma PreparedSound(tools: Toolchain, source: string, locals: Locals)
    ensures Prepared(tools, source, locals).Ok? ==>
              var (plan, state) := Prepared(tools, source, locals).value;
              MakePlan(tools, source, locals) == Ok(plan) && EncodeState(plan.seed) == Ok(state) &&
              plan.Sound() && tools.encode(plan.program) == Ok(plan.bytes)
  {
    hide EncodeState;
  }

  // ----- after the device has answered

  function Saved(plan: Plan, moves: set<string>, binding: Binding, value: ReplValue): SessionLocal
    requires plan.Sound() && binding.name in plan.program.debug.value
  {
    var (schema, optional) := LocalSchema(plan.program.typeMap, plan.program.debug.value[binding.name], value);
    var moved := binding.name in moves ||
                 (!optional && value == Null && (schema == Some(TString) || schema == Some(TBytes)));
    SessionLocal(value, binding.mutable, schema, optional, moved)
  }

  /** The new locals for the bindings from `k` on; a later binding of a name replaces an earlier one. */
  function Sync(plan: Plan, moves: set<string>, values: seq<ReplValue>, k: nat, next: Locals): Result<Locals, string>
    requires plan.Sound() && |values| == plan.program.localCount && k <= |plan.bindings|
    decreases |plan.bindings| - k
  {
    if k == |plan.bindings| then Ok(next)
    else
      var binding := plan.bindings[k];
      if binding.name !in plan.program.debug.value then Err(binding.name)
      else
        var value := values[plan.program.debug.value[binding.name]];
        Sync(plan, moves, values, k + 1, next[binding.name := Saved(plan, moves, binding, value)])
  }

  /** What an evaluation returns and what it leaves saved. */
  datatype Evaluated = Evaluated(result: Result<Option<ReplValue>, ClientError>, locals: Locals)

  /** New locals are saved only when all of them are there; moves count only after a clean run. */
  function Commit(plan: Plan, locals: Locals, status: i32, response: ReplResponse): (e: Evaluated)
    requires plan.Sound()
    ensures e.result.Err? && !e.result.error.Device? ==> e.locals == locals
    ensures e.result.Ok? ==> status == 0 && e.result.value == response.result
  {
    if |response.locals| != plan.program.localCount then
      Evaluated(Err(InvalidLocalCount(plan.program.localCount, |response.locals|)), locals)
    else
      match Sync(plan, if status == 0 then plan.moves else {}, response.locals, 0, map[])
      case Err(name) => Evaluated(Err(MissingLocal(name)), locals)
      case Ok(next) => Evaluated(if status != 0 then Err(Device(status)) else Ok(response.result), next)
  }

  function Conclude(plan: Plan, locals: Locals, exchange: Result<Response, IoError>, usizeMax: nat): (e: Evaluated)
    requires plan.Sound()
    ensures e.result.Err? && !e.result.error.Device? ==> e.locals == locals
    ensures e.result.Err? && e.locals != locals ==>
              exchange.Ok? && exchange.value.status != 0 && e.result == Err(Device(exchange.value.status))
  {
    match exchange
    case Err(error) => Evaluated(Err(IoFailed(error)), locals)
    case Ok(Response(status, payload)) =>
      if status != 0 && payload == [] then Evaluated(Err(Device(status)), locals)
      else
        match DecodeResponse(Input(payload, usizeMax))
        case Err(error) => Evaluated(Err(WireFailed(error)), locals)
        case Ok(response) => Commit(plan, locals, status, response)
  }

  class SerialReplSession {
    const tools: Toolchain
    const usizeMax: nat
    var locals: Locals

    constructor (tools: Toolchain, usizeMax: nat)
      ensures this.tools == tools && this.usizeMax == usizeMax && locals == map[]
    {
      this.tools, this.usizeMax, locals := tools, usizeMax, map[];
    }

    method Clear()
      modifies `locals
      ensures locals == map[]
    {
      locals := map[];
    }

    /** Everything before the device is contacted: compile, plan, seed and encode. */
    method Prepare(source: string) returns (r: Result<(Plan, seq<byte>), ClientError>)
      requires tools.isa.Valid()
      ensures r == Prepared(tools, source, locals)
    {
      hide EncodeState, CompileSnippet, Seed, M.MovedNames;
      var compiled := CompileSnippet(tools, source, locals);
      if compiled.Err? { return Err(CompileFailed(compiled.error)); }
      var program := compiled.value.program.(localCount := compiled.value.locals);
      if program.debug.None? { return Err(MissingDebugInfo); }
      var slots := M.SlotNames(Sorted(locals.Keys), program.debug.value);
      M.SlotNamesInjective(Sorted(locals.Keys), program.debug.value);
      var moves := M.LocalsMovedByRebinding(tools.isa, program.code, slots);
      var seeded := SeedLocals(program.debug.value, program.localCount);
      if seeded.Err? { return Err(MissingLocal(seeded.error)); }
      var encoded := tools.encode(program);
      if encoded.Err? { return Err(EncodeFailed(encoded.error)); }
      var state := C.EncodeReplState(seeded.value);
      if state.Err? { return Err(WireFailed(state.error)); }
      r := Ok((Plan(program, compiled.value.bindings, moves, seeded.value, encoded.value), state.value));
    }

    /** One snippet. `exchange` is what the transport brought back, when it was asked at all. */
    method Eval(source: string, transport: SerialReplTransport)
      returns (r: Result<Option<ReplValue>, ClientError>, ghost exchange: Option<Result<Response, IoError>>)
      requires tools.isa.Valid()
      modifies this`locals, transport`deviceOutput, transport`nextRequestId, transport.io`unread, transport.io`written
      ensures var prepared := Prepared(tools, source, old(locals));
              prepared.Err? ==>
                r == Err(prepared.error) && exchange.None? && locals == old(locals) &&
                LineOf(transport) == old(LineOf(transport))
      ensures var prepared := Prepared(tools, source, old(locals));
              prepared.Ok? ==>
                var (plan, state) := prepared.value;
                exchange.Some? && Evaluated(r, locals) == Conclude(plan, old(locals), exchange.value, usizeMax) &&
                Exchanged(old(LineOf(transport)), transport.io.capacity, transport.io.flushes, plan.bytes, state,
                          exchange.value, LineOf(transport))
    {
      hide Conclude, Exchanged, MakePlan;
      exchange := None;
      var prepared := Prepare(source);
      if prepared.Err? { return Err(prepared.error), None; }
      var (plan, state) := prepared.value;
      PreparedSound(tools, source, locals);
      var outcome := transport.Execute(plan.bytes, state);
      exchange := Some(outcome);
      r := Settle(plan, outcome);
    }

    method SeedLocals(debug: map<string, byte>, localCount: nat) returns (r: Result<seq<ReplValue>, string>)
      requires forall name :: name in debug ==> debug[name] < localCount
      ensures r == Seed(Sorted(locals.Keys), 0, locals, debug, Empty(localCount))
    {
      var names := Sorted(locals.Keys);
      var seed := Empty(localCount);
      for k := 0 to |names|
        invariant |seed| == localCount
        invariant Seed(names, k, locals, debug, seed) == Seed(names, 0, locals, debug, Empty(localCount))
      {
        if names[k] !in debug { return Err(names[k]); }
        seed := seed[debug[names[k]] := locals[names[k]].value];
      }
      r := Ok(seed);
    }

    method Settle(plan: Plan, outcome: Result<Response, IoError>) returns (r: Result<Option<ReplValue>, ClientError>)
      requires plan.Sound()
      modifies `locals
      ensures Evaluated(r, locals) == Conclude(plan, old(locals), outcome, usizeMax)
    {
      hide DecodeResponse, Sync;
      if outcome.Err? { return Err(IoFailed(outcome.error)); }
      var status, payload := outcome.value.status, outcome.value.payload;
      if status != 0 && payload == [] { return Err(Device(status)); }
      var decoded, _ := C.DecodeReplResponse(payload, usizeMax);
      if decoded.Err? { return Err(WireFailed(decoded.error)); }
      var response := decoded.value;
      if |response.locals| != plan.program.localCount {
        return Err(InvalidLocalCount(plan.program.localCount, |response.locals|));
      }
      var missing := SyncLocals(plan, if status == 0 then plan.moves else {}, response.locals);
      if missing.Some? { return Err(MissingLocal(missing.value)); }
      r := if status != 0 then Err(Device(status)) else Ok(response.result);
    }

    method SyncLocals(plan: Plan, moves: set<string>, values: seq<ReplValue>) returns (missing: Option<string>)
      requires plan.Sound() && |values| == plan.program.localCount
      modifies `locals
      ensures match Sync(plan, moves, values, 0, map[])
              case Err(name) => missing == Some(name) && locals == old(locals)
              case Ok(next) => missing == None && locals == next
    {
      hide Saved;
      var debug := plan.program.debug.value;
      var next: Locals := map[];
      for k := 0 to |plan.bindings|
        invariant locals == old(locals)
        invariant Sync(plan, moves, values, k, next) == Sync(plan, moves, values, 0, map[])
      {
        var binding := plan.bindings[k];
        if binding.name !in debug { return Some(binding.name); }
        next := next[binding.name := Saved(plan, moves, binding, values[debug[binding.name]])];
      }
      locals := next;
      missing := None;
    }
  }
}
