/** A session talking to a device over the line, against a session that hands its locals straight to the machine. */
module EndToEnd {
  import opened Bytes
  import opened Results
  import opened Wire
  import opened Frames
  import opened Embedded
  import opened Session
  import opened Transport
  import Crc
  import T = WireTheorems
  import D = Device
  import S = Service

  /** What the compiler encodes, the machine of the device accepts, with the same number of locals. */
  ghost predicate Agrees<W>(tools: Toolchain, machine: Machine<W>)
  {
    forall program, bytes :: tools.encode(program) == Ok(bytes) ==>
      bytes != [] && machine.accepts(bytes) && machine.localCount(bytes) == program.localCount
  }

  // ----- both sides of the comparison

  /** What evaluating a snippet comes to when the run's locals and result are taken over as they are; a run that
      leaves a callable behind is refused. */
  function TakeOver<W>(plan: Plan, locals: Locals, run: Run<W>): Evaluated
    requires plan.Sound()
  {
    match Reported(run)
    case None => Evaluated(Err(ClientError.Device(STATUS_INVALID_REPL_STATE)), locals)
    case Some(response) => Commit(plan, locals, VmStatus(run.end), response)
  }

  function RunPlan<W>(machine: Machine<W>, plan: Plan, world: W): Run<W>
  {
    machine.run(plan.bytes, ToEmbeddedAll(plan.seed), world)
  }

  /** No encoding, no frames, no device: the reference. */
  ghost function LocalEval<W>(tools: Toolchain, machine: Machine<W>, locals: Locals, source: string, world: W)
    : (Evaluated, W)
  {
    match MakePlan(tools, source, locals)
    case Err(error) => (Evaluated(Err(error), locals), world)
    case Ok(plan) => (TakeOver(plan, locals, RunPlan(machine, plan, world)), RunPlan(machine, plan, world).world)
  }

  /** The next request's identifier and the bytes of the device not yet read. */
  datatype Link = Link(id: u32, unread: seq<byte>)

  /** Host and device with the widths of their `usize`, and the machine in the device. */
  datatype Setup<!W> = Setup(tools: Toolchain, hostMax: nat, machine: Machine<W>, deviceMax: nat) {
    ghost predicate Valid() { hostMax >= U32_SIZE - 1 && deviceMax >= U32_SIZE - 1 && Agrees(tools, machine) }
  }

  datatype Remote<+W> = Remote(evaluated: Evaluated, link: Link, world: W)

  /** One request over the line: framed, served by the device, its response found in the device's output. */
  function OverLine<W>(setup: Setup<W>, link: Link, program: seq<byte>, state: seq<byte>, world: W)
    : (Result<Response, IoError>, Link, W)
  {
    if |program| + |state| > MAX_FRAME_BYTES then (Err(InvalidInput), link, world)
    else
      var served := D.Serve(setup.machine, setup.deviceMax, RequestFrame(link.id, program, state), D.CALM, world);
      var stream := link.unread + served.sent;
      var reception := Receive(stream, link.id);
      (reception.result,
       Link(NextId(link.id), if reception.taken <= |stream| then stream[reception.taken..] else []),
       served.world)
  }

  /** The plan encoded, taken over the line and back, decoded and committed. */
  function RemotePlan<W>(setup: Setup<W>, link: Link, plan: Plan, locals: Locals, world: W): Remote<W>
    requires plan.Sound()
  {
    match EncodeState(plan.seed)
    case Err(error) => Remote(Evaluated(Err(WireFailed(error)), locals), link, world)
    case Ok(state) =>
      var (outcome, link', world') := OverLine(setup, link, plan.bytes, state, world);
      Remote(Conclude(plan, locals, outcome, setup.hostMax), link', world')
  }

  ghost function RemoteEval<W>(setup: Setup<W>, link: Link, locals: Locals, source: string, world: W): Remote<W>
  {
    match MakePlan(setup.tools, source, locals)
    case Err(error) => Remote(Evaluated(Err(error), locals), link, world)
    case Ok(plan) => RemotePlan(setup, link, plan, locals, world)
  }

  // ----- the limits

  predicate FitsOut(plan: Plan)
  {
    EncodeState(plan.seed).Ok? && |plan.bytes| + |EncodeState(plan.seed).value| <= MAX_FRAME_BYTES
  }

  predicate FitsDevice(plan: Plan) { NodesOfAll(plan.seed) <= MAX_VALUE_NODES }

  predicate FitsBack<W>(run: Run<W>)
  {
    Reported(run).Some? ==>
      EncodeResponse(Reported(run).value).Ok? && T.NodesOfResponse(Reported(run).value) <= MAX_VALUE_NODES
  }

  /** No matching header comes before the response. */
  predicate Unforged<W>(link: Link, reply: Reply<W>)
    requires |reply.output| <= MAX_WIRE_BYTES
  {
    NoMatchBefore(link.unread + (reply.log + ResponseFrame(link.id, reply.status, reply.output)),
                  |link.unread| + |reply.log|, link.id)
  }

  predicate Short<W>(link: Link, reply: Reply<W>) { |link.unread| + |reply.log| <= MAX_PRELUDE }

  /** Everything one evaluation needs to come through unchanged. */
  predicate WithinLimits<W>(setup: Setup<W>, link: Link, plan: Plan, world: W)
  {
    var run := RunPlan(setup.machine, plan, world);
    FitsOut(plan) && FitsDevice(plan) && FitsBack(run) && Unforged(link, Answer(run)) && Short(link, Answer(run))
  }

  /** Text without the four magic bytes, left over or printed during the run, cannot forge a header. */
  lemma QuietIsUnforged<W>(link: Link, reply: Reply<W>)
    requires |reply.output| <= MAX_WIRE_BYTES
    requires forall j :: 0 <= j < |link.unread + reply.log| ==> !MagicAt(link.unread + reply.log, j)
    ensures Unforged(link, reply)
  {
    hide MakeHeader, NoMatchBefore, MagicAt;
    var prelude, frame := link.unread + reply.log, ResponseFrame(link.id, reply.status, reply.output);
    QuietLog(prelude, link.id, reply.status, Crc.Checksum(reply.output), reply.output, []);
    assert prelude + frame + [] == link.unread + (reply.log + frame);
  }

  // ----- one evaluation

  lemma DeviceRuns<W>(setup: Setup<W>, plan: Plan, world: W)
    requires setup.Valid() && plan.Sound() && FitsOut(plan) && setup.tools.encode(plan.program) == Ok(plan.bytes)
    ensures RunVmbc(setup.machine, plan.bytes, Input(EncodeState(plan.seed).value, setup.deviceMax), world)
         == if FitsDevice(plan) then Answer(RunPlan(setup.machine, plan, world))
            else Reply(STATUS_INVALID_REPL_STATE, [], [], world)
  {
    hide DecodeState, Answer, SetLocals, ToEmbeddedAll, NodesOfAll;
    var state := EncodeState(plan.seed).value;
    EncodedNotEmpty(plan.seed);
    T.StateRoundTrip(Input(state, setup.deviceMax), plan.seed);
    SetLocalsIsAll(plan.seed, 0, Nulls(|plan.seed|));
  }

  lemma EncodedNotEmpty(locals: seq<ReplValue>)
    ensures EncodeState(locals).Ok? ==> EncodeState(locals).value != []
  {
    hide EncodeAll;
  }

  /** The bytes that come back from the device, when the request was small enough to be sent. */
  lemma DeviceAnswers<W>(setup: Setup<W>, link: Link, plan: Plan, locals: Locals, world: W)
    requires setup.Valid() && plan.Sound() && FitsOut(plan) && setup.tools.encode(plan.program) == Ok(plan.bytes)
    ensures var state := Input(EncodeState(plan.seed).value, setup.deviceMax);
            var reply := RunVmbc(setup.machine, plan.bytes, state, world);
            var stream := link.unread + (reply.log + ResponseFrame(link.id, reply.status, reply.output));
            var reception := Receive(stream, link.id);
            RemotePlan(setup, link, plan, locals, world)
            == Remote(Conclude(plan, locals, reception.result, setup.hostMax),
                      Link(NextId(link.id), if reception.taken <= |stream| then stream[reception.taken..] else []),
                      reply.world)
  {
    hide RunVmbc, ResponseFrame, Receive, Conclude, D.Serve, RequestFrame, EncodeState;
    var state := EncodeState(plan.seed).value;
    EncodedNotEmpty(plan.seed);
    S.RequestServed(setup.machine, setup.deviceMax, link.id, plan.bytes, state, [], D.CALM, world);
    assert RequestFrame(link.id, plan.bytes, state) + [] == RequestFrame(link.id, plan.bytes, state);
  }

  /** An unforged response within the prelude limit is taken to its last byte; beyond the limit nothing is. */
  lemma AnswerHeard<W>(link: Link, reply: Reply<W>)
    requires |reply.output| <= MAX_WIRE_BYTES && Unforged(link, reply)
    ensures var stream := link.unread + (reply.log + ResponseFrame(link.id, reply.status, reply.output));
            var reception := Receive(stream, link.id);
            if Short(link, reply) then
              reception == Reception(Ok(Response(reply.status, reply.output)), link.unread + reply.log, |stream|)
            else reception.result.Err?
  {
    hide MakeHeader, Scan, NoMatchBefore, MatchAt;
    var prelude := link.unread + reply.log;
    var frame := ResponseFrame(link.id, reply.status, reply.output);
    var stream := link.unread + (reply.log + frame);
    assert stream == prelude + frame + [];
    if Short(link, reply) {
      FrameReceived(prelude, link.id, reply.status, Crc.Checksum(reply.output), reply.output, []);
    } else {
      NeverFound(stream, link.id, |prelude|);
    }
  }

  lemma NeverFound(s: seq<byte>, id: u32, n: nat)
    requires NoMatchBefore(s, n, id) && n > MAX_PRELUDE
    ensures Receive(s, id).result.Err?
  {
    hide MatchAt;
    if Scan(s, id, 0, 0).Found? {
      ScanFindsFirst(s, id, Scan(s, id, 0, 0).at);
      assert false;
    }
  }

  /** What the client makes of the answer to a run. */
  lemma AnswerTakenOver<W>(setup: Setup<W>, plan: Plan, locals: Locals, run: Run<W>)
    requires setup.hostMax >= U32_SIZE - 1 && plan.Sound()
    ensures var reply := Answer(run);
            var concluded := Conclude(plan, locals, Ok(Response(reply.status, reply.output)), setup.hostMax);
            if FitsBack(run) then concluded == TakeOver(plan, locals, run)
            else concluded.result.Err? && concluded.locals == locals
  {
    hide Commit, Reported, DecodeResponse, EncodeResponse, T.NodesOfResponse;
    if Reported(run).Some? && EncodeResponse(Reported(run).value).Ok? {
      var encoded := EncodeResponse(Reported(run).value).value;
      ResponseNotEmpty(Reported(run).value);
      T.ResponseRoundTrip(Input(encoded, setup.hostMax), Reported(run).value);
    }
  }

  lemma ResponseNotEmpty(response: ReplResponse)
    ensures EncodeResponse(response).Ok? ==> EncodeResponse(response).value != []
  {
    hide EncodeAll, EncodeResult;
  }

  /** Within the limits the device is invisible: same result, same saved locals, same world, nothing left unread. */
  lemma EvalRefines<W>(setup: Setup<W>, link: Link, locals: Locals, source: string, world: W)
    requires setup.Valid()
    requires var plan := MakePlan(setup.tools, source, locals);
             plan.Ok? ==> WithinLimits(setup, link, plan.value, world)
    ensures var local := LocalEval(setup.tools, setup.machine, locals, source, world);
            var link' := if MakePlan(setup.tools, source, locals).Ok? then Link(NextId(link.id), []) else link;
            RemoteEval(setup, link, locals, source, world) == Remote(local.0, link', local.1)
  {
    hide MakePlan, RunVmbc, Reported, EncodeResponse, Conclude, TakeOver, Receive, ResponseFrame, FitsOut, FitsDevice,
      FitsBack, Unforged, Short, RemotePlan, NextId;
    var plan := MakePlan(setup.tools, source, locals);
    if plan.Ok? {
      var run := RunPlan(setup.machine, plan.value, world);
      DeviceAnswers(setup, link, plan.value, locals, world);
      DeviceRuns(setup, plan.value, world);
      AnswerHeard(link, Answer(run));
      AnswerTakenOver(setup, plan.value, locals, run);
      var stream := link.unread + (Answer(run).log + ResponseFrame(link.id, Answer(run).status, Answer(run).output));
      assert stream[|stream|..] == [];
    }
  }

  /** The device's answer to a plan that was small enough to be sent. */
  function ReplyTo<W>(setup: Setup<W>, plan: Plan, world: W): (reply: Reply<W>)
    requires FitsOut(plan)
    ensures |reply.output| <= MAX_WIRE_BYTES && Recognisable(reply.status, reply.output)
  {
    RunVmbc(setup.machine, plan.bytes, Input(EncodeState(plan.seed).value, setup.deviceMax), world)
  }

  /** Whatever the sizes, without a forged header an evaluation comes out as the local one, or it fails, saves nothing
      and leaves the world as it was or as the run leaves it. */
  lemma EvalNeverWrong<W>(setup: Setup<W>, link: Link, locals: Locals, source: string, world: W)
    requires setup.Valid()
    requires var plan := MakePlan(setup.tools, source, locals);
             plan.Ok? && FitsOut(plan.value) ==> Unforged(link, ReplyTo(setup, plan.value, world))
    ensures var remote := RemoteEval(setup, link, locals, source, world);
            var local := LocalEval(setup.tools, setup.machine, locals, source, world);
            (remote.evaluated == local.0 && remote.world == local.1) ||
            (remote.evaluated.result.Err? && remote.evaluated.locals == locals &&
             (remote.world == world || remote.world == local.1))
  {
    hide MakePlan, RunVmbc, Answer, TakeOver, Receive, ResponseFrame, FitsDevice, FitsBack, Unforged, Short, NextId,
      Commit, DecodeResponse;
    var plan := MakePlan(setup.tools, source, locals);
    if plan.Ok? && FitsOut(plan.value) {
      var run := RunPlan(setup.machine, plan.value, world);
      DeviceAnswers(setup, link, plan.value, locals, world);
      DeviceRuns(setup, plan.value, world);
      AnswerHeard(link, ReplyTo(setup, plan.value, world));
      AnswerTakenOver(setup, plan.value, locals, run);
    }
  }

  /** Too deep, too large or too many nodes: refused with the program not run and nothing saved. */
  lemma RefusedBeforeRun<W>(setup: Setup<W>, link: Link, plan: Plan, locals: Locals, world: W)
    requires setup.Valid() && plan.Sound() && setup.tools.encode(plan.program) == Ok(plan.bytes)
    requires FitsOut(plan) ==> !FitsDevice(plan)
    requires FitsOut(plan) ==> Unforged(link, ReplyTo(setup, plan, world)) && Short(link, ReplyTo(setup, plan, world))
    ensures var remote := RemotePlan(setup, link, plan, locals, world);
            remote.world == world && remote.evaluated.locals == locals &&
            remote.evaluated.result
            == Err(if EncodeState(plan.seed).Err? then WireFailed(EncodeState(plan.seed).error)
                       else if !FitsOut(plan) then IoFailed(InvalidInput)
                       else ClientError.Device(STATUS_INVALID_REPL_STATE))
  {
    hide RunVmbc, Answer, Receive, ResponseFrame, FitsDevice, Unforged, Short, NextId, Commit, DecodeResponse;
    if FitsOut(plan) {
      DeviceAnswers(setup, link, plan, locals, world);
      DeviceRuns(setup, plan, world);
      AnswerHeard(link, ReplyTo(setup, plan, world));
    }
  }

  /** A response too large or with too many nodes: the program did run, the world shows it, nothing is saved. */
  lemma RefusedAfterRun<W>(setup: Setup<W>, link: Link, plan: Plan, locals: Locals, world: W)
    requires setup.Valid() && plan.Sound() && setup.tools.encode(plan.program) == Ok(plan.bytes)
    requires FitsOut(plan) && FitsDevice(plan) && !FitsBack(RunPlan(setup.machine, plan, world))
    requires Unforged(link, Answer(RunPlan(setup.machine, plan, world)))
    requires Short(link, Answer(RunPlan(setup.machine, plan, world)))
    ensures var remote := RemotePlan(setup, link, plan, locals, world);
            var run := RunPlan(setup.machine, plan, world);
            remote.world == run.world && remote.evaluated.locals == locals &&
            remote.evaluated.result
            == Err(if EncodeResponse(Reported(run).value).Err? then ClientError.Device(STATUS_INVALID_REPL_STATE)
                       else WireFailed(LengthOverflow))
  {
    hide RunVmbc, Receive, ResponseFrame, FitsOut, FitsDevice, Unforged, Short, NextId, Commit, DecodeResponse,
      Reported, EncodeResponse, T.NodesOfResponse, RemotePlan, RunPlan;
    var run := RunPlan(setup.machine, plan, world);
    DeviceAnswers(setup, link, plan, locals, world);
    DeviceRuns(setup, plan, world);
    AnswerHeard(link, Answer(run));
    var response := Reported(run).value;
    if EncodeResponse(response).Ok? {
      ResponseNotEmpty(response);
      T.ResponseRoundTrip(Input(EncodeResponse(response).value, setup.hostMax), response);
    }
  }

  // ----- session, transport and device in one method

  /** The program of a plan is not empty, nor is an encoded state. */
  lemma PartsNotEmpty<W>(tools: Toolchain, machine: Machine<W>, plan: Plan, state: seq<byte>)
    requires Agrees(tools, machine)
    requires tools.encode(plan.program) == Ok(plan.bytes) && EncodeState(plan.seed) == Ok(state)
    ensures plan.bytes != [] && state != []
  {
    hide EncodeState;
    EncodedNotEmpty(plan.seed);
  }

  lemma FrameStarts(id: u32, program: seq<byte>, state: seq<byte>)
    requires |program| < U32_SIZE && |state| < U32_SIZE
    ensures var frame := RequestFrame(id, program, state);
            |frame| == FRAME_HEADER_LEN + |program| + |state| && frame[0] == D.FIRST_BYTE
  {
  }

  lemma RemoteOfPrepared<W>(setup: Setup<W>, link: Link, locals: Locals, source: string, world: W)
    ensures match Prepared(setup.tools, source, locals)
            case Err(error) =>
              RemoteEval(setup, link, locals, source, world) == Remote(Evaluated(Err(error), locals), link, world)
            case Ok((plan, state)) =>
              plan.Sound() &&
              var line := OverLine(setup, link, plan.bytes, state, world);
              RemoteEval(setup, link, locals, source, world)
              == Remote(Conclude(plan, locals, line.0, setup.hostMax), line.1, line.2)
  {
    hide MakePlan, EncodeState, OverLine, Conclude;
  }

  /** With memory, what is thrown away plays no part: the frame is served as on a calm line, to its last byte. */
  lemma ServedCalmly<W>(setup: Setup<W>, id: u32, program: seq<byte>, state: seq<byte>, chance: D.Chance, world: W)
    requires program != [] && state != [] && |program| + |state| <= MAX_FRAME_BYTES && chance.Memory()
    ensures var frame := RequestFrame(id, program, state);
            var served := D.Serve(setup.machine, setup.deviceMax, frame, chance, world);
            served == D.Serve(setup.machine, setup.deviceMax, frame, D.CALM, world) && served.taken == |frame|
  {
    hide RequestFrame, D.Serve, RunVmbc, ResponseFrame;
    FrameStarts(id, program, state);
    S.RequestServed(setup.machine, setup.deviceMax, id, program, state, [], chance, world);
    S.RequestServed(setup.machine, setup.deviceMax, id, program, state, [], D.CALM, world);
    assert RequestFrame(id, program, state) + [] == RequestFrame(id, program, state);
  }

  /** The request is written, the device serves it, and what it wrote arrives behind what was still unread. */
  method ExchangeOnLine<W(0)>(ghost setup: Setup<W>, transport: SerialReplTransport, device: D.ReplDevice<W>,
                              program: seq<byte>, state: seq<byte>)
    returns (outcome: Result<Response, IoError>)
    requires setup.machine == device.machine && setup.deviceMax == device.usizeMax
    requires program != [] && state != []
    requires transport.io != device.serial && device.serial.unread == []
    requires transport.io.capacity == None && transport.io.flushes && device.serial.capacity == None
    modifies transport`deviceOutput, transport`nextRequestId, transport.io`unread, transport.io`written
    modifies device`world, device.serial`unread, device.serial`written
    ensures (outcome, Link(transport.nextRequestId, transport.io.unread), device.world)
         == OverLine(setup, old(Link(transport.nextRequestId, transport.io.unread)), program, state, old(device.world))
    ensures device.serial.unread == []
  {
    hide RequestFrame, D.Serve, Receive, Taken, NextId;
    ghost var id, before, unread := transport.nextRequestId, |transport.io.written|, transport.io.unread;
    var start := |transport.io.written|;
    var sent := transport.Send(program, state);
    if sent.Err? { return Err(sent.error); }
    ghost var frame := RequestFrame(id, program, state);
    assert transport.io.written[start..] == frame;
    var answer := Carry(setup, device, transport.io.written[start..], id, program, state);
    transport.io.unread := transport.io.unread + answer;
    outcome := transport.AwaitResponse(sent.value);
  }

  /** The request arrives at the idle device, which serves it; `answer` is what it puts on the line. */
  method Carry<W(0)>(ghost setup: Setup<W>, device: D.ReplDevice<W>, frame: seq<byte>,
                     ghost id: u32, ghost program: seq<byte>, ghost state: seq<byte>)
    returns (answer: seq<byte>)
    requires setup.machine == device.machine && setup.deviceMax == device.usizeMax
    requires program != [] && state != [] && |program| + |state| <= MAX_FRAME_BYTES
    requires frame == RequestFrame(id, program, state)
    requires device.serial.unread == [] && device.serial.capacity == None
    modifies device`world, device.serial`unread, device.serial`written
    ensures var served := D.Serve(setup.machine, setup.deviceMax, frame, D.CALM, old(device.world));
            answer == served.sent && device.world == served.world
    ensures device.serial.unread == []
  {
    hide RequestFrame, D.Serve;
    FrameStarts(id, program, state);
    var start := |device.serial.written|;
    ghost var world := device.world;
    device.serial.unread := frame;
    ghost var chance := device.ServeFrame(true, true);
    ServedCalmly(setup, id, program, state, chance, world);
    answer := device.serial.written[start..];
  }

  /** A whole evaluation with nothing between session and device but the line. */
  method EvalOnDevice<W(0)>(session: SerialReplSession, transport: SerialReplTransport, device: D.ReplDevice<W>,
                            source: string)
    returns (r: Result<Option<ReplValue>, ClientError>)
    requires session.tools.isa.Valid() && Agrees(session.tools, device.machine)
    requires transport.io != device.serial && device.serial.unread == []
    requires transport.io.capacity == None && transport.io.flushes && device.serial.capacity == None
    modifies session`locals, transport`deviceOutput, transport`nextRequestId, transport.io`unread, transport.io`written
    modifies device`world, device.serial`unread, device.serial`written
    ensures RemoteEval(Setup(session.tools, session.usizeMax, device.machine, device.usizeMax),
                       old(Link(transport.nextRequestId, transport.io.unread)), old(session.locals), source,
                       old(device.world))
         == Remote(Evaluated(r, session.locals), Link(transport.nextRequestId, transport.io.unread), device.world)
    ensures device.serial.unread == []
  {
    hide OverLine, Conclude, RemoteEval, Prepared, MakePlan, Agrees;
    ghost var setup := Setup(session.tools, session.usizeMax, device.machine, device.usizeMax);
    RemoteOfPrepared(setup, Link(transport.nextRequestId, transport.io.unread), session.locals, source, device.world);
    var prepared := session.Prepare(source);
    if prepared.Err? { return Err(prepared.error); }
    var (plan, state) := prepared.value;
    PreparedSound(session.tools, source, session.locals);
    PartsNotEmpty(session.tools, device.machine, plan, state);
    var outcome := ExchangeOnLine(setup, transport, device, plan.bytes, state);
    r := session.Settle(plan, outcome);
  }

  /** Snippet after snippet, on the same session, line and device. */
  method SessionOnDevice<W(0)>(session: SerialReplSession, transport: SerialReplTransport, device: D.ReplDevice<W>,
                               sources: seq<string>)
    returns (results: seq<Result<Option<ReplValue>, ClientError>>)
    requires session.tools.isa.Valid() && Agrees(session.tools, device.machine)
    requires transport.io != device.serial && device.serial.unread == []
    requires transport.io.capacity == None && transport.io.flushes && device.serial.capacity == None
    modifies session`locals, transport`deviceOutput, transport`nextRequestId, transport.io`unread, transport.io`written
    modifies device`world, device.serial`unread, device.serial`written
    ensures RemoteSession(Setup(session.tools, session.usizeMax, device.machine, device.usizeMax),
                          old(Link(transport.nextRequestId, transport.io.unread)), old(session.locals), sources,
                          old(device.world))
         == (Transcript(results, session.locals, device.world), Link(transport.nextRequestId, transport.io.unread))
    ensures device.serial.unread == []
    decreases |sources|
  {
    hide RemoteEval, Agrees;
    if sources == [] { return []; }
    var first := EvalOnDevice(session, transport, device, sources[0]);
    var later := SessionOnDevice(session, transport, device, sources[1..]);
    results := [first] + later;
  }

  // ----- whole sessions

  /** What a session returned, snippet by snippet, and what it left behind. */
  datatype Transcript<+W> = Transcript(results: seq<Result<Option<ReplValue>, ClientError>>, locals: Locals, world: W)

  ghost function LocalSession<W>(tools: Toolchain, machine: Machine<W>, locals: Locals, sources: seq<string>, world: W)
    : Transcript<W>
    decreases |sources|
  {
    if sources == [] then Transcript([], locals, world)
    else
      var (first, world') := LocalEval(tools, machine, locals, sources[0], world);
      var later := LocalSession(tools, machine, first.locals, sources[1..], world');
      Transcript([first.result] + later.results, later.locals, later.world)
  }

  ghost function RemoteSession<W>(setup: Setup<W>, link: Link, locals: Locals, sources: seq<string>, world: W)
    : (Transcript<W>, Link)
    decreases |sources|
  {
    if sources == [] then (Transcript([], locals, world), link)
    else
      var first := RemoteEval(setup, link, locals, sources[0], world);
      var (later, link') := RemoteSession(setup, first.link, first.evaluated.locals, sources[1..], first.world);
      (Transcript([first.evaluated.result] + later.results, later.locals, later.world), link')
  }

  /** Every snippet that gets as far as the device stays within the limits, along the local session. */
  ghost predicate SessionWithinLimits<W>(setup: Setup<W>, link: Link, locals: Locals, sources: seq<string>, world: W)
    decreases |sources|
  {
    sources != [] ==>
      var plan := MakePlan(setup.tools, sources[0], locals);
      var link' := if plan.Ok? then Link(NextId(link.id), []) else link;
      var (first, world') := LocalEval(setup.tools, setup.machine, locals, sources[0], world);
      (plan.Ok? ==> WithinLimits(setup, link, plan.value, world)) &&
      SessionWithinLimits(setup, link', first.locals, sources[1..], world')
  }

  /** A whole session over the line is the local session: same results in order, same saved locals, same world. */
  lemma {:induction false} SessionRefines<W>(setup: Setup<W>, link: Link, locals: Locals, sources: seq<string>,
                                             world: W)
    requires setup.Valid() && SessionWithinLimits(setup, link, locals, sources, world)
    ensures RemoteSession(setup, link, locals, sources, world).0
         == LocalSession(setup.tools, setup.machine, locals, sources, world)
    decreases |sources|
  {
    hide MakePlan, WithinLimits, RemoteEval, LocalEval, NextId;
    if sources != [] {
      EvalRefines(setup, link, locals, sources[0], world);
      var first := RemoteEval(setup, link, locals, sources[0], world);
      SessionRefines(setup, first.link, first.evaluated.locals, sources[1..], first.world);
    }
  }

  // ----- sessions in which evaluations fail

  /** What can become of an evaluation over the line: it comes through, the program is not run, or the program is run
      and its locals are not saved. */
  datatype Fate =
    | Completed
    | NotRun(error: ClientError)
    | NotSaved(error: ClientError)

  ghost function FatedEval<W>(tools: Toolchain, machine: Machine<W>, locals: Locals, source: string, fate: Fate,
                              world: W)
    : (Evaluated, W)
  {
    var local := LocalEval(tools, machine, locals, source, world);
    match fate
    case Completed => local
    case NotRun(error) => (Evaluated(Err(error), locals), world)
    case NotSaved(error) => (Evaluated(Err(error), locals), local.1)
  }

  /** The local session when each snippet meets its fate. */
  ghost function FatedSession<W>(tools: Toolchain, machine: Machine<W>, locals: Locals, sources: seq<string>,
                                 fates: seq<Fate>, world: W)
    : Transcript<W>
    requires |fates| == |sources|
    decreases |sources|
  {
    if sources == [] then Transcript([], locals, world)
    else
      var (first, world') := FatedEval(tools, machine, locals, sources[0], fates[0], world);
      var later := FatedSession(tools, machine, first.locals, sources[1..], fates[1..], world');
      Transcript([first.result] + later.results, later.locals, later.world)
  }

  /** Every answer that arrives during the remote session is unforged. */
  ghost predicate SessionUnforged<W>(setup: Setup<W>, link: Link, locals: Locals, sources: seq<string>, world: W)
    decreases |sources|
  {
    sources != [] ==>
      var plan := MakePlan(setup.tools, sources[0], locals);
      var first := RemoteEval(setup, link, locals, sources[0], world);
      (plan.Ok? && FitsOut(plan.value) ==> Unforged(link, ReplyTo(setup, plan.value, world))) &&
      SessionUnforged(setup, first.link, first.evaluated.locals, sources[1..], first.world)
  }

  /** A session over the line, however many of its evaluations fail for size, depth or length of output, is a local
      session in which those snippets fail and save nothing. */
  lemma {:induction false} SessionNeverWrong<W>(setup: Setup<W>, link: Link, locals: Locals, sources: seq<string>,
                                                world: W)
    returns (fates: seq<Fate>)
    requires setup.Valid() && SessionUnforged(setup, link, locals, sources, world)
    ensures |fates| == |sources|
    ensures RemoteSession(setup, link, locals, sources, world).0
         == FatedSession(setup.tools, setup.machine, locals, sources, fates, world)
    decreases |sources|
  {
    hide MakePlan, RemoteEval, LocalEval, Unforged, FitsOut, ReplyTo;
    if sources == [] { return []; }
    EvalNeverWrong(setup, link, locals, sources[0], world);
    var first := RemoteEval(setup, link, locals, sources[0], world);
    var local := LocalEval(setup.tools, setup.machine, locals, sources[0], world);
    var fate := if first.evaluated == local.0 && first.world == local.1 then Completed
                else if first.world == world then NotRun(first.evaluated.result.error)
                else NotSaved(first.evaluated.result.error);
    var later := SessionNeverWrong(setup, first.link, first.evaluated.locals, sources[1..], first.world);
    fates := [fate] + later;
  }
}
