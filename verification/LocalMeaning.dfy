/** What the reference session means in terms of compiler and machine alone. */
module LocalMeaning {
  import opened Bytes
  import opened Results
  import opened Wire
  import opened Embedded
  import opened Runs
  import opened Session
  import opened SessionTheorems
  import opened EndToEnd

  /** The machine starts with every saved value in its slot and null everywhere else. */
  predicate Starts(locals: Locals, debug: map<string, byte>, start: seq<Value>)
  {
    (forall name :: name in locals ==>
       name in debug && debug[name] < |start| && Mirrors(locals[name].value, start[debug[name]])) &&
    (forall i :: 0 <= i < |start| && NoSlot(locals, debug, i) ==> start[i] == VNull)
  }

  lemma SeedStarts(locals: Locals, debug: map<string, byte>, seed: seq<ReplValue>, start: seq<Value>)
    requires forall name :: name in debug ==> debug[name] < |seed|
    requires HoldsSaved(locals, debug, seed) && Starts(locals, debug, start) && |seed| == |start|
    ensures ToEmbeddedAll(seed) == start
  {
    hide Mirrors, ToEmbeddedAll;
    forall i | 0 <= i < |seed| ensures Mirrors(seed[i], start[i]) {
      if NoSlot(locals, debug, i) {
        NullMirrors();
      } else {
        var name :| name in locals && name in debug && debug[name] == i;
      }
    }
    AllMirrorOnce(seed, start);
  }

  /** There is such a start: the converted seed. */
  lemma ConvertedSeedStarts(locals: Locals, debug: map<string, byte>, seed: seq<ReplValue>)
    requires (forall name :: name in debug ==> debug[name] < |seed|) && HoldsSaved(locals, debug, seed)
    ensures Starts(locals, debug, ToEmbeddedAll(seed))
  {
    hide Mirrors, ToEmbedded, ToEmbeddedAll;
    CrossingAllIn(seed);
    forall i | 0 <= i < |seed| && NoSlot(locals, debug, i) ensures ToEmbeddedAll(seed)[i] == VNull {
      ToEmbeddedAt(seed, i);
      NullMirrors();
    }
  }

  lemma NullMirrors()
    ensures Mirrors(Null, VNull) && ToEmbedded(Null) == VNull
  {
  }

  /** The run of a compiled snippet. */
  function RunOf<W>(tools: Toolchain, machine: Machine<W>, compiled: Compiled, start: seq<Value>, world: W): Run<W>
    requires tools.encode(compiled.program.(localCount := compiled.locals)).Ok?
  {
    machine.run(tools.encode(compiled.program.(localCount := compiled.locals)).value, start, world)
  }

  lemma PlanRuns<W>(tools: Toolchain, machine: Machine<W>, locals: Locals, source: string, world: W, start: seq<Value>)
    requires MakePlan(tools, source, locals).Ok? && CompileSnippet(tools, source, locals).Ok?
    requires var compiled := CompileSnippet(tools, source, locals).value;
             compiled.program.debug.Some? && |start| == compiled.locals &&
             Starts(locals, compiled.program.debug.value, start)
    ensures var compiled, plan := CompileSnippet(tools, source, locals).value, MakePlan(tools, source, locals).value;
            tools.encode(compiled.program.(localCount := compiled.locals)).Ok? &&
            RunPlan(machine, plan, world) == RunOf(tools, machine, compiled, start, world)
  {
    hide CompileSnippet, MakePlan, HoldsSaved, Starts, ToEmbeddedAll;
    PlanFollowsCompiler(tools, source, locals);
    PlanSeed(tools, source, locals);
    var compiled, plan := CompileSnippet(tools, source, locals).value, MakePlan(tools, source, locals).value;
    assert plan.program == compiled.program.(localCount := compiled.locals);
    SeedStarts(locals, plan.program.debug.value, plan.seed, start);
  }

  /** The result an accepted run gives: the top of the stack after a clean end, otherwise how it ended. */
  predicate ResultOf<W>(result: Result<Option<ReplValue>, ClientError>, run: Run<W>)
  {
    match run.end
    case Halted =>
      result.Ok? && (result.value.Some? <==> |run.stack| > 0) &&
      (|run.stack| > 0 ==> Mirrors(result.value.value, run.stack[|run.stack| - 1]))
    case OutOfFuel => result == Err(ClientError.Device(-4))
    case HostError => result == Err(ClientError.Device(-3))
    case HostCallsUnavailable => result == Err(ClientError.Device(-3))
    case OtherError => result == Err(ClientError.Device(-5))
  }

  /** One evaluation of the reference session, from the compiler's output and the run alone: the names the snippet binds
      are saved, each with what the machine left in its slot, and nothing else; unless a callable, another number of
      locals or a bound name without a slot is in the way, and then nothing changes. */
  lemma LocalEvalMeans<W>(tools: Toolchain, machine: Machine<W>, locals: Locals, source: string, world: W,
                          start: seq<Value>)
    requires MakePlan(tools, source, locals).Ok? && CompileSnippet(tools, source, locals).Ok?
    requires var compiled := CompileSnippet(tools, source, locals).value;
             compiled.program.debug.Some? && |start| == compiled.locals &&
             Starts(locals, compiled.program.debug.value, start) &&
             tools.encode(compiled.program.(localCount := compiled.locals)).Ok?
    ensures var compiled := CompileSnippet(tools, source, locals).value;
            var run := RunOf(tools, machine, compiled, start, world);
            LocalEval(tools, machine, locals, source, world).1 == run.world
    ensures var compiled := CompileSnippet(tools, source, locals).value;
            var debug, bindings := compiled.program.debug.value, compiled.bindings;
            var run := RunOf(tools, machine, compiled, start, world);
            var e := LocalEval(tools, machine, locals, source, world).0;
            if Unspeakable(run) then e == Evaluated(Err(ClientError.Device(-6)), locals)
            else if |run.locals| != compiled.locals then
              e == Evaluated(Err(InvalidLocalCount(compiled.locals, |run.locals|)), locals)
            else if !AllKnown(bindings, debug, 0) then
              e.locals == locals && e.result.Err? && e.result.error.MissingLocal? &&
              NamesFirstUnknown(bindings, debug, 0, e.result.error.name)
            else
              ResultOf(e.result, run) &&
              (forall name :: name in e.locals <==> !Unbound(bindings, 0, name)) &&
              (forall name :: name in e.locals ==>
                 name in debug && debug[name] < |run.locals| && Mirrors(e.locals[name].value, run.locals[debug[name]]))
  {
    hide CompileSnippet, MakePlan, Commit, Reported, Mirrors, Unspeakable, LocalSchema, Emptied, RunOf,
      RunPlan, Starts, AllKnown, NamesFirstUnknown, Unbound;
    var compiled, plan := CompileSnippet(tools, source, locals).value, MakePlan(tools, source, locals).value;
    PlanFollowsCompiler(tools, source, locals);
    PlanRuns(tools, machine, locals, source, world, start);
    var run := RunPlan(machine, plan, world);
    ReportedTells(run);
    if Reported(run).Some? {
      var response := Reported(run).value;
      CommitOutcome(plan, locals, VmStatus(run.end), response);
      CommitSaves(plan, locals, VmStatus(run.end), response);
    }
  }
}
