/** What an evaluation does to the saved locals. */
module SessionTheorems {
  import opened Bytes
  import opened Results
  import opened Names
  import opened Wire
  import opened Session
  import F = Frames
  import M = MoveScanner

  /** Slot `i` belongs to none of the names from `k` on. */
  predicate Unclaimed(names: seq<string>, k: nat, debug: map<string, byte>, i: nat)
  {
    forall j :: k <= j < |names| && names[j] in debug ==> debug[names[j]] != i
  }

  predicate Seeded(names: seq<string>, k: nat, locals: Locals, debug: map<string, byte>, seed: seq<ReplValue>)
    requires forall name :: name in names ==> name in locals
    requires forall name :: name in debug ==> debug[name] < |seed|
  {
    forall j :: k <= j < |names| ==> names[j] in debug && seed[debug[names[j]]] == locals[names[j]].value
  }

  predicate Ascending(names: seq<string>) { forall i, j :: 0 <= i < j < |names| ==> Less(names[i], names[j]) }

  lemma AscendingDistinct(names: seq<string>, i: nat, j: nat)
    requires Ascending(names) && i < |names| && j < |names| && names[i] == names[j]
    ensures i == j
  {
    Trichotomy(names[i], names[j]);
  }

  lemma {:induction false} SeedFills(names: seq<string>, k: nat, locals: Locals, debug: map<string, byte>,
                                     seed: seq<ReplValue>)
    requires k <= |names| && (forall name :: name in names ==> name in locals) && Ascending(names)
    requires (forall name :: name in debug ==> debug[name] < |seed|) && M.Injective(debug)
    ensures match Seed(names, k, locals, debug, seed)
            case Ok(r) =>
              Seeded(names, k, locals, debug, r) &&
              forall i :: 0 <= i < |seed| && Unclaimed(names, k, debug, i) ==> r[i] == seed[i]
            case Err(name) =>
              name !in debug && exists j :: k <= j < |names| && names[j] == name && AllIn(names, k, j, debug)
    decreases |names| - k
  {
    if k < |names| {
      if names[k] in debug {
        var seed' := seed[debug[names[k]] := locals[names[k]].value];
        SeedFills(names, k + 1, locals, debug, seed');
        assert Unclaimed(names, k + 1, debug, debug[names[k]]) by {
          forall j | k + 1 <= j < |names| && names[j] in debug ensures debug[names[j]] != debug[names[k]] {
            if names[j] == names[k] { AscendingDistinct(names, k, j); }
          }
        }
        forall i | 0 <= i < |seed| && Unclaimed(names, k, debug, i) ensures Unclaimed(names, k + 1, debug, i) {
        }
        if Seed(names, k, locals, debug, seed).Err? {
          var name := Seed(names, k, locals, debug, seed).error;
          var j :| k + 1 <= j < |names| && names[j] == name && AllIn(names, k + 1, j, debug);
          assert AllIn(names, k, j, debug);
        }
      } else {
        assert AllIn(names, k, k, debug);
      }
    }
  }

  predicate AllIn(names: seq<string>, from: nat, to: nat, debug: map<string, byte>)
    requires to <= |names|
  {
    forall j :: from <= j < to ==> names[j] in debug
  }

  /** The seed holds every saved value in its own slot and null everywhere else; otherwise the error names the
      first saved local, in ascending order, that the program does not know. */
  lemma SeedHolds(locals: Locals, debug: map<string, byte>, n: nat)
    requires (forall name :: name in debug ==> debug[name] < n) && M.Injective(debug)
    ensures var seeded := Seed(Sorted(locals.Keys), 0, locals, debug, Empty(n));
            (seeded.Ok? ==> HoldsSaved(locals, debug, seeded.value)) &&
            (seeded.Err? ==> IsLeast(seeded.error, set other | other in locals && other !in debug))
  {
    hide Seed, Sorted, HoldsSaved, IsLeast;
    var names := Sorted(locals.Keys);
    SeedFills(names, 0, locals, debug, Empty(n));
    var seeded := Seed(names, 0, locals, debug, Empty(n));
    if seeded.Ok? {
      SeededHolds(names, locals, debug, seeded.value);
    } else {
      var j :| 0 <= j < |names| && names[j] == seeded.error && AllIn(names, 0, j, debug);
      FirstIsLeast(names, locals, debug, j);
    }
  }

  predicate HoldsSaved(locals: Locals, debug: map<string, byte>, seed: seq<ReplValue>)
    requires forall name :: name in debug ==> debug[name] < |seed|
  {
    (forall name :: name in locals ==> name in debug && seed[debug[name]] == locals[name].value) &&
    (forall i :: 0 <= i < |seed| && NoSlot(locals, debug, i) ==> seed[i] == Null)
  }

  predicate NoSlot(locals: Locals, debug: map<string, byte>, i: nat)
  {
    forall name :: name in locals && name in debug ==> debug[name] != i
  }

  lemma SeededHolds(names: seq<string>, locals: Locals, debug: map<string, byte>, seed: seq<ReplValue>)
    requires forall name :: name in names <==> name in locals
    requires (forall name :: name in debug ==> debug[name] < |seed|) && Seeded(names, 0, locals, debug, seed)
    requires forall i :: 0 <= i < |seed| && Unclaimed(names, 0, debug, i) ==> seed[i] == Null
    ensures HoldsSaved(locals, debug, seed)
  {
    forall i | 0 <= i < |seed| && NoSlot(locals, debug, i) ensures seed[i] == Null {
      assert Unclaimed(names, 0, debug, i);
    }
  }

  lemma FirstIsLeast(names: seq<string>, locals: Locals, debug: map<string, byte>, j: nat)
    requires (forall name :: name in names <==> name in locals) && Ascending(names)
    requires j < |names| && names[j] !in debug && AllIn(names, 0, j, debug)
    ensures IsLeast(names[j], set other | other in locals && other !in debug)
  {
    hide Less;
    forall other | other in locals && other !in debug && other != names[j] ensures Less(names[j], other) {
      assert other in names;
      var i :| 0 <= i < |names| && names[i] == other;
    }
  }

  /** The last binding of a name among those from `k` on. */
  predicate LastBinding(bindings: seq<Binding>, k: nat, i: int)
  {
    k <= i < |bindings| && forall j :: i < j < |bindings| ==> bindings[j].name != bindings[i].name
  }

  predicate Unbound(bindings: seq<Binding>, k: nat, name: string)
  {
    forall j :: k <= j < |bindings| ==> bindings[j].name != name
  }

  lemma {:induction false} SyncSaves(plan: Plan, moves: set<string>, values: seq<ReplValue>, k: nat, next: Locals)
    requires plan.Sound() && |values| == plan.program.localCount && k <= |plan.bindings|
    ensures match Sync(plan, moves, values, k, next)
            case Ok(saved) =>
              (forall i :: LastBinding(plan.bindings, k, i) ==>
                 plan.bindings[i].name in plan.program.debug.value && plan.bindings[i].name in saved &&
                 saved[plan.bindings[i].name]
                 == Saved(plan, moves, plan.bindings[i], values[plan.program.debug.value[plan.bindings[i].name]])) &&
              (forall name :: Unbound(plan.bindings, k, name) ==>
                 (name in saved <==> name in next) && (name in saved ==> saved[name] == next[name]))
            case Err(name) =>
              name !in plan.program.debug.value && exists i :: k <= i < |plan.bindings| && plan.bindings[i].name == name
    decreases |plan.bindings| - k
  {
    hide Saved;
    var bindings, debug := plan.bindings, plan.program.debug.value;
    if k < |bindings| && bindings[k].name in debug {
      var name := bindings[k].name;
      var next' := next[name := Saved(plan, moves, bindings[k], values[debug[name]])];
      SyncSaves(plan, moves, values, k + 1, next');
      if Sync(plan, moves, values, k, next).Ok? {
        var saved := Sync(plan, moves, values, k, next).value;
        forall i | LastBinding(bindings, k, i)
          ensures bindings[i].name in debug && bindings[i].name in saved &&
                  saved[bindings[i].name] == Saved(plan, moves, bindings[i], values[debug[bindings[i].name]])
        {
          if i == k { assert Unbound(bindings, k + 1, name); } else { assert LastBinding(bindings, k + 1, i); }
        }
        forall other | Unbound(bindings, k, other)
          ensures Unbound(bindings, k + 1, other) && bindings[k].name != other
        {
        }
      }
    }
  }

  lemma {:induction false} HasLastBinding(bindings: seq<Binding>, k: nat, name: string)
    requires k <= |bindings| && !Unbound(bindings, k, name)
    ensures exists i :: LastBinding(bindings, k, i) && bindings[i].name == name
    decreases |bindings| - k
  {
    if !Unbound(bindings, k + 1, name) {
      HasLastBinding(bindings, k + 1, name);
      var i :| LastBinding(bindings, k + 1, i) && bindings[i].name == name;
      assert LastBinding(bindings, k, i);
    } else {
      assert bindings[k].name == name;
      assert LastBinding(bindings, k, k);
    }
  }

  /** A local that can only have become null by being moved out of. */
  predicate Emptied(local: SessionLocal)
  {
    !local.optional && local.value == Null && (local.schema == Some(TString) || local.schema == Some(TBytes))
  }

  /** After a commit exactly the bound names are saved, each with the value that came back in its slot. */
  lemma CommitSaves(plan: Plan, locals: Locals, status: i32, response: ReplResponse)
    requires plan.Sound()
    ensures var e := Commit(plan, locals, status, response);
            e.result.Ok? || e.result == Err(Device(status)) ==>
              |response.locals| == plan.program.localCount &&
              (forall name :: name in e.locals <==> !Unbound(plan.bindings, 0, name)) &&
              (forall name :: name in e.locals ==>
                 name in plan.program.debug.value &&
                 e.locals[name].value == response.locals[plan.program.debug.value[name]] &&
                 (e.locals[name].moved <==> (name in plan.moves && status == 0) || Emptied(e.locals[name])) &&
                 (exists i :: LastBinding(plan.bindings, 0, i) &&
                   plan.bindings[i] == Binding(name, e.locals[name].mutable)) &&
                 (e.locals[name].schema, e.locals[name].optional)
                 == LocalSchema(plan.program.typeMap, plan.program.debug.value[name], e.locals[name].value))
  {
    hide Sync, LocalSchema;
    if |response.locals| == plan.program.localCount {
      var moves := if status == 0 then plan.moves else {};
      SyncSaves(plan, moves, response.locals, 0, map[]);
      if Sync(plan, moves, response.locals, 0, map[]).Ok? {
        var saved := Sync(plan, moves, response.locals, 0, map[]).value;
        forall name ensures name in saved <==> !Unbound(plan.bindings, 0, name) {
          if !Unbound(plan.bindings, 0, name) { HasLastBinding(plan.bindings, 0, name); }
        }
        forall name | name in saved
          ensures name in plan.program.debug.value &&
                  saved[name].value == response.locals[plan.program.debug.value[name]] &&
                  (saved[name].moved <==> name in moves || Emptied(saved[name])) &&
                  (exists i :: LastBinding(plan.bindings, 0, i) &&
                    plan.bindings[i] == Binding(name, saved[name].mutable)) &&
                  (saved[name].schema, saved[name].optional)
                  == LocalSchema(plan.program.typeMap, plan.program.debug.value[name], saved[name].value)
        {
          HasLastBinding(plan.bindings, 0, name);
          var i :| LastBinding(plan.bindings, 0, i) && plan.bindings[i].name == name;
        }
      }
    }
  }

  /** A program that hands every local back as it was leaves every saved value that is still bound as it was. */
  lemma UntouchedValuesStay(plan: Plan, locals: Locals, status: i32, response: ReplResponse, name: string)
    requires plan.Sound() && HoldsSaved(locals, plan.program.debug.value, plan.seed)
    requires response.locals == plan.seed && name in locals
    ensures var e := Commit(plan, locals, status, response);
            name in e.locals ==> e.locals[name].value == locals[name].value
  {
    hide Commit;
    CommitSaves(plan, locals, status, response);
    CommitKeeps(plan, locals, status, response);
  }

  /** Why a snippet never reaches the device: no debug information, a saved local the program does not know, the
      first of them in order, or a program that cannot be encoded; in that order of precedence. */
  lemma PlanOutcome(tools: Toolchain, source: string, locals: Locals)
    requires CompileSnippet(tools, source, locals).Ok?
    ensures var compiled := CompileSnippet(tools, source, locals).value;
            var program := compiled.program.(localCount := compiled.locals);
            var plan := MakePlan(tools, source, locals);
            if program.debug.None? then plan == Err(MissingDebugInfo)
            else
              var missing := set name | name in locals && name !in program.debug.value;
              if missing != {} then plan.Err? && plan.error.MissingLocal? && IsLeast(plan.error.name, missing)
              else plan.Ok? == tools.encode(program).Ok? && (plan.Err? ==> plan.error.EncodeFailed?)
  {
    hide CompileSnippet, Seed, Sorted, M.MovedNames, M.SlotNames;
    var compiled := CompileSnippet(tools, source, locals).value;
    if compiled.program.debug.Some? {
      SeedHolds(locals, compiled.program.debug.value, compiled.locals);
    }
  }

  lemma CommitKeeps(plan: Plan, locals: Locals, status: i32, response: ReplResponse)
    requires plan.Sound()
    ensures var e := Commit(plan, locals, status, response);
            e.result.Ok? || e.result == Err(Device(status)) || e.locals == locals
  {
    hide Sync;
  }

  /** The plan of an evaluation seeds every saved value in its slot and nothing else. */
  lemma PlanSeed(tools: Toolchain, source: string, locals: Locals)
    requires MakePlan(tools, source, locals).Ok?
    ensures var plan := MakePlan(tools, source, locals).value;
            HoldsSaved(locals, plan.program.debug.value, plan.seed)
  {
    hide CompileSnippet, Seed, Sorted, HoldsSaved, M.MovedNames, M.SlotNames;
    var compiled := CompileSnippet(tools, source, locals).value;
    SeedHolds(locals, compiled.program.debug.value, compiled.locals);
  }

  // ----- the plan in terms of the compiler's output

  /** A plan is the compiler's output: its program with its local count, its bindings, the encoder's bytes; and the
      moves are the saved names whose slot the program moves out of last. */
  lemma PlanFollowsCompiler(tools: Toolchain, source: string, locals: Locals)
    requires MakePlan(tools, source, locals).Ok?
    ensures CompileSnippet(tools, source, locals).Ok?
    ensures var compiled, plan := CompileSnippet(tools, source, locals).value, MakePlan(tools, source, locals).value;
            plan.bindings == compiled.bindings && plan.program.localCount == compiled.locals &&
            plan.program.code == compiled.program.code && plan.program.debug == compiled.program.debug &&
            plan.program.typeMap == compiled.program.typeMap && tools.encode(plan.program) == Ok(plan.bytes)
    ensures var plan := MakePlan(tools, source, locals).value;
            forall name :: name in plan.moves <==>
              name in locals && name in plan.program.debug.value &&
              M.MovedOut(tools.isa, plan.program.code, plan.program.debug.value[name])
  {
    hide CompileSnippet, Seed, Sorted, M.Moved, M.Instructions, M.SlotNames, M.MovedNames;
    var compiled, plan := CompileSnippet(tools, source, locals).value, MakePlan(tools, source, locals).value;
    var debug := compiled.program.debug.value;
    forall name
      ensures name in plan.moves
         <==> name in locals && name in debug && M.MovedOut(tools.isa, plan.program.code, debug[name])
    {
      MovesAreSaved(tools.isa, plan.program.code, Sorted(locals.Keys), debug, name);
      if name in locals { M.ReportedIffMovedLast(tools.isa, plan.program.code, locals.Keys, debug, name); }
    }
  }

  lemma MovesAreSaved(isa: M.Isa, code: M.Code, names: seq<string>, debug: map<string, byte>, name: string)
    ensures name in M.MovedNames(isa, code, M.SlotNames(names, debug)) ==> name in names
  {
    hide M.Moved, M.Instructions;
  }

  // ----- when an answer is accepted

  /** Every bound name from `k` on has a slot. */
  predicate AllKnown(bindings: seq<Binding>, debug: map<string, byte>, k: nat)
  {
    forall i :: k <= i < |bindings| ==> bindings[i].name in debug
  }

  /** The first bound name without a slot, from `k` on. */
  predicate FirstUnknown(bindings: seq<Binding>, debug: map<string, byte>, k: nat, i: int)
  {
    k <= i < |bindings| && bindings[i].name !in debug && forall j :: k <= j < i ==> bindings[j].name in debug
  }

  /** The error names the first bound name without a slot. */
  ghost predicate NamesFirstUnknown(bindings: seq<Binding>, debug: map<string, byte>, k: nat, name: string)
  {
    exists i :: FirstUnknown(bindings, debug, k, i) && bindings[i].name == name
  }

  lemma {:induction false} SyncOutcome(plan: Plan, moves: set<string>, values: seq<ReplValue>, k: nat, next: Locals)
    requires plan.Sound() && |values| == plan.program.localCount && k <= |plan.bindings|
    ensures match Sync(plan, moves, values, k, next)
            case Ok(_) => AllKnown(plan.bindings, plan.program.debug.value, k)
            case Err(name) => NamesFirstUnknown(plan.bindings, plan.program.debug.value, k, name)
    decreases |plan.bindings| - k
  {
    hide Saved;
    var bindings, debug := plan.bindings, plan.program.debug.value;
    if k < |bindings| {
      if bindings[k].name in debug {
        var value := values[debug[bindings[k].name]];
        var next' := next[bindings[k].name := Saved(plan, moves, bindings[k], value)];
        SyncOutcome(plan, moves, values, k + 1, next');
        if Sync(plan, moves, values, k + 1, next').Err? {
          var name := Sync(plan, moves, values, k + 1, next').error;
          var i :| FirstUnknown(bindings, debug, k + 1, i) && bindings[i].name == name;
          assert FirstUnknown(bindings, debug, k, i);
        }
      } else {
        assert FirstUnknown(bindings, debug, k, k);
      }
    }
  }

  /** A decoded response is accepted exactly when it has as many locals as the program and every bound name has a slot.
      The status then decides between the result and an error that saves all the same; otherwise the error tells which
      of the two is amiss, and nothing is saved. */
  ghost predicate Judged(bindings: seq<Binding>, debug: map<string, byte>, n: nat, locals: Locals, status: i32,
                         response: ReplResponse, e: Evaluated)
  {
    var accepted := |response.locals| == n && AllKnown(bindings, debug, 0);
    (e.result.Ok? <==> status == 0 && accepted) && (e.result.Ok? ==> e.result.value == response.result) &&
    (e.result == Err(ClientError.Device(status)) <==> status != 0 && accepted) &&
    (e.result == Err(InvalidLocalCount(n, |response.locals|)) <==> |response.locals| != n) &&
    (|response.locals| == n && !AllKnown(bindings, debug, 0) ==>
       e.result.Err? && e.result.error.MissingLocal? &&
       NamesFirstUnknown(bindings, debug, 0, e.result.error.name)) &&
    (!accepted ==> e.locals == locals)
  }

  lemma CommitOutcome(plan: Plan, locals: Locals, status: i32, response: ReplResponse)
    requires plan.Sound()
    ensures Judged(plan.bindings, plan.program.debug.value, plan.program.localCount, locals, status, response,
                   Commit(plan, locals, status, response))
  {
    hide Sync;
    if |response.locals| == plan.program.localCount {
      SyncOutcome(plan, if status == 0 then plan.moves else {}, response.locals, 0, map[]);
    }
  }

  /** The same from the bytes that came back: a failed exchange, a failure without a payload and a payload that does
      not decode leave everything as it was, and whatever decodes is judged as above. */
  lemma ConcludeOutcome(plan: Plan, locals: Locals, exchange: Result<F.Response, F.IoError>, usizeMax: nat)
    requires plan.Sound()
    ensures var e := Conclude(plan, locals, exchange, usizeMax);
            match exchange
            case Err(error) => e == Evaluated(Err(IoFailed(error)), locals)
            case Ok(answer) =>
              if answer.status != 0 && answer.payload == [] then
                e == Evaluated(Err(ClientError.Device(answer.status)), locals)
              else
                match DecodeResponse(Input(answer.payload, usizeMax))
                case Err(error) => e == Evaluated(Err(WireFailed(error)), locals)
                case Ok(response) =>
                  Judged(plan.bindings, plan.program.debug.value, plan.program.localCount, locals, answer.status,
                         response, e)
  {
    hide Commit, DecodeResponse, Judged;
    match exchange
    case Err(_) =>
    case Ok(answer) =>
      var decoded := DecodeResponse(Input(answer.payload, usizeMax));
      if decoded.Ok? { CommitOutcome(plan, locals, answer.status, decoded.value); }
  }

  // ----- what the next snippet's compiler is told

  /** After an accepted answer the compiler of the next snippet hears of exactly the names bound, and of each that it
      was moved exactly when a clean run moved it out last or it came back emptied. */
  lemma NextCompilerIsTold(tools: Toolchain, source: string, locals: Locals, status: i32, response: ReplResponse,
                           states: map<string, LocalState>)
    requires MakePlan(tools, source, locals).Ok?
    requires var e := Commit(MakePlan(tools, source, locals).value, locals, status, response);
             (e.result.Ok? || e.result == Err(Device(status))) && Tells(states, e.locals)
    ensures var plan := MakePlan(tools, source, locals).value;
            var compiled := CompileSnippet(tools, source, locals).value;
            var saved := Commit(plan, locals, status, response).locals;
            var debug := compiled.program.debug.value;
            (forall name :: name in states <==> !Unbound(compiled.bindings, 0, name)) &&
            (forall name :: name in states ==>
               name in debug && name in saved &&
               (states[name].moved <==>
                  (status == 0 && name in locals && M.MovedOut(tools.isa, compiled.program.code, debug[name])) ||
                  Emptied(saved[name])))
  {
    hide CompileSnippet, MakePlan, Commit, M.MovedOut, Emptied, Unbound, LocalSchema;
    PlanFollowsCompiler(tools, source, locals);
    CommitSaves(MakePlan(tools, source, locals).value, locals, status, response);
  }
}
