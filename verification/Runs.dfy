/** What the device's answer says about the run behind it. */
module Runs {
  import opened Bytes
  import opened Results
  import opened Wire
  import opened Embedded
  import T = WireTheorems

  // ----- session values and values of the machine

  /** The two values are the same, element by element; a callable mirrors nothing. */
  predicate Mirrors(v: ReplValue, e: Value)
    decreases v
  {
    match v
    case Null => e.VNull?
    case Int(number) => e == VInt(number)
    case Float(bits) => e == VFloat(bits)
    case Bool(truth) => e == VBool(truth)
    case String(text) => e == VString(text)
    case Bytes(data) => e == VBytes(data)
    case Array(vs) =>
      e.VArray? && |e.values| == |vs| && forall i :: 0 <= i < |vs| ==> Mirrors(vs[i], e.values[i])
    case Map(es) =>
      e.VMap? && |e.entries| == |es| &&
      forall i :: 0 <= i < |es| ==> Mirrors(es[i].0, e.entries[i].0) && Mirrors(es[i].1, e.entries[i].1)
  }

  predicate AllMirror(vs: seq<ReplValue>, es: seq<Value>)
  {
    |vs| == |es| && forall i :: 0 <= i < |vs| ==> Mirrors(vs[i], es[i])
  }

  predicate EntriesMirror(vs: seq<(ReplValue, ReplValue)>, es: seq<(Value, Value)>)
  {
    |vs| == |es| && forall i :: 0 <= i < |vs| ==> Mirrors(vs[i].0, es[i].0) && Mirrors(vs[i].1, es[i].1)
  }

  /** A callable is the value or stands somewhere inside it. */
  predicate HoldsCallable(e: Value)
    decreases e
  {
    match e
    case VCallable(_) => true
    case VArray(es) => exists i :: 0 <= i < |es| && HoldsCallable(es[i])
    case VMap(es) => exists i :: 0 <= i < |es| && (HoldsCallable(es[i].0) || HoldsCallable(es[i].1))
    case _ => false
  }

  predicate AnyCallable(es: seq<Value>) { exists i :: 0 <= i < |es| && HoldsCallable(es[i]) }

  predicate AnyCallableEntry(es: seq<(Value, Value)>)
  {
    exists i :: 0 <= i < |es| && (HoldsCallable(es[i].0) || HoldsCallable(es[i].1))
  }

  /** Crossing out of the machine gives the mirrored value, and fails exactly on callables at any depth. */
  lemma {:induction false} CrossingOut(e: Value)
    ensures match FromEmbedded(e) case Some(v) => Mirrors(v, e) && !HoldsCallable(e) case None => HoldsCallable(e)
    decreases e, 0
  {
    match e
    case VArray(es) => CrossingAllOut(es); assert AnyCallable(es) == HoldsCallable(e);
    case VMap(es) => CrossingEntriesOut(es); assert AnyCallableEntry(es) == HoldsCallable(e);
    case _ =>
  }

  lemma AnyCallableFrom(es: seq<Value>)
    requires es != []
    ensures AnyCallable(es) <==> HoldsCallable(es[0]) || AnyCallable(es[1..])
  {
    hide HoldsCallable;
    if AnyCallable(es[1..]) {
      var i :| 0 <= i < |es[1..]| && HoldsCallable(es[1..][i]);
      assert HoldsCallable(es[i + 1]);
    }
    if AnyCallable(es) && !HoldsCallable(es[0]) {
      var i :| 0 <= i < |es| && HoldsCallable(es[i]);
      assert HoldsCallable(es[1..][i - 1]);
    }
  }

  lemma {:induction false} CrossingAllOut(es: seq<Value>)
    ensures match FromEmbeddedAll(es)
            case Some(vs) => AllMirror(vs, es) && !AnyCallable(es)
            case None => AnyCallable(es)
    decreases es, 1
  {
    hide Mirrors, HoldsCallable, AnyCallable;
    if es == [] {
      assert !AnyCallable(es) by { NoCallable(es); }
    } else {
      CrossingOut(es[0]);
      CrossingAllOut(es[1..]);
      AnyCallableFrom(es);
    }
  }

  lemma NoCallable(es: seq<Value>)
    ensures es == [] ==> !AnyCallable(es)
  {
  }

  lemma AnyCallableEntryFrom(es: seq<(Value, Value)>)
    requires es != []
    ensures AnyCallableEntry(es) <==>
              HoldsCallable(es[0].0) || HoldsCallable(es[0].1) || AnyCallableEntry(es[1..])
  {
    hide HoldsCallable;
    if AnyCallableEntry(es[1..]) {
      var i :| 0 <= i < |es[1..]| && (HoldsCallable(es[1..][i].0) || HoldsCallable(es[1..][i].1));
      assert HoldsCallable(es[i + 1].0) || HoldsCallable(es[i + 1].1);
    }
    if AnyCallableEntry(es) && !HoldsCallable(es[0].0) && !HoldsCallable(es[0].1) {
      var i :| 0 <= i < |es| && (HoldsCallable(es[i].0) || HoldsCallable(es[i].1));
      assert HoldsCallable(es[1..][i - 1].0) || HoldsCallable(es[1..][i - 1].1);
    }
  }

  lemma NoCallableEntry(es: seq<(Value, Value)>)
    ensures es == [] ==> !AnyCallableEntry(es)
  {
  }

  lemma EntriesMirrorFrom(v: (ReplValue, ReplValue), vs: seq<(ReplValue, ReplValue)>, es: seq<(Value, Value)>)
    requires es != [] && Mirrors(v.0, es[0].0) && Mirrors(v.1, es[0].1) && EntriesMirror(vs, es[1..])
    ensures EntriesMirror([v] + vs, es)
  {
    hide Mirrors;
  }

  lemma {:induction false} CrossingEntriesOut(es: seq<(Value, Value)>)
    ensures match FromEmbeddedEntries(es)
            case Some(vs) => EntriesMirror(vs, es) && !AnyCallableEntry(es)
            case None => AnyCallableEntry(es)
    decreases es, 1
  {
    hide Mirrors, HoldsCallable, AnyCallableEntry, FromEmbedded, FromEmbeddedEntry;
    if es == [] {
      NoCallableEntry(es);
    } else {
      CrossingEntryOut(es[0]);
      CrossingEntriesOut(es[1..]);
      AnyCallableEntryFrom(es);
      if FromEmbeddedEntries(es).Some? {
        EntriesMirrorFrom(FromEmbeddedEntry(es[0]).value, FromEmbeddedEntries(es[1..]).value, es);
      }
    }
  }

  lemma {:induction false} CrossingEntryOut(e: (Value, Value))
    ensures match FromEmbeddedEntry(e)
            case Some(v) => Mirrors(v.0, e.0) && Mirrors(v.1, e.1) && !HoldsCallable(e.0) && !HoldsCallable(e.1)
            case None => HoldsCallable(e.0) || HoldsCallable(e.1)
    decreases e, 2
  {
    CrossingOut(e.0);
    CrossingOut(e.1);
  }

  /** A machine value mirrors one session value at most, and a session value has one mirror. */
  lemma {:induction false} MirrorsOnce(v: ReplValue, w: ReplValue, e: Value)
    requires Mirrors(v, e)
    ensures Mirrors(w, e) <==> v == w
    decreases v
  {
    match v
    case Array(vs) =>
      if Mirrors(w, e) {
        forall i | 0 <= i < |vs| ensures vs[i] == w.values[i] { MirrorsOnce(vs[i], w.values[i], e.values[i]); }
      }
    case Map(vs) =>
      if Mirrors(w, e) {
        forall i | 0 <= i < |vs| ensures vs[i] == w.entries[i] {
          MirrorsOnce(vs[i].0, w.entries[i].0, e.entries[i].0);
          MirrorsOnce(vs[i].1, w.entries[i].1, e.entries[i].1);
        }
      }
    case _ =>
  }

  /** Crossing into the machine gives the one value that mirrors. */
  lemma CrossingIn(v: ReplValue, e: Value)
    ensures ToEmbedded(v) == e <==> Mirrors(v, e)
  {
    hide ToEmbedded, FromEmbedded, Mirrors, HoldsCallable;
    EmbeddedRoundTrip(v);
    CrossingOut(ToEmbedded(v));
    if Mirrors(v, e) {
      CrossingOut(e);
      MirroredHoldsNone(v, e);
      EmbeddedCanonical(e);
      MirrorsOnce(v, FromEmbedded(e).value, e);
    }
  }

  lemma {:induction false} MirroredHoldsNone(v: ReplValue, e: Value)
    requires Mirrors(v, e)
    ensures !HoldsCallable(e)
    decreases v
  {
    match v
    case Array(vs) =>
      forall i | 0 <= i < |vs| ensures !HoldsCallable(e.values[i]) { MirroredHoldsNone(vs[i], e.values[i]); }
    case Map(vs) =>
      forall i | 0 <= i < |vs| ensures !HoldsCallable(e.entries[i].0) && !HoldsCallable(e.entries[i].1) {
        MirroredHoldsNone(vs[i].0, e.entries[i].0);
        MirroredHoldsNone(vs[i].1, e.entries[i].1);
      }
    case _ =>
  }

  lemma {:induction false} CrossingAllIn(vs: seq<ReplValue>)
    ensures AllMirror(vs, ToEmbeddedAll(vs))
  {
    hide Mirrors, ToEmbedded;
    forall i | 0 <= i < |vs| ensures Mirrors(vs[i], ToEmbeddedAll(vs)[i]) {
      ToEmbeddedAt(vs, i);
      CrossingIn(vs[i], ToEmbedded(vs[i]));
    }
  }

  /** The values that mirror a sequence are the converted ones. */
  lemma AllMirrorOnce(vs: seq<ReplValue>, es: seq<Value>)
    requires AllMirror(vs, es)
    ensures ToEmbeddedAll(vs) == es
  {
    hide Mirrors, ToEmbedded, ToEmbeddedAll;
    forall i | 0 <= i < |vs| ensures ToEmbeddedAll(vs)[i] == es[i] {
      ToEmbeddedAt(vs, i);
      CrossingIn(vs[i], es[i]);
    }
  }

  // ----- a run and its answer

  /** The value the run returns: the top of the stack, after a clean end. */
  predicate Returns<W>(run: Run<W>) { run.end == Halted && |run.stack| > 0 }

  function Top<W>(run: Run<W>): Value
    requires Returns(run)
  {
    run.stack[|run.stack| - 1]
  }

  /** The run leaves behind or returns something that has no place on the wire. */
  predicate Unspeakable<W>(run: Run<W>) { AnyCallable(run.locals) || (Returns(run) && HoldsCallable(Top(run))) }

  /** The response holds the locals and the result of the run. */
  predicate Tells<W>(response: ReplResponse, run: Run<W>)
  {
    AllMirror(response.locals, run.locals) && (response.result.Some? <==> Returns(run)) &&
    (Returns(run) ==> Mirrors(response.result.value, Top(run)))
  }

  lemma ReportedTells<W>(run: Run<W>)
    ensures match Reported(run)
            case Some(response) => Tells(response, run) && !Unspeakable(run)
            case None => Unspeakable(run)
  {
    hide FromEmbedded, FromEmbeddedAll, Mirrors, HoldsCallable, AnyCallable, AllMirror;
    CrossingAllOut(run.locals);
    if Returns(run) { CrossingOut(Top(run)); }
  }

  /** There is one response that tells of a run. */
  lemma TellsOnce<W>(a: ReplResponse, b: ReplResponse, run: Run<W>)
    requires Tells(a, run) && Tells(b, run)
    ensures a == b
  {
    hide Mirrors;
    forall i | 0 <= i < |a.locals| ensures a.locals[i] == b.locals[i] {
      MirrorsOnce(a.locals[i], b.locals[i], run.locals[i]);
    }
    if Returns(run) { MirrorsOnce(a.result.value, b.result.value, Top(run)); }
  }

  lemma {:induction false} StartOf(values: seq<ReplValue>, start: seq<Value>)
    requires |values| <= 256 && AllMirror(values, start)
    ensures SetLocals(values, 0, Nulls(|values|)) == start
  {
    hide SetLocals, ToEmbeddedAll, Mirrors;
    SetLocalsIsAll(values, 0, Nulls(|values|));
    AllMirrorOnce(values, start);
  }

  /** When a program is not started: without a program or a state, when the machine does not take the program, and when
      the state does not decode or has another number of locals. The world is left as it was. */
  lemma NotStarted<W>(machine: Machine<W>, program: seq<byte>, state: Input, world: W)
    ensures var reply := RunVmbc(machine, program, state, world);
            if program == [] || state.bytes == [] then reply == Reply(-1, [], [], world)
            else if !machine.accepts(program) then reply == Reply(-2, [], [], world)
            else DecodeState(state).Err? || |DecodeState(state).value| != machine.localCount(program) ==>
                   reply == Reply(-6, [], [], world)
  {
    hide DecodeState, Answer, SetLocals;
  }

  /** The answer to a program that is started: it carries the locals and the top of the stack, it says how the run
      ended, and it is a refusal exactly when a callable or the limits of the wire are in the way. */
  lemma RunAnswered<W>(machine: Machine<W>, program: seq<byte>, state: Input, world: W,
                       values: seq<ReplValue>, start: seq<Value>)
    requires program != [] && state.bytes != [] && machine.accepts(program) && DecodeState(state) == Ok(values)
    requires |values| == machine.localCount(program) && |values| <= 256 && AllMirror(values, start)
    ensures var run, reply := machine.run(program, start, world), RunVmbc(machine, program, state, world);
            reply.log == run.log && reply.world == run.world
    ensures var run, reply := machine.run(program, start, world), RunVmbc(machine, program, state, world);
            Unspeakable(run) ==> reply.status == -6 && reply.output == []
    ensures var run, reply := machine.run(program, start, world), RunVmbc(machine, program, state, world);
            forall response :: Tells(response, run) ==>
              match EncodeResponse(response)
              case Err(_) => reply.status == -6 && reply.output == []
              case Ok(encoded) =>
                reply.output == encoded && (reply.status == 0 <==> run.end == Halted) &&
                (reply.status == -4 <==> run.end == OutOfFuel) && (reply.status == -5 <==> run.end == OtherError) &&
                (reply.status == -3 <==> run.end in {HostError, HostCallsUnavailable})
    ensures var run := machine.run(program, start, world);
            Unspeakable(run) <==> forall response :: !Tells(response, run)
  {
    hide DecodeState, SetLocals, Reported, Tells, Unspeakable, EncodeResponse, AllMirror;
    var run := machine.run(program, start, world);
    StartOf(values, start);
    ReportedTells(run);
    if Reported(run).Some? {
      var told := Reported(run).value;
      forall response | Tells(response, run) ensures response == told { TellsOnce(response, told, run); }
      assert Tells(told, run);
    } else {
      forall response ensures !Tells(response, run) { NothingToTell(response, run); }
    }
  }

  lemma NothingToTell<W>(response: ReplResponse, run: Run<W>)
    requires Unspeakable(run)
    ensures !Tells(response, run)
  {
    hide Mirrors, HoldsCallable;
    if Tells(response, run) {
      if AnyCallable(run.locals) {
        var i :| 0 <= i < |run.locals| && HoldsCallable(run.locals[i]);
        MirroredHoldsNone(response.locals[i], run.locals[i]);
      } else {
        MirroredHoldsNone(response.result.value, Top(run));
      }
      assert false;
    }
  }

  /** What the client decodes from such an answer is what the run left and returned. */
  lemma AnswerDecodes<W>(response: ReplResponse, run: Run<W>, output: Input)
    requires Tells(response, run) && EncodeResponse(response) == Ok(output.bytes) && output.Valid()
    ensures if T.NodesOfResponse(response) <= MAX_VALUE_NODES then DecodeResponse(output) == Ok(response)
            else DecodeResponse(output) == Err(LengthOverflow)
  {
    hide EncodeResponse, DecodeResponse, T.NodesOfResponse;
    T.ResponseRoundTrip(output, response);
  }
}
