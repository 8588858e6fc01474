/** The device's end of the serial line: binary request frames in, log text and response frames out. */
module Device {
  import opened Bytes
  import opened Results
  import opened Frames
  import opened Transport
  import opened Embedded
  import Wire
  import Crc

  const FIRST_BYTE: byte := 0x52  // 'R'

  /** "rss:error=payload-timeout" with a line end. */
  const PAYLOAD_TIMEOUT: seq<byte> := [
    0x72, 0x73, 0x73, 0x3a, 0x65, 0x72, 0x72, 0x6f, 0x72, 0x3d, 0x70, 0x61, 0x79, 0x6c, 0x6f, 0x61, 0x64,
    0x2d, 0x74, 0x69, 0x6d, 0x65, 0x6f, 0x75, 0x74, 0x0d, 0x0a]

  /** What one frame makes the device take in, send and do. */
  datatype Served<+W> = Served(taken: nat, sent: seq<byte>, world: W)

  predicate HeaderAccepted(h: Header) { Magic(h) == REQUEST_MAGIC && Version(h) == FRAME_VERSION }

  predicate SizesAccepted(h: Header)
  {
    Word1(h) != 0 && Word2(h) != 0 &&
    Word1(h) <= MAX_FRAME_BYTES && Word2(h) <= MAX_FRAME_BYTES && Word1(h) <= MAX_FRAME_BYTES - Word2(h)
  }

  /** What one turn meets outside its input: how many bytes are thrown away where the device waits for silence, and
      whether there is memory for the two parts of the frame. */
  datatype Chance = Chance(quiet: nat, programFits: bool, stateFits: bool) {
    predicate Memory() { programFits && stateFits }
  }

  /** Nothing thrown away, and memory for everything. */
  const CALM := Chance(0, true, true)

  /** One turn of the loop on input `s`. */
  function Serve<W>(machine: Machine<W>, usizeMax: nat, s: seq<byte>, chance: Chance, world: W): Served<W>
  {
    if |s| < FRAME_HEADER_LEN then Served(|s|, [], world)
    else
      var h := s[..FRAME_HEADER_LEN];
      var id := RequestId(h);
      var refusal := ResponseFrame(id, STATUS_INVALID_ARGUMENT, []);
      if !HeaderAccepted(h) || !SizesAccepted(h) then Served(FRAME_HEADER_LEN + chance.quiet, refusal, world)
      else if !chance.programFits then Served(FRAME_HEADER_LEN + chance.quiet, refusal, world)
      else if |s| < FRAME_HEADER_LEN + Word1(h) then Served(|s|, PAYLOAD_TIMEOUT + refusal, world)
      else if !chance.stateFits then Served(FRAME_HEADER_LEN + Word1(h) + chance.quiet, refusal, world)
      else if |s| < FRAME_HEADER_LEN + Word1(h) + Word2(h) then Served(|s|, PAYLOAD_TIMEOUT + refusal, world)
      else
        var middle, end := FRAME_HEADER_LEN + Word1(h), FRAME_HEADER_LEN + Word1(h) + Word2(h);
        var (sent, world') :=
          Perform(machine, usizeMax, id, ExpectedCrc(h), s[FRAME_HEADER_LEN..middle], s[middle..end], world);
        Served(end, sent, world')
  }

  /** What is sent for a complete frame, and what becomes of the world. */
  function Perform<W>(machine: Machine<W>, usizeMax: nat, id: u32, expectedCrc: u32,
                      program: seq<byte>, state: seq<byte>, world: W)
    : (seq<byte>, W)
  {
    if Crc.RequestChecksum(program, state) != expectedCrc then
      (ResponseFrame(id, STATUS_INVALID_REPL_STATE, []), world)
    else
      var reply := RunVmbc(machine, program, Wire.Input(state, usizeMax), world);
      (reply.log + ResponseFrame(id, reply.status, reply.output), reply.world)
  }

  /** Successive turns of the loop, one for each entry of `chances`. */
  function ServeTurns<W>(machine: Machine<W>, usizeMax: nat, s: seq<byte>, chances: seq<Chance>, world: W): Served<W>
  {
    if chances == [] then Served(0, [], world)
    else
      var first := Serve(machine, usizeMax, s, chances[0], world);
      if first.taken > |s| then first
      else
        var later := ServeTurns(machine, usizeMax, s[first.taken..], chances[1..], first.world);
        Served(first.taken + later.taken, first.sent + later.sent, later.world)
  }

  /** Port and world stand where `chances` turns on input `s` leave them. */
  ghost predicate After<W>(machine: Machine<W>, usizeMax: nat, s: seq<byte>, sent: seq<byte>, start: W,
                           chances: seq<Chance>, unread: seq<byte>, written: seq<byte>, world: W)
  {
    var served := ServeTurns(machine, usizeMax, s, chances, start);
    served.taken <= |s| && unread == s[served.taken..] && written == sent + served.sent && world == served.world
  }

  lemma NoTurns<W>(machine: Machine<W>, usizeMax: nat, s: seq<byte>, sent: seq<byte>, start: W)
    ensures After(machine, usizeMax, s, sent, start, [], s, sent, start)
  {
  }

  lemma OneMoreTurn<W>(machine: Machine<W>, usizeMax: nat, s: seq<byte>, sent: seq<byte>, start: W,
                       chances: seq<Chance>, unread: seq<byte>, written: seq<byte>, world: W, chance: Chance)
    requires After(machine, usizeMax, s, sent, start, chances, unread, written, world)
    ensures var turn := Serve(machine, usizeMax, unread, chance, world);
            (unread != [] ==> turn.taken > 0) &&
            (turn.taken <= |unread| ==>
              After(machine, usizeMax, s, sent, start, chances + [chance],
                    unread[turn.taken..], written + turn.sent, turn.world))
  {
    hide Serve;
    TurnAdvances(machine, usizeMax, unread, chance, world);
    TurnsAppend(machine, usizeMax, s, chances, chance, start);
  }

  lemma TurnAdvances<W>(machine: Machine<W>, usizeMax: nat, s: seq<byte>, chance: Chance, world: W)
    ensures s != [] ==> Serve(machine, usizeMax, s, chance, world).taken > 0
  {
    hide Perform, ResponseFrame;
  }

  lemma {:induction false} TurnsAppend<W>(machine: Machine<W>, usizeMax: nat, s: seq<byte>, chances: seq<Chance>,
                                          chance: Chance, world: W)
    ensures var served := ServeTurns(machine, usizeMax, s, chances, world);
            served.taken <= |s| ==>
              var turn := Serve(machine, usizeMax, s[served.taken..], chance, served.world);
              turn.taken <= |s| - served.taken ==>
                ServeTurns(machine, usizeMax, s, chances + [chance], world)
                == Served(served.taken + turn.taken, served.sent + turn.sent, turn.world)
  {
    hide Serve;
    if chances != [] {
      var first := Serve(machine, usizeMax, s, chances[0], world);
      assert (chances + [chance])[1..] == chances[1..] + [chance];
      if first.taken <= |s| {
        TurnsAppend(machine, usizeMax, s[first.taken..], chances[1..], chance, first.world);
        var later := ServeTurns(machine, usizeMax, s[first.taken..], chances[1..], first.world);
        if later.taken <= |s| - first.taken {
          assert s[first.taken..][later.taken..] == s[first.taken + later.taken..];
        }
      }
    }
  }

  class ReplDevice<W(0)> {
    const machine: Machine<W>
    const usizeMax: nat
    const serial: SerialPort
    var world: W

    constructor (machine: Machine<W>, usizeMax: nat, serial: SerialPort, world: W)
      ensures this.machine == machine && this.usizeMax == usizeMax && this.serial == serial && this.world == world
    {
      this.machine, this.usizeMax, this.serial, this.world := machine, usizeMax, serial, world;
    }

    /** `read_serial_payload`: whatever chunks arrive, until enough has arrived or nothing more does. */
    method ReadPayload(length: nat) returns (data: Option<seq<byte>>)
      modifies serial`unread
      ensures if |old(serial.unread)| < length then data.None? && serial.unread == []
              else data == Some(old(serial.unread)[..length]) && serial.unread == old(serial.unread)[length..]
    {
      ghost var s := serial.unread;
      var bytes: seq<byte> := [];
      while |bytes| < length
        invariant |bytes| <= length && bytes + serial.unread == s
        decreases length - |bytes|
      {
        if serial.unread == [] { return None; }
        var most := if |serial.unread| < length - |bytes| then |serial.unread| else length - |bytes|;
        var count: nat :| 1 <= count <= most;
        var chunk := serial.ReadExact(count);
        bytes := bytes + chunk.value;
      }
      assert bytes == s[..length];
      data := Some(bytes);
    }

    /** Waits for silence; how much arrives until then is not determined. */
    method DiscardUntilQuiet() returns (quiet: nat)
      modifies serial`unread
      ensures quiet <= |old(serial.unread)| && serial.unread == old(serial.unread)[quiet..]
    {
      quiet :| quiet <= |serial.unread|;
      var _ := serial.ReadExact(quiet);
    }

    /** `write_repl_response`. */
    method WriteResponse(id: u32, status: i32, payload: seq<byte>)
      requires |payload| < U32_SIZE && serial.capacity == None
      modifies serial`written
      ensures serial.written == old(serial.written) + ResponseFrame(id, status, payload)
    {
      hide MakeHeader, Taken, Crc.Crc32;
      var crc := Crc.ComputeCrc32(payload);
      var header := MakeHeader(RESPONSE_MAGIC, id, I32Bits(status), |payload|, crc as int);
      assert header + payload == ResponseFrame(id, status, payload);
      ghost var before := serial.written;
      var _ := serial.WriteAll(header);
      if |payload| > 0 { var _ := serial.WriteAll(payload); }
      assert serial.written == before + (header + payload);
    }

    /** `read_serial_binary`: without memory nothing is read, and only a stream that ends is reported as text. */
    method ReadBinary(fits: bool, length: nat) returns (data: Option<seq<byte>>)
      requires serial.capacity == None
      modifies serial`unread, serial`written
      ensures if !fits then
                data.None? && serial.unread == old(serial.unread) && serial.written == old(serial.written)
              else if |old(serial.unread)| < length then
                data.None? && serial.unread == [] && serial.written == old(serial.written) + PAYLOAD_TIMEOUT
              else
                data == Some(old(serial.unread)[..length]) && serial.unread == old(serial.unread)[length..] &&
                serial.written == old(serial.written)
    {
      hide Taken;
      if !fits { return None; }
      data := ReadPayload(length);
      if data.None? { var _ := serial.WriteAll(PAYLOAD_TIMEOUT); }
    }

    /** Throws away what still arrives and refuses the frame. */
    method Refuse(id: u32) returns (quiet: nat)
      requires serial.capacity == None
      modifies serial`unread, serial`written
      ensures quiet <= |old(serial.unread)| && serial.unread == old(serial.unread)[quiet..]
      ensures serial.written == old(serial.written) + ResponseFrame(id, STATUS_INVALID_ARGUMENT, [])
    {
      hide ResponseFrame;
      quiet := DiscardUntilQuiet();
      WriteResponse(id, STATUS_INVALID_ARGUMENT, []);
    }

    /** Checks the sum over both parts, runs the program and answers. */
    method Answer(id: u32, expectedCrc: u32, program: seq<byte>, state: seq<byte>)
      requires serial.capacity == None
      modifies this`world, serial`written
      ensures serial.written == old(serial.written)
                              + Perform(machine, usizeMax, id, expectedCrc, program, state, old(world)).0
      ensures world == Perform(machine, usizeMax, id, expectedCrc, program, state, old(world)).1
    {
      hide RunVmbc, ResponseFrame, MakeHeader, Taken, Crc.RequestCrc;
      var crc := Crc.FirmwareRequestCrc(program, state);
      if crc as int != expectedCrc {
        WriteResponse(id, STATUS_INVALID_REPL_STATE, []);
        return;
      }
      var reply := ReplRunVmbc(machine, program, state, usizeMax, world);
      world := reply.world;
      ghost var before := serial.written;
      var _ := serial.WriteAll(reply.log);
      WriteResponse(id, reply.status, reply.output);
      assert serial.written == before + (reply.log + ResponseFrame(id, reply.status, reply.output));
    }

    /** One turn of the loop, when the next byte announces a binary frame. */
    method ServeFrame(programFits: bool, stateFits: bool) returns (ghost chance: Chance)
      requires serial.unread != [] && serial.unread[0] == FIRST_BYTE && serial.capacity == None
      modifies this`world, serial`unread, serial`written
      ensures chance.programFits == programFits && chance.stateFits == stateFits
      ensures var served := Serve(machine, usizeMax, old(serial.unread), chance, old(world));
              served.taken <= |old(serial.unread)| &&
              serial.unread == old(serial.unread)[served.taken..] &&
              serial.written == old(serial.written) + served.sent &&
              world == served.world
    {
      hide Perform, ResponseFrame, HeaderAccepted, SizesAccepted, RequestId, Word1, Word2;
      chance := Chance(0, programFits, stateFits);
      ghost var s := serial.unread;
      var header := ReadPayload(FRAME_HEADER_LEN);
      if header.None? { return; }
      var h: Header := header.value;
      if !HeaderAccepted(h) || !SizesAccepted(h) {
        var quiet := Refuse(RequestId(h));
        DropTwice(s, FRAME_HEADER_LEN, quiet);
        chance := chance.(quiet := quiet);
        return;
      }
      chance := ServeBody(s, h, programFits, stateFits);
    }

    /** The rest of a turn, from an accepted header on; `s` is the whole input of the turn. */
    method ServeBody(ghost s: seq<byte>, h: Header, programFits: bool, stateFits: bool) returns (ghost chance: Chance)
      requires |s| >= FRAME_HEADER_LEN && h == s[..FRAME_HEADER_LEN] && serial.unread == s[FRAME_HEADER_LEN..]
      requires HeaderAccepted(h) && SizesAccepted(h) && serial.capacity == None
      modifies this`world, serial`unread, serial`written
      ensures chance.programFits == programFits && chance.stateFits == stateFits
      ensures var served := Serve(machine, usizeMax, s, chance, old(world));
              served.taken <= |s| && serial.unread == s[served.taken..] &&
              serial.written == old(serial.written) + served.sent && world == served.world
    {
      hide Perform, ResponseFrame, HeaderAccepted, SizesAccepted, RequestId, Word1, Word2;
      chance := Chance(0, programFits, stateFits);
      ghost var before := serial.written;
      var program := ReadBinary(programFits, Word1(h));
      if program.None? {
        var quiet := Refuse(RequestId(h));
        if !programFits { DropTwice(s, FRAME_HEADER_LEN, quiet); }
        chance := chance.(quiet := quiet);
        Regroup3(before, PAYLOAD_TIMEOUT, ResponseFrame(RequestId(h), STATUS_INVALID_ARGUMENT, []));
        return;
      }
      DropTwice(s, FRAME_HEADER_LEN, Word1(h));
      SliceTwice(s, FRAME_HEADER_LEN, Word1(h));
      chance := ServeState(s, h, program.value, stateFits);
    }

    /** The rest of a turn, once the program has been read. */
    method ServeState(ghost s: seq<byte>, h: Header, program: seq<byte>, stateFits: bool) returns (ghost chance: Chance)
      requires |s| >= FRAME_HEADER_LEN + Word1(h) && h == s[..FRAME_HEADER_LEN]
      requires program == s[FRAME_HEADER_LEN..FRAME_HEADER_LEN + Word1(h)]
      requires serial.unread == s[FRAME_HEADER_LEN + Word1(h)..]
      requires HeaderAccepted(h) && SizesAccepted(h) && serial.capacity == None
      modifies this`world, serial`unread, serial`written
      ensures chance.programFits && chance.stateFits == stateFits
      ensures Turned(machine, usizeMax, s, chance, old(world), old(serial.written),
                     serial.unread, serial.written, world)
    {
      hide Turned, Perform, ResponseFrame, HeaderAccepted, SizesAccepted, RequestId, Word1, Word2, ExpectedCrc;
      chance := Chance(0, true, stateFits);
      ghost var start, before := world, serial.written;
      var state := ReadBinary(stateFits, Word2(h));
      if state.None? {
        var quiet := Refuse(RequestId(h));
        chance := chance.(quiet := quiet);
        StateRefused(machine, usizeMax, s, h, chance, start, before, serial.unread, serial.written);
        return;
      }
      Answer(RequestId(h), ExpectedCrc(h), program, state.value);
      WholeServed(machine, usizeMax, s, h, chance, start, before, program, state.value, serial.unread, serial.written,
                  world);
    }

    /** The loop, for as long as frames are waiting. */
    method ServeFrames() returns (ghost chances: seq<Chance>)
      requires serial.capacity == None
      modifies this`world, serial`unread, serial`written
      ensures After(machine, usizeMax, old(serial.unread), old(serial.written), old(world), chances,
                    serial.unread, serial.written, world)
      ensures serial.unread == [] || serial.unread[0] != FIRST_BYTE
    {
      hide Serve, After;
      chances := [];
      ghost var s, sent, start := serial.unread, serial.written, world;
      NoTurns(machine, usizeMax, s, sent, start);
      while serial.unread != [] && serial.unread[0] == FIRST_BYTE
        invariant After(machine, usizeMax, s, sent, start, chances, serial.unread, serial.written, world)
        decreases |serial.unread|
      {
        ghost var unread, written, before := serial.unread, serial.written, world;
        var programFits: bool, stateFits: bool := *, *;
        ghost var chance := ServeFrame(programFits, stateFits);
        OneMoreTurn(machine, usizeMax, s, sent, start, chances, unread, written, before, chance);
        chances := chances + [chance];
      }
    }
  }

  /** What is left to decide once the program has been read. */
  lemma ServeBehindProgram<W>(machine: Machine<W>, usizeMax: nat, s: seq<byte>, h: Header, chance: Chance, world: W)
    requires |s| >= FRAME_HEADER_LEN + Word1(h) && h == s[..FRAME_HEADER_LEN]
    requires HeaderAccepted(h) && SizesAccepted(h) && chance.programFits
    ensures var middle := FRAME_HEADER_LEN + Word1(h);
            var refusal := ResponseFrame(RequestId(h), STATUS_INVALID_ARGUMENT, []);
            Serve(machine, usizeMax, s, chance, world)
            == if !chance.stateFits then Served(middle + chance.quiet, refusal, world)
               else if |s| < middle + Word2(h) then Served(|s|, PAYLOAD_TIMEOUT + refusal, world)
               else
                 var (sent, world') := Perform(machine, usizeMax, RequestId(h), ExpectedCrc(h),
                                               s[FRAME_HEADER_LEN..middle], s[middle..middle + Word2(h)], world);
                 Served(middle + Word2(h), sent, world')
  {
    hide Perform, ResponseFrame, HeaderAccepted, SizesAccepted, RequestId, Word1, Word2, ExpectedCrc;
  }

  /** Port and world stand where one turn on input `s` leaves them. */
  ghost predicate Turned<W>(machine: Machine<W>, usizeMax: nat, s: seq<byte>, chance: Chance, start: W,
                            before: seq<byte>, unread: seq<byte>, written: seq<byte>, world: W)
  {
    var served := Serve(machine, usizeMax, s, chance, start);
    served.taken <= |s| && unread == s[served.taken..] && written == before + served.sent && world == served.world
  }

  lemma StateRefused<W>(machine: Machine<W>, usizeMax: nat, s: seq<byte>, h: Header, chance: Chance, start: W,
                        before: seq<byte>, unread: seq<byte>, written: seq<byte>)
    requires |s| >= FRAME_HEADER_LEN + Word1(h) && h == s[..FRAME_HEADER_LEN]
    requires HeaderAccepted(h) && SizesAccepted(h) && chance.programFits
    requires var rest := s[FRAME_HEADER_LEN + Word1(h)..];
             if chance.stateFits then |rest| < Word2(h) && unread == []
             else chance.quiet <= |rest| && unread == rest[chance.quiet..]
    requires written == before + (if chance.stateFits then PAYLOAD_TIMEOUT else [])
                      + ResponseFrame(RequestId(h), STATUS_INVALID_ARGUMENT, [])
    ensures Turned(machine, usizeMax, s, chance, start, before, unread, written, start)
  {
    hide Serve, ResponseFrame, HeaderAccepted, SizesAccepted, RequestId, Word1, Word2;
    ServeBehindProgram(machine, usizeMax, s, h, chance, start);
    Regroup3(before, PAYLOAD_TIMEOUT, ResponseFrame(RequestId(h), STATUS_INVALID_ARGUMENT, []));
    assert before + [] == before;
    if !chance.stateFits { DropTwice(s, FRAME_HEADER_LEN + Word1(h), chance.quiet); }
  }

  lemma WholeServed<W>(machine: Machine<W>, usizeMax: nat, s: seq<byte>, h: Header, chance: Chance, start: W,
                       before: seq<byte>, program: seq<byte>, state: seq<byte>,
                       unread: seq<byte>, written: seq<byte>, world: W)
    requires |s| >= FRAME_HEADER_LEN + Word1(h) && h == s[..FRAME_HEADER_LEN]
    requires HeaderAccepted(h) && SizesAccepted(h) && chance.Memory()
    requires program == s[FRAME_HEADER_LEN..FRAME_HEADER_LEN + Word1(h)]
    requires var rest := s[FRAME_HEADER_LEN + Word1(h)..];
             |rest| >= Word2(h) && state == rest[..Word2(h)] && unread == rest[Word2(h)..]
    requires var done := Perform(machine, usizeMax, RequestId(h), ExpectedCrc(h), program, state, start);
             written == before + done.0 && world == done.1
    ensures Turned(machine, usizeMax, s, chance, start, before, unread, written, world)
  {
    hide Serve, Perform, HeaderAccepted, SizesAccepted, RequestId, Word1, Word2, ExpectedCrc;
    ServeBehindProgram(machine, usizeMax, s, h, chance, start);
    DropTwice(s, FRAME_HEADER_LEN + Word1(h), Word2(h));
    SliceTwice(s, FRAME_HEADER_LEN + Word1(h), Word2(h));
  }

  // ----- the input in parts

  lemma DropTwice(s: seq<byte>, i: nat, j: nat)
    requires i + j <= |s|
    ensures s[i..][j..] == s[i + j..]
  {
  }

  lemma SliceTwice(s: seq<byte>, i: nat, j: nat)
    requires i + j <= |s|
    ensures s[i..][..j] == s[i..i + j]
  {
  }

  lemma Regroup3(a: seq<byte>, b: seq<byte>, c: seq<byte>)
    ensures a + b + c == a + (b + c)
  {
  }
}
