/** What the device does with the frames a client sends. */
module Service {
  import opened Bytes
  import opened Frames
  import opened Embedded
  import opened Device
  import Crc
  import Damage
  import Wire

  /** A request on its way; the checksum is the sender's and may no longer fit the parts. */
  datatype Request = Request(id: u32, program: seq<byte>, state: seq<byte>, crc: u32) {
    predicate WellSized() { program != [] && state != [] && |program| + |state| <= MAX_FRAME_BYTES }

    function Bytes(): seq<byte>
      requires WellSized()
    {
      MakeHeader(REQUEST_MAGIC, id, |program|, |state|, crc) + program + state
    }
  }

  /** The bytes of a frame with what follows it, taken apart again by the device. */
  lemma FrameTakenApart(r: Request, rest: seq<byte>)
    requires r.WellSized()
    ensures var s := r.Bytes() + rest;
            var end := FRAME_HEADER_LEN + |r.program| + |r.state|;
            var h := s[..FRAME_HEADER_LEN];
            HeaderAccepted(h) && SizesAccepted(h) && RequestId(h) == r.id && ExpectedCrc(h) == r.crc &&
            Word1(h) == |r.program| && Word2(h) == |r.state| &&
            |r.Bytes()| == end && s[FRAME_HEADER_LEN..FRAME_HEADER_LEN + |r.program|] == r.program &&
            s[FRAME_HEADER_LEN + |r.program|..end] == r.state && s[end..] == rest
  {
    hide MakeHeader, RequestId, Word1, Word2, ExpectedCrc;
    var h := MakeHeader(REQUEST_MAGIC, r.id, |r.program|, |r.state|, r.crc);
    HeaderFields(REQUEST_MAGIC, r.id, |r.program|, |r.state|, r.crc);
    var s := r.Bytes() + rest;
    assert s == h + r.program + r.state + rest;
    assert s[..FRAME_HEADER_LEN] == h;
  }

  /** Every well-sized frame is consumed to its last byte and answered, whether its checksum fits or not; without
      memory it is refused, and what was not read stays in the line except for what is thrown away. */
  lemma FrameServed<W>(machine: Machine<W>, usizeMax: nat, r: Request, rest: seq<byte>, chance: Chance, world: W)
    requires r.WellSized()
    ensures var done := Perform(machine, usizeMax, r.id, r.crc, r.program, r.state, world);
            Serve(machine, usizeMax, r.Bytes() + rest, chance, world)
            == if chance.Memory() then Served(FRAME_HEADER_LEN + |r.program| + |r.state|, done.0, done.1)
               else OutOfMemory(r.id, r.program, chance, world)
  {
    hide Perform, HeaderAccepted, SizesAccepted, RequestId, Word1, Word2, ExpectedCrc, ResponseFrame;
    FrameTakenApart(r, rest);
  }

  /** What becomes of a frame when the device has no memory for its program or for its state. */
  function OutOfMemory<W>(id: u32, program: seq<byte>, chance: Chance, world: W): Served<W>
  {
    Served(FRAME_HEADER_LEN + (if chance.programFits then |program| else 0) + chance.quiet,
           ResponseFrame(id, STATUS_INVALID_ARGUMENT, []), world)
  }

  /** What the client's transport writes passes the checks of the device and runs the program that was sent. */
  lemma RequestServed<W>(machine: Machine<W>, usizeMax: nat, id: u32, program: seq<byte>, state: seq<byte>,
                         rest: seq<byte>, chance: Chance, world: W)
    requires program != [] && state != [] && |program| + |state| <= MAX_FRAME_BYTES
    ensures var reply := RunVmbc(machine, program, Wire.Input(state, usizeMax), world);
            Serve(machine, usizeMax, RequestFrame(id, program, state) + rest, chance, world)
            == if chance.Memory() then
                 Served(FRAME_HEADER_LEN + |program| + |state|,
                        reply.log + ResponseFrame(id, reply.status, reply.output), reply.world)
               else OutOfMemory(id, program, chance, world)
  {
    hide RunVmbc, ResponseFrame, Serve, MakeHeader, Crc.RequestChecksum, OutOfMemory;
    var crc := Crc.RequestChecksum(program, state);
    FrameServed(machine, usizeMax, Request(id, program, state, crc), rest, chance, world);
  }

  /** The client sends a request with an empty part all the same; the device refuses it after the header alone, and
      the other part stays in the line except for what is thrown away while waiting for silence. */
  lemma EmptyPartRefused<W>(machine: Machine<W>, usizeMax: nat, id: u32, program: seq<byte>, state: seq<byte>,
                            rest: seq<byte>, chance: Chance, world: W)
    requires (program == [] || state == []) && |program| + |state| <= MAX_FRAME_BYTES
    ensures Serve(machine, usizeMax, RequestFrame(id, program, state) + rest, chance, world)
         == Served(FRAME_HEADER_LEN + chance.quiet, ResponseFrame(id, STATUS_INVALID_ARGUMENT, []), world)
  {
    hide Perform, ResponseFrame, MakeHeader, RequestId, Word1, Word2, ExpectedCrc, HeaderAccepted, Crc.RequestChecksum;
    var h := MakeHeader(REQUEST_MAGIC, id, |program|, |state|, Crc.RequestChecksum(program, state));
    HeaderFields(REQUEST_MAGIC, id, |program|, |state|, Crc.RequestChecksum(program, state));
    var s := RequestFrame(id, program, state) + rest;
    assert s == h + program + state + rest;
    assert s[..FRAME_HEADER_LEN] == h;
  }

  /** What the device takes for a header: the magic "RSSQ", version 1, and two lengths that are not zero and together
      at most 131072. */
  predicate Announces(h: Header)
  {
    h[..4] == [0x52, 0x53, 0x53, 0x51] && ReadU16(h[4..6]) == 1 &&
    var program, state := ReadU32(h[12..16]), ReadU32(h[16..20]);
    program > 0 && state > 0 && program + state <= 131072
  }

  /** Any other header is refused on the spot: what follows it stays in the line except for what is thrown away, the
      answer carries the identifier found in the header and the status -1, and nothing is run. */
  lemma BadHeaderRefused<W>(machine: Machine<W>, usizeMax: nat, s: seq<byte>, chance: Chance, world: W)
    requires |s| >= FRAME_HEADER_LEN && !Announces(s[..FRAME_HEADER_LEN])
    ensures Serve(machine, usizeMax, s, chance, world)
         == Served(FRAME_HEADER_LEN + chance.quiet, ResponseFrame(ReadU32(s[8..12]), -1, []), world)
  {
    hide Perform, ResponseFrame, ReadU16, ReadU32;
    var h := s[..FRAME_HEADER_LEN];
    assert h[8..12] == s[8..12];
  }

  /** A frame whose header is in order but which ends early: the device waits in vain, says so as text, refuses the
      frame and runs nothing. Fewer bytes than a header are dropped without an answer. */
  lemma CutFrameRefused<W>(machine: Machine<W>, usizeMax: nat, r: Request, n: nat, chance: Chance, world: W)
    requires r.WellSized() && n < |r.Bytes()| && chance.Memory()
    ensures Serve(machine, usizeMax, r.Bytes()[..n], chance, world)
         == if n < FRAME_HEADER_LEN then Served(n, [], world)
            else Served(n, PAYLOAD_TIMEOUT + ResponseFrame(r.id, -1, []), world)
  {
    hide Perform, ResponseFrame, HeaderAccepted, SizesAccepted, RequestId, Word1, Word2, ExpectedCrc;
    FrameTakenApart(r, []);
    var s := r.Bytes() + [];
    assert s == r.Bytes();
    if n >= FRAME_HEADER_LEN { assert s[..n][..FRAME_HEADER_LEN] == s[..FRAME_HEADER_LEN]; }
  }

  /** A burst of at most 32 bits or any two bits in the program or in the state: the program does not run, and the
      client is told. */
  lemma DamagedRequestRefused<W>(machine: Machine<W>, usizeMax: nat, id: u32, part: seq<byte>, damaged: seq<byte>,
                                 other: seq<byte>, from: nat, to: nat, rest: seq<byte>, chance: Chance, world: W)
    requires part != [] && other != [] && |part| + |other| <= MAX_FRAME_BYTES
    requires Damage.Detectable(part, damaged, from, to)
    ensures var refused := if chance.Memory() then Served(FRAME_HEADER_LEN + |part| + |other|,
                                                          ResponseFrame(id, STATUS_INVALID_REPL_STATE, []), world)
                           else OutOfMemory(id, damaged, chance, world);
            var first := Request(id, damaged, other, Crc.RequestChecksum(part, other));
            Serve(machine, usizeMax, first.Bytes() + rest, chance, world) == refused
    ensures var refused := if chance.Memory() then Served(FRAME_HEADER_LEN + |part| + |other|,
                                                          ResponseFrame(id, STATUS_INVALID_REPL_STATE, []), world)
                           else OutOfMemory(id, other, chance, world);
            var second := Request(id, other, damaged, Crc.RequestChecksum(other, part));
            Serve(machine, usizeMax, second.Bytes() + rest, chance, world) == refused
  {
    hide RunVmbc, ResponseFrame, Serve, MakeHeader, Crc.RequestChecksum, OutOfMemory, Damage.Detectable;
    SameLength(part, damaged, from, to);
    Damage.DamageChangesRequest(part, damaged, from, to, other);
    var first := Request(id, damaged, other, Crc.RequestChecksum(part, other));
    var second := Request(id, other, damaged, Crc.RequestChecksum(other, part));
    FrameServed(machine, usizeMax, first, rest, chance, world);
    FrameServed(machine, usizeMax, second, rest, chance, world);
  }

  // ----- frames back to back

  /** What answers one request: log text, then the frame's status and payload. */
  function AnswerTo<W>(machine: Machine<W>, usizeMax: nat, r: Request, world: W): (reply: Reply<W>)
    ensures |reply.output| <= MAX_FRAME_BYTES
  {
    if Crc.RequestChecksum(r.program, r.state) != r.crc then Reply(STATUS_INVALID_REPL_STATE, [], [], world)
    else RunVmbc(machine, r.program, Wire.Input(r.state, usizeMax), world)
  }

  predicate AllWellSized(rs: seq<Request>) { forall r :: r in rs ==> r.WellSized() }

  function BytesOfAll(rs: seq<Request>): seq<byte>
    requires AllWellSized(rs)
  {
    if rs == [] then [] else rs[0].Bytes() + BytesOfAll(rs[1..])
  }

  /** One response each, in order, under the request's own identifier; the world is handed on. */
  function Responses<W>(machine: Machine<W>, usizeMax: nat, rs: seq<Request>, world: W): (seq<byte>, W)
    requires AllWellSized(rs)
  {
    if rs == [] then ([], world)
    else
      var reply := AnswerTo(machine, usizeMax, rs[0], world);
      var (later, world') := Responses(machine, usizeMax, rs[1..], reply.world);
      (reply.log + ResponseFrame(rs[0].id, reply.status, reply.output) + later, world')
  }

  /** Frames sent without waiting keep in step, however many of them fail their checksum. */
  lemma {:induction false} BackToBack<W>(machine: Machine<W>, usizeMax: nat, rs: seq<Request>, chances: seq<Chance>,
                                         rest: seq<byte>, world: W)
    requires AllWellSized(rs) && |chances| == |rs| && forall c :: c in chances ==> c.Memory()
    ensures var sent := Responses(machine, usizeMax, rs, world);
            ServeTurns(machine, usizeMax, BytesOfAll(rs) + rest, chances, world)
            == Served(|BytesOfAll(rs)|, sent.0, sent.1)
  {
    hide Serve, MakeHeader, RunVmbc, ResponseFrame, Crc.RequestChecksum;
    if rs != [] {
      var s, first := BytesOfAll(rs) + rest, rs[0].Bytes();
      var after := BytesOfAll(rs[1..]) + rest;
      assert s == first + after;
      FrameServed(machine, usizeMax, rs[0], after, chances[0], world);
      assert s[|first|..] == after;
      var reply := AnswerTo(machine, usizeMax, rs[0], world);
      BackToBack(machine, usizeMax, rs[1..], chances[1..], rest, reply.world);
    }
  }
}
