/** The host's end of the serial line. */
module Transport {
  import opened Bytes
  import opened Results
  import opened Frames
  import Crc

  /** What a port that takes `capacity` bytes in all, `before` of them already, still takes of `bytes`. */
  function Taken(capacity: Option<nat>, before: nat, bytes: seq<byte>): (taken: seq<byte>)
    ensures taken <= bytes && (capacity.None? ==> taken == bytes)
  {
    if capacity.None? || before + |bytes| <= capacity.value then bytes
    else if before <= capacity.value then bytes[..capacity.value - before]
    else []
  }

  /** A serial port with a finite stream still to be read. */
  class SerialPort {
    var unread: seq<byte>
    var written: seq<byte>
    /** How many bytes the port takes before writing fails; `None` when it never does. */
    const capacity: Option<nat>
    /** Whether what was written can be flushed. */
    const flushes: bool

    constructor (unread: seq<byte>, capacity: Option<nat>, flushes: bool)
      ensures this.unread == unread && written == [] && this.capacity == capacity && this.flushes == flushes
    {
      this.unread, written, this.capacity, this.flushes := unread, [], capacity, flushes;
    }

    method ReadByte() returns (b: Result<byte, IoError>)
      modifies `unread
      ensures if old(unread) == [] then b == Err(UnexpectedEof) && unread == []
              else b == Ok(old(unread)[0]) && unread == old(unread)[1..]
    {
      if unread == [] { return Err(UnexpectedEof); }
      b := Ok(unread[0]);
      unread := unread[1..];
    }

    /** A read that runs into the end of the stream has consumed what was left of it. */
    method ReadExact(length: nat) returns (r: Result<seq<byte>, IoError>)
      modifies `unread
      ensures if |old(unread)| < length then r == Err(UnexpectedEof) && unread == []
              else r == Ok(old(unread)[..length]) && unread == old(unread)[length..]
    {
      if |unread| < length {
        unread := [];
        return Err(UnexpectedEof);
      }
      r := Ok(unread[..length]);
      unread := unread[length..];
    }

    /** A write that fails has written as much as the port took. */
    method WriteAll(bytes: seq<byte>) returns (ok: bool)
      modifies `written
      ensures written == old(written) + Taken(capacity, |old(written)|, bytes)
      ensures ok == (Taken(capacity, |old(written)|, bytes) == bytes)
    {
      var taken := Taken(capacity, |written|, bytes);
      written := written + taken;
      ok := |taken| == |bytes|;
    }
  }

  /** Three writes take what one write of everything would. */
  lemma TakenInParts(capacity: Option<nat>, before: nat, a: seq<byte>, b: seq<byte>)
    ensures Taken(capacity, before, a) == a ==>
              Taken(capacity, before, a + b) == a + Taken(capacity, before + |a|, b) &&
              (Taken(capacity, before, a + b) == a + b <==> Taken(capacity, before + |a|, b) == b)
    ensures Taken(capacity, before, a) != a ==>
              Taken(capacity, before, a + b) == Taken(capacity, before, a) && Taken(capacity, before, a + b) != a + b
  {
    var whole := Taken(capacity, before, a + b);
    if Taken(capacity, before, a) == a {
      assert whole == a + Taken(capacity, before + |a|, b);
    } else {
      assert |Taken(capacity, before, a)| < |a|;
      assert whole == Taken(capacity, before, a);
    }
  }

  class SerialReplTransport {
    const io: SerialPort
    var deviceOutput: seq<byte>
    var nextRequestId: u32

    constructor (io: SerialPort)
      ensures this.io == io && deviceOutput == [] && nextRequestId == NthId(0)
    {
      this.io := io;
      deviceOutput, nextRequestId := [], 1;
    }

    method TakeDeviceOutput() returns (output: seq<byte>)
      modifies `deviceOutput
      ensures output == old(deviceOutput) && deviceOutput == []
    {
      output := deviceOutput;
      deviceOutput := [];
    }

    /** `read_stream_byte` until `count` bytes have arrived: bytes pushed back come before bytes of the port. */
    method ReadStream(count: nat, pending: seq<byte>) returns (r: Result<seq<byte>, IoError>, left: seq<byte>)
      modifies io`unread
      ensures var stream := pending + old(io.unread);
              if |stream| < count then r == Err(UnexpectedEof) && io.unread == []
              else r.Ok? && |r.value| == count && r.value + left + io.unread == stream &&
                   |left| == if |pending| < count then 0 else |pending| - count
    {
      ghost var stream := pending + io.unread;
      left := pending;
      var bytes: seq<byte> := [];
      for i := 0 to count
        invariant |bytes| == i && bytes + left + io.unread == stream
        invariant |left| == if |pending| < i then 0 else |pending| - i
      {
        if left != [] {
          bytes, left := bytes + [left[0]], left[1..];
        } else {
          var b := io.ReadByte();
          if b.Err? { return Err(b.error), left; }
          bytes := bytes + [b.value];
        }
      }
      r := Ok(bytes);
    }

    /** Sends one request and hunts for its response. */
    method Execute(program: seq<byte>, state: seq<byte>) returns (r: Result<Response, IoError>)
      modifies this`deviceOutput, this`nextRequestId, io`unread, io`written
      ensures Exchanged(old(LineOf(this)), io.capacity, io.flushes, program, state, r, LineOf(this))
    {
      hide RequestFrame, Receive;
      var sent := Send(program, state);
      if sent.Err? { return Err(sent.error); }
      r := AwaitResponse(sent.value);
    }

    /** The sending half: nothing for an oversized request; otherwise header, program and state, then a flush. */
    method Send(program: seq<byte>, state: seq<byte>) returns (r: Result<u32, IoError>)
      modifies this`nextRequestId, io`written
      ensures if |program| + |state| > MAX_FRAME_BYTES then
                r == Err(InvalidInput) && nextRequestId == old(nextRequestId) && io.written == old(io.written)
              else
                var frame := RequestFrame(old(nextRequestId), program, state);
                var taken := Taken(io.capacity, |old(io.written)|, frame);
                nextRequestId == NextId(old(nextRequestId)) && io.written == old(io.written) + taken &&
                r == if taken == frame && io.flushes then Ok(old(nextRequestId)) else Err(WriteFailed)
    {
      hide MakeHeader, Taken;
      if |program| >= U32_SIZE || |state| >= U32_SIZE || |program| + |state| > MAX_FRAME_BYTES {
        return Err(InvalidInput);
      }
      var requestId := nextRequestId;
      nextRequestId := NextId(nextRequestId);
      var crc := Crc.HostRequestCrc(program, state);
      var header := MakeHeader(REQUEST_MAGIC, requestId, |program|, |state|, crc as int);
      var ok := WriteParts(header, program, state);
      r := if ok && io.flushes then Ok(requestId) else Err(WriteFailed);
    }

    method WriteParts(header: seq<byte>, program: seq<byte>, state: seq<byte>) returns (ok: bool)
      modifies io`written
      ensures io.written == old(io.written) + Taken(io.capacity, |old(io.written)|, header + program + state)
      ensures ok == (Taken(io.capacity, |old(io.written)|, header + program + state) == header + program + state)
    {
      hide Taken;
      ghost var before := |io.written|;
      TakenInParts(io.capacity, before, header, program);
      TakenInParts(io.capacity, before, header + program, state);
      ok := io.WriteAll(header);
      if !ok { return; }
      ok := io.WriteAll(program);
      if !ok { return; }
      ok := io.WriteAll(state);
    }

    /** The receiving half, from an empty device output. */
    method AwaitResponse(requestId: u32) returns (r: Result<Response, IoError>)
      modifies this`deviceOutput, io`unread
      ensures var reception := Receive(old(io.unread), requestId);
              reception.taken <= |old(io.unread)| && io.unread == old(io.unread)[reception.taken..] &&
              r == reception.result && deviceOutput == reception.deviceOutput
    {
      deviceOutput := [];
      r := Hunt(requestId);
    }

    /** The port and the device output stand where the specification leaves them. */
    ghost predicate Ends(s: seq<byte>, id: u32, r: Result<Response, IoError>)
      reads this, io
    {
      |io.unread| <= |s| && io.unread == s[|s| - |io.unread|..] &&
      Receive(s, id) == Reception(r, deviceOutput, |s| - |io.unread|)
    }

    /** `held` bytes of the stream are in hand after the device output, and the search has come this far. */
    ghost predicate Hunting(s: seq<byte>, id: u32, held: seq<byte>)
      reads this, io
    {
      deviceOutput + held + io.unread == s &&
      Scan(s, id, 0, 0) == Scan(s, id, |deviceOutput|, |deviceOutput| + |held|)
    }

    /** The receiving loop, from an empty device output and an empty push-back queue. */
    method Hunt(requestId: u32) returns (r: Result<Response, IoError>)
      requires deviceOutput == []
      modifies this`deviceOutput, io`unread
      ensures Ends(old(io.unread), requestId, r)
    {
      hide Receive, Scan, MatchAt, MagicAt, Version, RequestId;
      ghost var s := io.unread;
      var pending: seq<byte> := [];
      while true
        invariant Hunting(s, requestId, pending)
        invariant |pending| == 0 || |pending| == FRAME_HEADER_LEN - 1
        decreases |s| - |deviceOutput|
      {
        var found, left := FindMagic(s, requestId, pending);
        if found.Err? { return Err(found.error); }
        ghost var taken := |deviceOutput| + 4 + |left|;
        var header := ReadHeader(s, requestId, left);
        if header.Err? { return Err(header.error); }
        var candidate := header.value;
        if Version(candidate) != FRAME_VERSION || RequestId(candidate) != requestId {
          PassesOver(s, requestId, |deviceOutput|, taken);
          PushBack(deviceOutput, candidate, io.unread);
          deviceOutput := deviceOutput + [candidate[0]];
          pending := candidate[1..];
          continue;
        }
        FoundHere(s, requestId, |deviceOutput|, taken);
        r := ReadPayload(s, requestId, candidate);
        return;
      }
    }

    /** The twenty bytes after the magic: more than any push-back can hold, so the queue is empty again afterwards. */
    method ReadHeader(ghost s: seq<byte>, ghost id: u32, left: seq<byte>) returns (r: Result<Header, IoError>)
      requires Hunting(s, id, RESPONSE_MAGIC + left) && |left| <= FRAME_HEADER_LEN - 5
      modifies io`unread
      ensures r.Ok? ==> deviceOutput + r.value + io.unread == s &&
                             |deviceOutput| + FRAME_HEADER_LEN <= |s| && MagicAt(s, |deviceOutput|) &&
                             (MatchAt(s, |deviceOutput|, id) <==> Accepts(r.value, id))
      ensures r.Err? ==> Ends(s, id, Err(r.error))
    {
      hide Receive, Scan, MatchAt, Accepts;
      ghost var port := io.unread;
      var rest, none := ReadStream(FRAME_HEADER_LEN - 4, left);
      Complete(deviceOutput, RESPONSE_MAGIC, left, port, []);
      if rest.Err? {
        EndsInHeader(s, id, |deviceOutput|, |deviceOutput| + 4 + |left|);
        return Err(rest.error);
      }
      assert none == [] && rest.value + none == rest.value;
      var candidate: Header := RESPONSE_MAGIC + rest.value;
      Complete(deviceOutput, RESPONSE_MAGIC, rest.value, io.unread, left + port);
      assert s == deviceOutput + candidate + io.unread;
      HeaderStands(s, |deviceOutput|, candidate, id);
      r := Ok(candidate);
    }

    /** Slides the four-byte window over the stream, one byte of device output at a time. */
    method FindMagic(ghost s: seq<byte>, ghost id: u32, pending: seq<byte>)
      returns (r: Result<(), IoError>, left: seq<byte>)
      requires Hunting(s, id, pending)
      requires |pending| == 0 || |pending| == FRAME_HEADER_LEN - 1
      modifies this`deviceOutput, io`unread
      ensures old(|deviceOutput|) <= |deviceOutput|
      ensures r.Ok? ==> Hunting(s, id, RESPONSE_MAGIC + left) && |left| <= FRAME_HEADER_LEN - 5
      ensures r.Err? ==> Ends(s, id, Err(r.error))
    {
      hide Receive, Scan, MatchAt, MagicAt;
      var window, rest := ReadStream(4, pending);
      left := rest;
      if window.Err? {
        EndsInWindow(s, id, |deviceOutput|, |deviceOutput| + |pending|);
        return Err(window.error), left;
      }
      var candidate := window.value;
      Regroup(deviceOutput, pending, old(io.unread), candidate, left, io.unread);
      ScanTaken(s, id, |deviceOutput|, |deviceOutput| + |pending|);
      while candidate != RESPONSE_MAGIC
        invariant |candidate| == 4 && Hunting(s, id, candidate + left)
        invariant |left| <= FRAME_HEADER_LEN - 5
        invariant old(|deviceOutput|) <= |deviceOutput|
        decreases |s| - |deviceOutput|
      {
        var next, rest := Slide(s, id, candidate, left);
        left := rest;
        if next.Err? { return Err(next.error), left; }
        candidate := next.value;
      }
      r := Ok(());
    }

    /** Gives the first byte of the window up as device output and takes in one more. */
    method Slide(ghost s: seq<byte>, ghost id: u32, candidate: seq<byte>, pending: seq<byte>)
      returns (r: Result<seq<byte>, IoError>, left: seq<byte>)
      requires |candidate| == 4 && candidate != RESPONSE_MAGIC
      requires Hunting(s, id, candidate + pending) && |pending| <= FRAME_HEADER_LEN - 5
      modifies this`deviceOutput, io`unread
      ensures r.Ok? ==> old(|deviceOutput|) < |deviceOutput| <= |s| && |r.value| == 4 &&
                             Hunting(s, id, r.value + left) && |left| <= FRAME_HEADER_LEN - 5
      ensures r.Err? ==> old(|deviceOutput|) <= |deviceOutput| && Ends(s, id, Err(r.error))
    {
      hide Receive, Scan, MatchAt, MagicAt;
      left := pending;
      WindowStands(s, |deviceOutput|, candidate, left + io.unread);
      Slides(s, id, |deviceOutput|, |deviceOutput| + 4 + |left|);
      if |deviceOutput| >= MAX_PRELUDE {
        return Err(PreludeTooLong), left;
      }
      ghost var shown, port := deviceOutput, io.unread;
      deviceOutput := deviceOutput + [candidate[0]];
      var next, rest := ReadStream(1, left);
      left := rest;
      if next.Err? {
        EndsInWindow(s, id, |deviceOutput|, |deviceOutput| + 3 + |pending|);
        return Err(next.error), left;
      }
      ScanTaken(s, id, |deviceOutput|, |deviceOutput| + 3 + |pending|);
      SlideWindow(shown, candidate, pending, port, next.value, left, io.unread);
      r := Ok(candidate[1..] + next.value);
    }

    /** The payload comes straight from the port. */
    method ReadPayload(ghost s: seq<byte>, ghost id: u32, candidate: Header) returns (r: Result<Response, IoError>)
      requires deviceOutput + candidate + io.unread == s && Scan(s, id, 0, 0) == Found(|deviceOutput|)
      modifies io`unread
      ensures Ends(s, id, r)
    {
      hide Scan;
      ghost var start := |deviceOutput| + FRAME_HEADER_LEN;
      assert s[|deviceOutput|..start] == candidate && s[start..] == io.unread && s[..|deviceOutput|] == deviceOutput;
      if Word2(candidate) > MAX_FRAME_BYTES { return Err(ResponseTooLarge); }
      var payload := io.ReadExact(Word2(candidate));
      if payload.Err? { return Err(payload.error); }
      assert payload.value == s[start..start + Word2(candidate)];
      var crc := Crc.ComputeCrc32(payload.value);
      if crc as int != ExpectedCrc(candidate) { return Err(CrcMismatch); }
      r := Ok(Response(I32FromBits(Word1(candidate)), payload.value));
    }
  }

  /** The client's side of the line: counter, device output, bytes waiting and bytes sent. */
  datatype Line = Line(nextRequestId: u32, deviceOutput: seq<byte>, unread: seq<byte>, written: seq<byte>)

  function LineOf(transport: SerialReplTransport): Line
    reads transport, transport.io
  {
    Line(transport.nextRequestId, transport.deviceOutput, transport.io.unread, transport.io.written)
  }

  /** How one call of the transport may end. */
  predicate Exchanged(before: Line, capacity: Option<nat>, flushes: bool, program: seq<byte>, state: seq<byte>,
                      outcome: Result<Response, IoError>, after: Line)
  {
    if |program| + |state| > MAX_FRAME_BYTES then
      outcome == Err(InvalidInput) && after == before
    else
      var frame := RequestFrame(before.nextRequestId, program, state);
      var taken := Taken(capacity, |before.written|, frame);
      var sent := before.(nextRequestId := NextId(before.nextRequestId), written := before.written + taken);
      if taken != frame || !flushes then outcome == Err(WriteFailed) && after == sent
      else
        var reception := Receive(before.unread, before.nextRequestId);
        reception.taken <= |before.unread| && outcome == reception.result &&
        after == sent.(deviceOutput := reception.deviceOutput, unread := before.unread[reception.taken..])
  }

  // ----- regrouping the bytes in hand

  lemma Regroup(output: seq<byte>, pending: seq<byte>, port: seq<byte>,
                window: seq<byte>, left: seq<byte>, port': seq<byte>)
    requires pending + port == window + left + port'
    ensures output + pending + port == output + (window + left) + port'
  {
    assert output + pending + port == output + (pending + port);
    assert output + (window + left) + port' == output + (window + left + port');
  }

  lemma SlideWindow(output: seq<byte>, window: seq<byte>, left: seq<byte>, port: seq<byte>,
                    next: seq<byte>, left': seq<byte>, port': seq<byte>)
    requires window != [] && left + port == next + left' + port'
    ensures output + (window + left) + port == output + [window[0]] + (window[1..] + next + left') + port'
  {
    assert output + (window + left) + port == output + window + (left + port);
    assert window == [window[0]] + window[1..];
    assert output + [window[0]] + (window[1..] + next + left') + port'
        == output + ([window[0]] + window[1..]) + (next + left' + port');
  }

  lemma Complete(output: seq<byte>, magic: seq<byte>, left: seq<byte>, port: seq<byte>, tail: seq<byte>)
    ensures output + (magic + left) + port == output + magic + (left + port)
    ensures tail == left + port ==> output + magic + tail == output + (magic + left) + port
  {
  }

  lemma PushBack(output: seq<byte>, candidate: seq<byte>, port: seq<byte>)
    requires candidate != []
    ensures output + candidate + port == output + [candidate[0]] + candidate[1..] + port
  {
    assert candidate == [candidate[0]] + candidate[1..];
  }

  // ----- single steps of the search

  lemma ScanTaken(s: seq<byte>, id: u32, i: nat, taken: nat)
    ensures taken <= i + 4 ==> Scan(s, id, i, taken) == Scan(s, id, i, i + 4)
  {
  }

  lemma EndsInWindow(s: seq<byte>, id: u32, i: nat, taken: nat)
    requires Scan(s, id, 0, 0) == Scan(s, id, i, taken) && i + 4 > |s| && i <= |s|
    ensures Receive(s, id) == Reception(Err(UnexpectedEof), s[..i], |s|)
  {
  }

  lemma WindowStands(s: seq<byte>, i: nat, window: seq<byte>, after: seq<byte>)
    requires |window| == 4 && i + 4 <= |s| && s == s[..i] + window + after
    ensures MagicAt(s, i) <==> window == RESPONSE_MAGIC
  {
    assert s[i..i + 4] == window;
  }

  lemma Slides(s: seq<byte>, id: u32, i: nat, taken: nat)
    requires i + 4 <= |s| && !MagicAt(s, i) && i + 4 <= taken
    requires Scan(s, id, 0, 0) == Scan(s, id, i, taken)
    ensures i < MAX_PRELUDE ==> Scan(s, id, 0, 0) == Scan(s, id, i + 1, taken)
    ensures i >= MAX_PRELUDE ==> Receive(s, id) == Reception(Err(PreludeTooLong), s[..i], taken)
  {
  }

  lemma EndsInHeader(s: seq<byte>, id: u32, i: nat, taken: nat)
    requires i + 4 <= |s| < i + FRAME_HEADER_LEN && s[i..i + 4] == RESPONSE_MAGIC
    requires Scan(s, id, 0, 0) == Scan(s, id, i, taken)
    ensures Receive(s, id) == Reception(Err(UnexpectedEof), s[..i], |s|)
  {
  }

  lemma HeaderStands(s: seq<byte>, i: nat, h: Header, id: u32)
    requires i + FRAME_HEADER_LEN <= |s| && s == s[..i] + h + s[i + FRAME_HEADER_LEN..] && h[..4] == RESPONSE_MAGIC
    ensures MagicAt(s, i)
    ensures MatchAt(s, i, id) <==> Accepts(h, id)
  {
    assert s[i..i + FRAME_HEADER_LEN] == h;
    assert s[i..i + 4] == h[..4];
  }

  lemma PassesOver(s: seq<byte>, id: u32, i: nat, taken: nat)
    requires MagicAt(s, i) && i + FRAME_HEADER_LEN <= |s| && !MatchAt(s, i, id)
    requires Scan(s, id, 0, 0) == Scan(s, id, i, taken)
    ensures Scan(s, id, 0, 0) == Scan(s, id, i + 1, i + FRAME_HEADER_LEN)
  {
  }

  lemma FoundHere(s: seq<byte>, id: u32, i: nat, taken: nat)
    requires MatchAt(s, i, id) && Scan(s, id, 0, 0) == Scan(s, id, i, taken)
    ensures Scan(s, id, 0, 0) == Found(i)
  {
  }
}
