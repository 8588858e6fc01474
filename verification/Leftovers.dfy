/** What may still be in the line from earlier requests, and why none of it passes for the current response. */
module Leftovers {
  import opened Bytes
  import opened Results
  import opened Frames
  import opened Embedded
  import opened Session
  import opened EndToEnd
  import Crc
  import Wire

  predicate NoMagic(s: seq<byte>) { forall j :: 0 <= j < |s| ==> !MagicAt(s, j) }

  type Payload = s: seq<byte> | |s| <= MAX_FRAME_BYTES

  /** A whole response to some request and the text that followed it. */
  datatype Stale = Stale(id: u32, status: i32, payload: Payload, text: seq<byte>) {
    /** As a device answers, with no magic from the payload on. */
    predicate Plain() { Recognisable(status, payload) && NoMagic(payload + text) }

    /** As it answers another request than `current`. */
    predicate Sound(current: u32) { id != current && Plain() }

    function Bytes(): seq<byte> { ResponseFrame(id, status, payload) + text }
  }

  predicate AllSound(stales: seq<Stale>, current: u32) { forall i :: 0 <= i < |stales| ==> stales[i].Sound(current) }

  function BytesOfAll(stales: seq<Stale>): seq<byte>
  {
    if stales == [] then [] else stales[0].Bytes() + BytesOfAll(stales[1..])
  }

  predicate StartsWithMagic(s: seq<byte>) { RESPONSE_MAGIC <= s }

  // ----- positions in a stream of parts

  lemma MatchBehind(a: seq<byte>, s: seq<byte>, j: nat, id: u32)
    ensures MatchAt(a + s, |a| + j, id) <==> MatchAt(s, j, id)
  {
    hide Accepts;
    if j + FRAME_HEADER_LEN <= |s| {
      assert (a + s)[|a| + j..|a| + j + FRAME_HEADER_LEN] == s[j..j + FRAME_HEADER_LEN];
      assert (a + s)[|a| + j..|a| + j + 4] == s[j..j + 4];
    }
  }

  /** Text without the magic stays without it in front of a frame. */
  lemma TextThenFrame(text: seq<byte>, rest: seq<byte>, j: nat)
    requires NoMagic(text) && StartsWithMagic(rest) && j < |text|
    ensures !MagicAt(text + rest, j)
  {
    var s := text + rest;
    if j + 4 <= |text| {
      assert s[j..j + 4] == text[j..j + 4];
      assert !MagicAt(text, j);
    } else if MagicAt(s, j) {
      assert s[|text|..|text| + 4] == RESPONSE_MAGIC;
      NoBorder(s, j, |text|);
    }
  }

  // ----- inside a header

  lemma LeBytes(n: u32)
    ensures LeU32(n)[0] == n % 256 && LeU32(n)[3] == n / 0x100_0000
  {
    var s := Le(n / 256, 3);
    var t := Le(n / 256 / 256, 2);
    var u := Le(n / 256 / 256 / 256, 1);
    assert LeU32(n) == [n % 256] + s && s == [n / 256 % 256] + t && t == [n / 256 / 256 % 256] + u;
    assert u == [n / 256 / 256 / 256 % 256];
    assert n / 256 / 256 / 256 == n / 0x100_0000;
  }

  /** The four bytes of a device status hold no byte of the magic or of the version. */
  lemma StatusBytes(status: i32, i: nat)
    requires STATUS_INVALID_REPL_STATE <= status <= STATUS_OK && i < 4
    ensures LeU32(I32Bits(status))[i] == 0 || LeU32(I32Bits(status))[i] >= 0xfa
  {
    if status == 0 { ZeroBytes(); } else { NegativeBytes(status); }
  }

  lemma ZeroBytes()
    ensures LeU32(0) == [0, 0, 0, 0]
  {
    assert Le(0, 1) == [0] + Le(0, 0);
    assert Le(0, 2) == [0] + Le(0, 1);
    assert Le(0, 3) == [0] + Le(0, 2);
  }

  lemma NegativeBytes(status: i32)
    requires STATUS_INVALID_REPL_STATE <= status < 0
    ensures LeU32(I32Bits(status)) == [0x100 + status, 0xff, 0xff, 0xff]
  {
    var n := I32Bits(status);
    assert n % 256 == 0x100 + status && n / 256 == 0xff_ffff;
    assert Le(0xff_ffff, 3) == [0xff] + Le(0xffff, 2);
    assert Le(0xffff, 2) == [0xff] + Le(0xff, 1);
    assert Le(0xff, 1) == [0xff] + Le(0, 0);
    assert LeU32(n) == [n % 256] + Le(n / 256, 3);
  }

  lemma EmptyChecksum()
    ensures Crc.Checksum([]) == 0
  {
  }

  /** What is known of the bytes of a response header and of the four behind it. */
  predicate HeaderBytes(h: Header, payload: seq<byte>)
  {
    h[0] == 0x52 && h[1] == 0x53 && h[2] == 0x53 && h[3] == 0x50 && h[4] == 1 && h[5] == 0 && h[6] == 0 && h[7] == 0 &&
    (forall i :: 12 <= i < 16 ==> h[i] == 0 || h[i] >= 0xfa) && h[19] == 0 &&
    (payload == [] ==> h[20] == 0 && h[21] == 0 && h[22] == 0 && h[23] == 0)
  }

  lemma HeaderBytesHold(id: u32, status: i32, payload: seq<byte>)
    requires |payload| <= MAX_FRAME_BYTES && Recognisable(status, payload)
    ensures HeaderBytes(MakeHeader(RESPONSE_MAGIC, id, I32Bits(status), |payload|, Crc.Checksum(payload)), payload)
  {
    hide LeU32, Crc.Checksum;
    var h := MakeHeader(RESPONSE_MAGIC, id, I32Bits(status), |payload|, Crc.Checksum(payload));
    VersionLayout();
    assert h[4..6] == LeU16(FRAME_VERSION);
    assert h[4] == h[4..6][0] && h[5] == h[4..6][1];
    forall i | 12 <= i < 16 ensures h[i] == 0 || h[i] >= 0xfa {
      StatusBytes(status, i - 12);
      assert h[i] == LeU32(I32Bits(status))[i - 12];
    }
    LeBytes(|payload|);
    assert h[19] == LeU32(|payload|)[3];
    if payload == [] {
      EmptyChecksum();
      ZeroBytes();
      assert h[20..24] == LeU32(0);
      assert h[20] == h[20..24][0] && h[21] == h[20..24][1] && h[22] == h[20..24][2] && h[23] == h[20..24][3];
    }
  }

  /** A match at `j` fixes six bytes. */
  lemma MatchedBytes(s: seq<byte>, j: nat, id: u32)
    requires MatchAt(s, j, id)
    ensures s[j] == 0x52 && s[j + 1] == 0x53 && s[j + 2] == 0x53 && s[j + 3] == 0x50 && s[j + 4] == 1 && s[j + 5] == 0
  {
    var m, h := s[j..j + 4], s[j..j + FRAME_HEADER_LEN];
    assert s[j] == m[0] && s[j + 1] == m[1] && s[j + 2] == m[2] && s[j + 3] == m[3];
    var v := h[4..6];
    assert v[0] == h[4] == s[j + 4] && v[1] == h[5] == s[j + 5];
    U16Canonical(v);
    VersionLayout();
  }

  lemma U16Canonical(v: seq<byte>)
    requires |v| == 2
    ensures LeU16(ReadU16(v)) == v
  {
    LeOfFromLe(v);
  }

  /** No header starts inside a response header, whatever identifier, length and checksum it carries. */
  lemma NothingInsideHeader(h: Header, payload: seq<byte>, text: seq<byte>, rest: seq<byte>, j: nat, id: u32)
    requires HeaderBytes(h, payload) && (payload == [] || Wire.RESPONSE_MAGIC <= payload)
    requires 0 < j < FRAME_HEADER_LEN
    ensures !MatchAt(h + (payload + text) + rest, j, id)
  {
    hide MatchAt;
    var s := h + (payload + text) + rest;
    if payload != [] { assert s[24] == payload[0] == Wire.RESPONSE_MAGIC[0]; }
    if MatchAt(s, j, id) {
      MatchedBytes(s, j, id);
      assert false;
    }
  }

  // ----- one stale response, and all of them

  /** A stale response with its text, in front of another frame, holds no header for the current request. */
  lemma StaleHoldsNothing(stale: Stale, current: u32, rest: seq<byte>, j: nat)
    requires stale.Sound(current) && StartsWithMagic(rest) && j < |stale.Bytes()|
    ensures !MatchAt(stale.Bytes() + rest, j, current)
  {
    hide MatchAt, NoMagic, MakeHeader, Recognisable, HeaderBytes;
    var h := MakeHeader(RESPONSE_MAGIC, stale.id, I32Bits(stale.status), |stale.payload|, Crc.Checksum(stale.payload));
    var body := stale.payload + stale.text;
    var s := stale.Bytes() + rest;
    assert s == h + body + rest;
    if j == 0 {
      OtherId(h, body + rest, stale, current);
      assert s == h + (body + rest);
    } else if j < FRAME_HEADER_LEN {
      HeaderBytesHold(stale.id, stale.status, stale.payload);
      PayloadStarts(stale.status, stale.payload);
      NothingInsideHeader(h, stale.payload, stale.text, rest, j, current);
    } else {
      TextThenFrame(body, rest, j - FRAME_HEADER_LEN);
      NoMagicNoMatch(body + rest, j - FRAME_HEADER_LEN, current);
      MatchBehind(h, body + rest, j - FRAME_HEADER_LEN, current);
      assert s == h + (body + rest);
    }
  }

  lemma PayloadStarts(status: i32, payload: seq<byte>)
    requires Recognisable(status, payload)
    ensures payload == [] || Wire.RESPONSE_MAGIC <= payload
  {
  }

  lemma NoMagicNoMatch(s: seq<byte>, j: nat, id: u32)
    ensures !MagicAt(s, j) ==> !MatchAt(s, j, id)
  {
  }

  lemma OtherId(h: Header, rest: seq<byte>, stale: Stale, current: u32)
    requires stale.Sound(current)
    requires h == MakeHeader(RESPONSE_MAGIC, stale.id, I32Bits(stale.status), |stale.payload|,
                             Crc.Checksum(stale.payload))
    ensures !MatchAt(h + rest, 0, current)
  {
    hide MakeHeader;
    HeaderFields(RESPONSE_MAGIC, stale.id, I32Bits(stale.status), |stale.payload|, Crc.Checksum(stale.payload));
    assert (h + rest)[0..FRAME_HEADER_LEN] == h;
  }

  lemma BytesStart(stales: seq<Stale>, rest: seq<byte>)
    requires StartsWithMagic(rest)
    ensures StartsWithMagic(BytesOfAll(stales) + rest)
  {
    hide ResponseFrame;
    if stales == [] {
      assert BytesOfAll(stales) + rest == rest;
    } else {
      var first := stales[0];
      FrameHasMagic(first.id, first.status, first.payload);
      var frame, later := ResponseFrame(first.id, first.status, first.payload), BytesOfAll(stales[1..]);
      assert BytesOfAll(stales) + rest == frame + (first.text + later + rest);
      MagicFirst(frame, first.text + later + rest);
    }
  }

  lemma MagicFirst(a: seq<byte>, b: seq<byte>)
    ensures StartsWithMagic(a) ==> StartsWithMagic(a + b)
  {
  }

  /** No header for the current request among any number of stale responses in front of a frame. */
  lemma {:induction false} StalesHoldNothing(stales: seq<Stale>, current: u32, rest: seq<byte>, j: nat)
    requires AllSound(stales, current) && StartsWithMagic(rest) && j < |BytesOfAll(stales)|
    ensures !MatchAt(BytesOfAll(stales) + rest, j, current)
    decreases |stales|
  {
    hide MatchAt, StartsWithMagic, ResponseFrame;
    var first, later := stales[0].Bytes(), BytesOfAll(stales[1..]);
    var s := BytesOfAll(stales) + rest;
    assert s == first + (later + rest);
    BytesStart(stales[1..], rest);
    if j < |first| {
      StaleHoldsNothing(stales[0], current, later + rest, j);
    } else {
      StalesHoldNothing(stales[1..], current, rest, j - |first|);
      MatchBehind(first, later + rest, j - |first|, current);
    }
  }

  lemma Regroup4(a: seq<byte>, b: seq<byte>, c: seq<byte>, d: seq<byte>, e: seq<byte>)
    requires a + b == c + d
    ensures a + (b + e) == c + (d + e)
  {
    assert a + (b + e) == (a + b) + e;
    assert c + (d + e) == (c + d) + e;
  }

  /** Quiet text and whole responses to earlier requests, left in the line by evaluations that gave up, forge no
      header: the next evaluation within the other limits comes through unchanged. */
  lemma StaleIsUnforged<W>(link: Link, reply: Reply<W>, text: seq<byte>, stales: seq<Stale>)
    requires |reply.output| <= MAX_FRAME_BYTES && NoMagic(text) && AllSound(stales, link.id)
    requires link.unread + reply.log == text + BytesOfAll(stales)
    ensures Unforged(link, reply)
  {
    hide MatchAt, MakeHeader, NoMagic, StartsWithMagic, BytesOfAll;
    var frame := ResponseFrame(link.id, reply.status, reply.output);
    var junk := BytesOfAll(stales);
    var s := link.unread + (reply.log + frame);
    Regroup4(link.unread, reply.log, text, junk, frame);
    FrameHasMagic(link.id, reply.status, reply.output);
    BytesStart(stales, frame);
    forall j | 0 <= j < |text| + |junk| ensures !MatchAt(s, j, link.id) {
      if j < |text| {
        TextThenFrame(text, junk + frame, j);
        NoMagicNoMatch(s, j, link.id);
      } else {
        StalesHoldNothing(stales, link.id, frame, j - |text|);
        MatchBehind(text, junk + frame, j - |text|, link.id);
      }
    }
  }

  lemma FrameHasMagic(id: u32, status: i32, payload: seq<byte>)
    requires |payload| <= MAX_FRAME_BYTES
    ensures StartsWithMagic(ResponseFrame(id, status, payload))
  {
    hide LeU16, LeU32;
    assert ResponseFrame(id, status, payload)[..4] == RESPONSE_MAGIC;
  }

  /** Requests less than a whole period apart have different identifiers, and what a device answers can be recognised:
      so the responses to earlier requests are stale in this sense, but for their payload and text. */
  lemma EarlierResponsesAreStale<W>(j: nat, k: nat, machine: Machine<W>, program: seq<byte>, state: Wire.Input,
                                    world: W, text: seq<byte>)
    requires j < k < j + 0xffff_ffff
    ensures var reply := RunVmbc(machine, program, state, world);
            NoMagic(reply.output + text) ==> Stale(NthId(j), reply.status, reply.output, text).Sound(NthId(k))
  {
    hide NthId, RunVmbc, NoMagic;
    IdsRepeat(j, k);
    PeriodApart(j, k);
  }

  // ----- sessions

  lemma {:induction false} BytesOfBoth(a: seq<Stale>, b: seq<Stale>)
    ensures BytesOfAll(a + b) == BytesOfAll(a) + BytesOfAll(b)
    decreases |a|
  {
    hide ResponseFrame;
    if a == [] {
      assert a + b == b;
    } else {
      BytesOfBoth(a[1..], b);
      assert (a + b)[1..] == a[1..] + b;
    }
  }

  lemma BytesOfNone()
    ensures BytesOfAll([]) == []
  {
  }

  lemma BytesOfOne(stale: Stale)
    ensures BytesOfAll([stale]) == stale.Bytes()
  {
    hide ResponseFrame;
    assert [stale][1..] == [];
  }

  /** Everything that has come over the line: the text it began with, and the responses since. */
  datatype Past = Past(text: seq<byte>, stales: seq<Stale>) {
    function Bytes(): seq<byte> { text + BytesOfAll(stales) }

    /** What stands behind the last header. */
    function Tail(): seq<byte>
    {
      if stales == [] then text else stales[|stales| - 1].payload + stales[|stales| - 1].text
    }

    /** With more text behind it. */
    function Printed(log: seq<byte>): Past
    {
      if stales == [] then Past(text + log, [])
      else
        var last := stales[|stales| - 1];
        Past(text, stales[..|stales| - 1] + [last.(text := last.text + log)])
    }

    /** With another response behind it. */
    function Answered(id: u32, status: i32, payload: Payload): Past
    {
      Past(text, stales + [Stale(id, status, payload, [])])
    }

    /** Quiet text, and plain responses to requests from the `from`-th up to before the `k`-th. */
    ghost predicate Between(from: nat, k: nat)
    {
      NoMagic(text) && forall i :: 0 <= i < |stales| ==> stales[i].Plain() && Numbered(stales[i].id, from, k)
    }
  }

  ghost predicate Numbered(id: u32, from: nat, k: nat) { exists j :: from <= j < k && id == NthId(j) }

  lemma PrintedBytes(past: Past, log: seq<byte>)
    ensures past.Printed(log).Bytes() == past.Bytes() + log
  {
    hide ResponseFrame, BytesOfAll;
    var stales := past.stales;
    if stales == [] {
      BytesOfNone();
    } else {
      var before, last := stales[..|stales| - 1], stales[|stales| - 1];
      var more := last.(text := last.text + log);
      assert stales == before + [last];
      BytesOfBoth(before, [last]); BytesOfBoth(before, [more]);
      BytesOfOne(last); BytesOfOne(more);
      assert more.Bytes() == last.Bytes() + log;
    }
  }

  lemma PrintedBetween(past: Past, log: seq<byte>, from: nat, k: nat)
    requires past.Between(from, k) && NoMagic(past.Tail() + log)
    ensures past.Printed(log).Between(from, k)
  {
    hide NoMagic, Recognisable, Numbered;
    if past.stales != [] {
      var last := past.stales[|past.stales| - 1];
      assert last.payload + (last.text + log) == past.Tail() + log;
    }
  }

  lemma AnsweredBytes(past: Past, id: u32, status: i32, payload: Payload)
    ensures past.Answered(id, status, payload).Bytes() == past.Bytes() + ResponseFrame(id, status, payload)
  {
    hide ResponseFrame, BytesOfAll;
    var stale := Stale(id, status, payload, []);
    BytesOfBoth(past.stales, [stale]);
    BytesOfOne(stale);
  }

  lemma AnsweredBetween(past: Past, status: i32, payload: Payload, from: nat, k: nat)
    requires past.Between(from, k) && from <= k && Recognisable(status, payload) && NoMagic(payload)
    ensures past.Answered(NthId(k), status, payload).Between(from, k + 1)
    ensures past.Answered(NthId(k), status, payload).Tail() == payload
  {
    hide NoMagic, Recognisable, NthId;
    assert payload + [] == payload;
    assert Numbered(NthId(k), from, k + 1);
    forall i | 0 <= i < |past.stales| ensures Numbered(past.stales[i].id, from, k + 1) {
      assert Numbered(past.stales[i].id, from, k);
    }
  }

  lemma BetweenIsSound(past: Past, from: nat, k: nat)
    requires past.Between(from, k) && k < from + 0xffff_ffff
    ensures AllSound(past.stales, NthId(k))
  {
    hide NoMagic, Recognisable, NthId;
    forall i | 0 <= i < |past.stales| ensures past.stales[i].id != NthId(k) {
      assert Numbered(past.stales[i].id, from, k);
      var j :| from <= j < k && past.stales[i].id == NthId(j);
      IdsRepeat(j, k);
      PeriodApart(j, k);
    }
  }

  /** Losing the beginning of a stream forges nothing. */
  lemma CutIsUnforged<W>(link: Link, whole: seq<byte>, cut: nat, reply: Reply<W>)
    requires |reply.output| <= MAX_FRAME_BYTES && cut <= |whole| && link.unread == whole[cut..]
    requires Unforged(Link(link.id, whole), reply)
    ensures Unforged(link, reply)
  {
    hide MatchAt, ResponseFrame;
    var behind := reply.log + ResponseFrame(link.id, reply.status, reply.output);
    var s := link.unread + behind;
    assert whole + behind == whole[..cut] + s;
    forall j | 0 <= j < |link.unread| + |reply.log| ensures !MatchAt(s, j, link.id) {
      MatchBehind(whole[..cut], s, j, link.id);
      assert !MatchAt(whole + behind, cut + j, link.id);
    }
  }

  /** An answer behind any part of such a past is unforged. */
  lemma PastIsUnforged<W>(link: Link, past: Past, cut: nat, reply: Reply<W>, from: nat, k: nat)
    requires |reply.output| <= MAX_FRAME_BYTES && cut <= |past.Bytes()| && link.unread == past.Bytes()[cut..]
    requires link.id == NthId(k) && from <= k < from + 0xffff_ffff
    requires past.Between(from, k) && NoMagic(past.Tail() + reply.log)
    ensures Unforged(link, reply)
  {
    hide Unforged, NthId, NoMagic, BytesOfAll;
    var printed := past.Printed(reply.log);
    PrintedBytes(past, reply.log);
    PrintedBetween(past, reply.log, from, k);
    BetweenIsSound(printed, from, k);
    StaleIsUnforged(Link(link.id, past.Bytes()), reply, printed.text, printed.stales);
    CutIsUnforged(link, past.Bytes(), cut, reply);
  }

  /** Nothing that the device prints or sends as a payload holds the magic, not even across the seam between a payload
      and the text behind it; `tail` is what the session finds behind the last header. */
  ghost predicate QuietSession<W>(setup: Setup<W>, link: Link, locals: Locals, sources: seq<string>, world: W,
                                  tail: seq<byte>)
    decreases |sources|
  {
    sources != [] ==>
      var plan := MakePlan(setup.tools, sources[0], locals);
      var first := RemoteEval(setup, link, locals, sources[0], world);
      if plan.Ok? && FitsOut(plan.value) then
        var reply := ReplyTo(setup, plan.value, world);
        NoMagic(tail + reply.log) && NoMagic(reply.output) &&
        QuietSession(setup, first.link, first.evaluated.locals, sources[1..], first.world, reply.output)
      else
        QuietSession(setup, first.link, first.evaluated.locals, sources[1..], first.world, tail)
  }

  /** The line after an evaluation: what came behind what was there, without the bytes the client took. */
  lemma LinkAfter<W>(setup: Setup<W>, link: Link, locals: Locals, source: string, world: W) returns (taken: nat)
    requires setup.Valid()
    ensures var plan := MakePlan(setup.tools, source, locals);
            var after := RemoteEval(setup, link, locals, source, world).link;
            if plan.Ok? && FitsOut(plan.value) then
              var reply := ReplyTo(setup, plan.value, world);
              var stream := link.unread + (reply.log + ResponseFrame(link.id, reply.status, reply.output));
              taken <= |stream| && after == Link(NextId(link.id), stream[taken..])
            else taken == 0 && after == link
  {
    hide MakePlan, RunVmbc, Receive, ResponseFrame, NextId, Conclude;
    var plan := MakePlan(setup.tools, source, locals);
    if plan.Ok? && FitsOut(plan.value) {
      DeviceAnswers(setup, link, plan.value, locals, world);
      var reply := ReplyTo(setup, plan.value, world);
      var stream := link.unread + (reply.log + ResponseFrame(link.id, reply.status, reply.output));
      ReceptionBounds(stream, link.id);
      return Receive(stream, link.id).taken;
    }
    return 0;
  }

  lemma PastAfter<W>(link: Link, past: Past, reply: Reply<W>, from: nat, k: nat, cut: nat, taken: nat)
    returns (after: Past)
    requires |reply.output| <= MAX_FRAME_BYTES && Recognisable(reply.status, reply.output)
    requires past.Between(from, k) && from <= k && NoMagic(past.Tail() + reply.log) && NoMagic(reply.output)
    requires cut <= |past.Bytes()| && link.unread == past.Bytes()[cut..]
    requires taken <= |link.unread + (reply.log + ResponseFrame(NthId(k), reply.status, reply.output))|
    ensures after.Between(from, k + 1) && after.Tail() == reply.output && cut + taken <= |after.Bytes()|
    ensures (link.unread + (reply.log + ResponseFrame(NthId(k), reply.status, reply.output)))[taken..]
         == after.Bytes()[cut + taken..]
  {
    hide NthId, NoMagic, BytesOfAll, ResponseFrame, Recognisable;
    var printed := past.Printed(reply.log);
    PrintedBytes(past, reply.log);
    PrintedBetween(past, reply.log, from, k);
    after := printed.Answered(NthId(k), reply.status, reply.output);
    AnsweredBytes(printed, NthId(k), reply.status, reply.output);
    AnsweredBetween(printed, reply.status, reply.output, from, k);
    CutBehind(past.Bytes(), reply.log, ResponseFrame(NthId(k), reply.status, reply.output), cut, taken);
  }

  lemma CutBehind(a: seq<byte>, b: seq<byte>, c: seq<byte>, cut: nat, taken: nat)
    requires cut <= |a| && cut + taken <= |a + b + c|
    ensures (a[cut..] + (b + c))[taken..] == (a + b + c)[cut + taken..]
  {
    assert a[cut..] + (b + c) == (a + b + c)[cut..];
  }

  lemma NextNumber(k: nat)
    ensures NthId(k + 1) == NextId(NthId(k))
  {
  }

  /** A request that is sent, behind part of a quiet past: its answer is unforged, and the past grows by it. */
  lemma RequestSent<W>(setup: Setup<W>, link: Link, locals: Locals, source: string, world: W, plan: Plan,
                       from: nat, k: nat, past: Past, cut: nat)
    returns (past': Past, cut': nat)
    requires setup.Valid() && MakePlan(setup.tools, source, locals) == Ok(plan) && FitsOut(plan)
    requires link.id == NthId(k) && cut <= |past.Bytes()| && link.unread == past.Bytes()[cut..]
    requires from <= k < from + 0xffff_ffff && past.Between(from, k)
    requires var reply := ReplyTo(setup, plan, world);
             NoMagic(past.Tail() + reply.log) && NoMagic(reply.output)
    ensures Unforged(link, ReplyTo(setup, plan, world))
    ensures past'.Between(from, k + 1) && past'.Tail() == ReplyTo(setup, plan, world).output && cut' <= |past'.Bytes()|
    ensures RemoteEval(setup, link, locals, source, world).link == Link(NthId(k + 1), past'.Bytes()[cut'..])
  {
    hide MakePlan, RemoteEval, Unforged, FitsOut, ReplyTo, NthId, NextId, NoMagic, ResponseFrame, Recognisable,
      BytesOfAll;
    var reply := ReplyTo(setup, plan, world);
    var taken := LinkAfter(setup, link, locals, source, world);
    PastIsUnforged(link, past, cut, reply, from, k);
    NextNumber(k);
    past' := PastAfter(link, past, reply, from, k, cut, taken);
    cut' := cut + taken;
  }

  /** A quiet session forges nothing, whatever was cut off and left behind by evaluations that gave up. */
  lemma {:induction false} QuietIsUnforgedThroughout<W>(
    setup: Setup<W>, link: Link, locals: Locals, sources: seq<string>, world: W,
    from: nat, k: nat, past: Past, cut: nat)
    requires setup.Valid() && from <= k && k + |sources| <= from + 0xffff_ffff
    requires link.id == NthId(k) && cut <= |past.Bytes()| && link.unread == past.Bytes()[cut..]
    requires past.Between(from, k) && QuietSession(setup, link, locals, sources, world, past.Tail())
    ensures SessionUnforged(setup, link, locals, sources, world)
    decreases |sources|
  {
    hide MakePlan, RemoteEval, Unforged, FitsOut, ReplyTo, NthId, NoMagic, BytesOfAll, Past.Between, Past.Tail,
      Past.Bytes;
    if sources != [] {
      var plan := MakePlan(setup.tools, sources[0], locals);
      var first := RemoteEval(setup, link, locals, sources[0], world);
      var past', cut', k' := past, cut, k;
      if plan.Ok? && FitsOut(plan.value) {
        past', cut' := RequestSent(setup, link, locals, sources[0], world, plan.value, from, k, past, cut);
        k' := k + 1;
      } else {
        var _ := LinkAfter(setup, link, locals, sources[0], world);
      }
      QuietIsUnforgedThroughout(setup, first.link, first.evaluated.locals, sources[1..], first.world, from, k', past',
                                cut');
    }
  }

  /** A session of fewer than 2^32 snippets in which the device neither prints nor sends the magic: whatever is too
      large, too deep or too long for the line, every snippet comes out as it would locally, or fails and saves
      nothing. */
  lemma QuietSessionNeverWrong<W>(setup: Setup<W>, k: nat, locals: Locals, sources: seq<string>, world: W,
                                  text: seq<byte>)
    returns (fates: seq<Fate>)
    requires setup.Valid() && |sources| < U32_SIZE && NoMagic(text)
    requires QuietSession(setup, Link(NthId(k), text), locals, sources, world, text)
    ensures |fates| == |sources|
    ensures RemoteSession(setup, Link(NthId(k), text), locals, sources, world).0
         == FatedSession(setup.tools, setup.machine, locals, sources, fates, world)
  {
    hide RemoteSession, FatedSession, SessionUnforged, QuietSession, NthId, NoMagic;
    var past := Past(text, []);
    assert past.Bytes() == text && text[0..] == text;
    QuietIsUnforgedThroughout(setup, Link(NthId(k), text), locals, sources, world, k, k, past, 0);
    fates := SessionNeverWrong(setup, Link(NthId(k), text), locals, sources, world);
  }
}
