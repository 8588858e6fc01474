/** The binary frames on the serial line, and the search for a response among other bytes. */
module Frames {
  import opened Bytes
  import opened Results
  import Crc
  import Damage

  const REQUEST_MAGIC: seq<byte> := [0x52, 0x53, 0x53, 0x51]   // RSSQ
  const RESPONSE_MAGIC: seq<byte> := [0x52, 0x53, 0x53, 0x50]  // RSSP
  const FRAME_VERSION: u16 := 1
  const FRAME_HEADER_LEN: nat := 24
  const MAX_FRAME_BYTES: nat := 128 * 1024
  const MAX_PRELUDE: nat := 64 * 1024

  type Header = h: seq<byte> | |h| == 24 witness seq(24, _ => 0)

  /** The layout requests and responses share: magic, version, two zero bytes and four words. */
  function MakeHeader(magic: seq<byte>, a: u32, b: u32, c: u32, d: u32): Header
    requires |magic| == 4
  {
    magic + LeU16(FRAME_VERSION) + [0, 0] + LeU32(a) + LeU32(b) + LeU32(c) + LeU32(d)
  }

  function Magic(h: Header): seq<byte> { h[..4] }
  function Version(h: Header): u16 { ReadU16(h[4..6]) }
  function RequestId(h: Header): u32 { ReadU32(h[8..12]) }
  /** Program length of a request, status of a response. */
  function Word1(h: Header): u32 { ReadU32(h[12..16]) }
  /** State length of a request, payload length of a response. */
  function Word2(h: Header): u32 { ReadU32(h[16..20]) }
  function ExpectedCrc(h: Header): u32 { ReadU32(h[20..24]) }

  lemma HeaderFields(magic: seq<byte>, a: u32, b: u32, c: u32, d: u32)
    requires |magic| == 4
    ensures var h := MakeHeader(magic, a, b, c, d);
            Magic(h) == magic && Version(h) == FRAME_VERSION && h[6..8] == [0, 0] &&
            RequestId(h) == a && Word1(h) == b && Word2(h) == c && ExpectedCrc(h) == d
  {
    hide LeU16, LeU32, ReadU16, ReadU32;
    var h := MakeHeader(magic, a, b, c, d);
    assert h[4..6] == LeU16(FRAME_VERSION);
    assert h[8..12] == LeU32(a) && h[12..16] == LeU32(b) && h[16..20] == LeU32(c) && h[20..24] == LeU32(d);
    U16RoundTrip(FRAME_VERSION);
    U32RoundTrip(a); U32RoundTrip(b); U32RoundTrip(c); U32RoundTrip(d);
  }

  function RequestFrame(id: u32, program: seq<byte>, state: seq<byte>): seq<byte>
    requires |program| < U32_SIZE && |state| < U32_SIZE
  {
    MakeHeader(REQUEST_MAGIC, id, |program|, |state|, Crc.RequestChecksum(program, state)) + program + state
  }

  function ResponseFrame(id: u32, status: i32, payload: seq<byte>): seq<byte>
    requires |payload| < U32_SIZE
  {
    RawResponse(id, status, Crc.Checksum(payload), payload)
  }

  /** A request byte by byte. */
  lemma RequestLayout(id: u32, program: seq<byte>, state: seq<byte>)
    requires |program| < U32_SIZE && |state| < U32_SIZE
    ensures var f := RequestFrame(id, program, state);
            |f| == 24 + |program| + |state| && f[..8] == [0x52, 0x53, 0x53, 0x51, 1, 0, 0, 0] &&
            ReadU32(f[8..12]) == id && ReadU32(f[12..16]) == |program| && ReadU32(f[16..20]) == |state| &&
            ReadU32(f[20..24]) == Crc.RequestChecksum(program, state) &&
            f[24..24 + |program|] == program && f[24 + |program|..] == state
  {
    hide Crc.RequestChecksum, ReadU32, MakeHeader;
    var sum := Crc.RequestChecksum(program, state);
    FieldLayout(REQUEST_MAGIC, id, |program|, |state|, sum, program + state);
    var h := MakeHeader(REQUEST_MAGIC, id, |program|, |state|, sum);
    assert h + (program + state) == RequestFrame(id, program, state);
    TwoParts(h, program, state);
  }

  lemma TwoParts(h: Header, a: seq<byte>, b: seq<byte>)
    ensures (h + (a + b))[24..24 + |a|] == a && (h + (a + b))[24 + |a|..] == b
  {
  }

  /** A response byte by byte. */
  lemma ResponseLayout(id: u32, status: i32, payload: seq<byte>)
    requires |payload| < U32_SIZE
    ensures var f := ResponseFrame(id, status, payload);
            |f| == 24 + |payload| && f[..8] == [0x52, 0x53, 0x53, 0x50, 1, 0, 0, 0] &&
            ReadU32(f[8..12]) == id && (ReadU32(f[12..16]) - status) % U32_SIZE == 0 &&
            ReadU32(f[16..20]) == |payload| && ReadU32(f[20..24]) == Crc.Checksum(payload) && f[24..] == payload
  {
    hide Crc.Checksum, ReadU32, MakeHeader;
    FieldLayout(RESPONSE_MAGIC, id, I32Bits(status), |payload|, Crc.Checksum(payload), payload);
  }

  lemma FieldLayout(magic: seq<byte>, a: u32, b: u32, c: u32, d: u32, rest: seq<byte>)
    requires |magic| == 4
    ensures var f := MakeHeader(magic, a, b, c, d) + rest;
            f[..8] == magic + [1, 0, 0, 0] && ReadU32(f[8..12]) == a && ReadU32(f[12..16]) == b &&
            ReadU32(f[16..20]) == c && ReadU32(f[20..24]) == d && f[24..] == rest
  {
    hide LeU16, LeU32, ReadU32;
    var f := MakeHeader(magic, a, b, c, d) + rest;
    VersionLayout();
    assert f[8..12] == LeU32(a) && f[12..16] == LeU32(b) && f[16..20] == LeU32(c) && f[20..24] == LeU32(d);
    U32RoundTrip(a); U32RoundTrip(b); U32RoundTrip(c); U32RoundTrip(d);
  }

  lemma VersionLayout()
    ensures LeU16(FRAME_VERSION) == [1, 0]
  {
    assert Le(1, 2) == [1] + Le(0, 1);
    assert Le(0, 1) == [0] + Le(0, 0);
  }

  /** A response whose checksum may be that of another payload. */
  function RawResponse(id: u32, status: i32, crc: u32, payload: seq<byte>): seq<byte>
    requires |payload| < U32_SIZE
  {
    MakeHeader(RESPONSE_MAGIC, id, I32Bits(status), |payload|, crc) + payload
  }

  /** The session numbers its requests from one and skips zero when the counter wraps. */
  function NextId(id: u32): (next: u32)
    ensures next != 0
  {
    if id + 1 < U32_SIZE then id + 1 else 1
  }

  /** The identifier of the `k`-th request. */
  function NthId(k: nat): u32 { if k == 0 then 1 else NextId(NthId(k - 1)) }

  lemma ModuloStep(k: nat)
    ensures (k + 1) % 0xffff_ffff == if k % 0xffff_ffff == 0xffff_fffe then 0 else k % 0xffff_ffff + 1
  {
  }

  lemma {:induction false} NthIdIs(k: nat)
    ensures NthId(k) == 1 + k % 0xffff_ffff
  {
    if k > 0 {
      NthIdIs(k - 1);
      ModuloStep(k - 1);
    }
  }

  /** Identifiers are never zero, and two requests share one only a whole period apart. */
  lemma IdsRepeat(j: nat, k: nat)
    ensures NthId(k) != 0
    ensures NthId(j) == NthId(k) <==> j % 0xffff_ffff == k % 0xffff_ffff
  {
    NthIdIs(j); NthIdIs(k);
  }

  // ----- the naive search

  predicate MagicAt(s: seq<byte>, i: nat) { i + 4 <= |s| && s[i..i + 4] == RESPONSE_MAGIC }

  predicate Accepts(h: Header, id: u32) { Version(h) == FRAME_VERSION && RequestId(h) == id }

  /** A response header for request `id` stands at `i`. */
  predicate MatchAt(s: seq<byte>, i: nat, id: u32)
  {
    i + FRAME_HEADER_LEN <= |s| && MagicAt(s, i) && Accepts(s[i..i + FRAME_HEADER_LEN], id)
  }

  /** A match, byte by byte: "RSSP", version 1 and the identifier. */
  lemma MatchIff(s: seq<byte>, i: nat, id: u32)
    ensures MatchAt(s, i, id) <==>
              i + 24 <= |s| && s[i..i + 4] == [0x52, 0x53, 0x53, 0x50] && s[i + 4..i + 6] == [1, 0] &&
              s[i + 8..i + 12] == LeU32(id)
  {
    hide LeU32, ReadU32, ReadU16;
    if i + 24 <= |s| {
      var h := s[i..i + 24];
      InnerSlice(s, i, 24, 4, 6);
      InnerSlice(s, i, 24, 8, 12);
      U32Canonical(h[8..12]);
      U32RoundTrip(id);
      VersionIff(h[4..6]);
    }
  }

  lemma InnerSlice(s: seq<byte>, i: nat, n: nat, a: nat, b: nat)
    requires i + n <= |s| && a <= b <= n
    ensures s[i..i + n][a..b] == s[i + a..i + b]
  {
    var inner := s[i..i + n];
    forall k | 0 <= k < b - a ensures inner[a..b][k] == s[i + a..i + b][k] {
    }
  }

  lemma VersionIff(v: seq<byte>)
    requires |v| == 2
    ensures ReadU16(v) == FRAME_VERSION <==> v == [1, 0]
  {
    assert v == [v[0], v[1]] && v[1..] == [v[1]] && v[1..][1..] == [];
    assert FromLe(v[1..]) == v[1] + 256 * FromLe(v[1..][1..]);
    assert FromLe(v) == v[0] + 256 * FromLe(v[1..]);
  }

  datatype Search =
    | Found(at: nat)
    | TooLong(at: nat, taken: nat)
    | Exhausted(at: nat)

  /** The search from position `i`, when `taken` bytes have left the serial port so far. */
  function Scan(s: seq<byte>, id: u32, i: nat, taken: nat): Search
    decreases if i <= |s| then |s| - i else 0
  {
    if i + 4 > |s| then Exhausted(i)
    else if !MagicAt(s, i) then
      if i >= MAX_PRELUDE then TooLong(i, if taken < i + 4 then i + 4 else taken)
      else Scan(s, id, i + 1, if taken < i + 4 then i + 4 else taken)
    else if i + FRAME_HEADER_LEN > |s| then Exhausted(i)
    else if !MatchAt(s, i, id) then Scan(s, id, i + 1, i + FRAME_HEADER_LEN)
    else Found(i)
  }

  datatype IoError =
    | InvalidInput
    | WriteFailed
    | UnexpectedEof
    | PreludeTooLong
    | ResponseTooLarge
    | CrcMismatch

  datatype Response = Response(status: i32, payload: seq<byte>)

  /** What a call returns, what it leaves as device output and how many bytes it takes from the port. */
  datatype Reception = Reception(result: Result<Response, IoError>, deviceOutput: seq<byte>, taken: nat)

  function Receive(s: seq<byte>, id: u32): Reception
  {
    match Scan(s, id, 0, 0)
    case TooLong(i, taken) => Reception(Err(PreludeTooLong), Prefix(s, i), taken)
    case Exhausted(i) => Reception(Err(UnexpectedEof), Prefix(s, i), |s|)
    case Found(i) => ReceivePayload(s, i)
  }

  function Prefix(s: seq<byte>, i: nat): seq<byte> { if i <= |s| then s[..i] else s }

  /** Everything after the header at `i` is decided by that header alone. */
  function ReceivePayload(s: seq<byte>, i: nat): Reception
  {
    if i + FRAME_HEADER_LEN > |s| then Reception(Err(UnexpectedEof), Prefix(s, i), |s|)
    else
      var h := s[i..i + FRAME_HEADER_LEN];
      var start, end := i + FRAME_HEADER_LEN, i + FRAME_HEADER_LEN + Word2(h);
      if Word2(h) > MAX_FRAME_BYTES then Reception(Err(ResponseTooLarge), s[..i], start)
      else if end > |s| then Reception(Err(UnexpectedEof), s[..i], |s|)
      else if Crc.Checksum(s[start..end]) != ExpectedCrc(h) then Reception(Err(CrcMismatch), s[..i], end)
      else Reception(Ok(Response(I32FromBits(Word1(h)), s[start..end])), s[..i], end)
  }

  // ----- the search finds the first matching header

  /** The magic has no border: an occurrence leaves no room for another within the next three positions. */
  lemma NoBorder(s: seq<byte>, i: nat, j: nat)
    requires MagicAt(s, i) && i < j < i + 4
    ensures !MagicAt(s, j)
  {
    assert s[j] == s[i..i + 4][j - i];
    if MagicAt(s, j) { MagicStarts(s, j); }
  }

  lemma MagicStarts(s: seq<byte>, i: nat)
    requires MagicAt(s, i)
    ensures s[i] == 0x52
  {
    assert s[i] == s[i..i + 4][0];
  }

  predicate FirstMatch(s: seq<byte>, i: nat, id: u32)
  {
    MatchAt(s, i, id) && forall j :: 0 <= j < i ==> !MatchAt(s, j, id)
  }

  /** Every magic before `i` is followed by a whole header. */
  predicate HeadersComplete(s: seq<byte>, i: nat)
  {
    forall j :: 0 <= j < i && MagicAt(s, j) ==> j + FRAME_HEADER_LEN <= |s|
  }

  predicate NoMatchBefore(s: seq<byte>, i: nat, id: u32) { forall j :: 0 <= j < i ==> !MatchAt(s, j, id) }

  lemma {:induction false} ScanSound(s: seq<byte>, id: u32, i: nat, taken: nat)
    requires i <= MAX_PRELUDE + 1 && (i == MAX_PRELUDE + 1 ==> MagicAt(s, i - 1))
    requires NoMatchBefore(s, i, id) && HeadersComplete(s, i)
    requires taken <= |s| && taken <= i + 23
    ensures match Scan(s, id, i, taken)
            case Found(at) => i <= at <= MAX_PRELUDE && FirstMatch(s, at, id)
            case TooLong(at, t) =>
              MAX_PRELUDE <= at <= MAX_PRELUDE + 1 && at + 4 <= t <= at + 23 && t <= |s| && !MagicAt(s, at) &&
              (at == MAX_PRELUDE + 1 ==> MagicAt(s, MAX_PRELUDE)) &&
              NoMatchBefore(s, at + 1, id) && HeadersComplete(s, at + 1)
            case Exhausted(at) =>
              at <= MAX_PRELUDE + 1 && HeadersComplete(s, at) && (i <= |s| ==> at <= |s|) &&
              (at == MAX_PRELUDE + 1 ==> MagicAt(s, MAX_PRELUDE)) &&
              |s| < (if MagicAt(s, at) then at + FRAME_HEADER_LEN else at + 4) &&
              forall j :: 0 <= j ==> !MatchAt(s, j, id)
    decreases if i <= |s| then |s| - i else 0
  {
    hide Accepts, MagicAt;
    if i == MAX_PRELUDE + 1 { NoBorder(s, i - 1, i); }
    if i + 4 <= |s| && !MagicAt(s, i) && i < MAX_PRELUDE {
      ScanSound(s, id, i + 1, if taken < i + 4 then i + 4 else taken);
    } else if MagicAt(s, i) && i + FRAME_HEADER_LEN <= |s| && !MatchAt(s, i, id) {
      ScanSound(s, id, i + 1, i + FRAME_HEADER_LEN);
    }
  }

  /** The search stops at `i` exactly when the first matching header stands there and the prelude is short enough. */
  lemma ScanFindsFirst(s: seq<byte>, id: u32, i: nat)
    ensures Scan(s, id, 0, 0) == Found(i) <==> FirstMatch(s, i, id) && i <= MAX_PRELUDE
  {
    ScanSound(s, id, 0, 0);
    assert FirstMatch(s, i, id) ==> MatchAt(s, i, id);
  }

  /** It gives up on the prelude exactly when 65540 bytes hold no matching header and no header cut short. */
  lemma ScanGivesUp(s: seq<byte>, id: u32)
    ensures Scan(s, id, 0, 0).TooLong?
       <==> |s| >= MAX_PRELUDE + 4 && NoMatchBefore(s, MAX_PRELUDE + 1, id) && HeadersComplete(s, MAX_PRELUDE + 1)
  {
    ScanSound(s, id, 0, 0);
    if Scan(s, id, 0, 0).Exhausted? && MagicAt(s, MAX_PRELUDE) && MAX_PRELUDE + 5 <= |s| {
      NoBorder(s, MAX_PRELUDE, MAX_PRELUDE + 1);
    }
  }

  /** Whatever arrives, the output is a prefix of the stream of at most 65537 bytes, and no byte is taken twice. */
  lemma ReceptionBounds(s: seq<byte>, id: u32)
    ensures var r := Receive(s, id);
            |r.deviceOutput| <= MAX_PRELUDE + 1 && r.deviceOutput <= s &&
            |r.deviceOutput| <= r.taken <= |s| &&
            (r.result.Ok? ==>
               r.taken == |r.deviceOutput| + FRAME_HEADER_LEN + |r.result.value.payload| &&
               |r.result.value.payload| <= MAX_FRAME_BYTES)
  {
    ScanSound(s, id, 0, 0);
  }

  /** The output passes the limit of 65536 bytes exactly when the magic stands at the limit with a whole header behind
      it, and no header up to there matches. It is then one byte over, and the call fails. */
  lemma OutputBeyondLimit(s: seq<byte>, id: u32)
    ensures |Receive(s, id).deviceOutput| > 65536
       <==> 65536 + 24 <= |s| && MagicAt(s, 65536) && NoMatchBefore(s, 65537, id)
    ensures |Receive(s, id).deviceOutput| > 65536 ==>
              Receive(s, id).result == Err(PreludeTooLong) && |Receive(s, id).deviceOutput| == 65537
  {
    hide MatchAt, MagicAt;
    ScanSound(s, id, 0, 0);
    if Scan(s, id, 0, 0).Exhausted? && MAX_PRELUDE + FRAME_HEADER_LEN <= |s| && MagicAt(s, MAX_PRELUDE) {
      NoBorder(s, MAX_PRELUDE, MAX_PRELUDE + 1);
    }
  }

  // ----- the bytes taken decide

  /** Two streams that begin with the same `n` bytes. */
  predicate Agree(s: seq<byte>, u: seq<byte>, n: nat) { n <= |s| && n <= |u| && s[..n] == u[..n] }

  lemma AgreeInside(s: seq<byte>, u: seq<byte>, n: nat, i: nat, k: nat)
    requires Agree(s, u, n) && i + k <= n
    ensures s[i..i + k] == u[i..i + k]
  {
    assert s[..n][i..i + k] == s[i..i + k] && u[..n][i..i + k] == u[i..i + k];
  }

  /** How far a search has looked when it stops before the end of the stream. */
  function Looked(r: Search): nat
  {
    match r
    case Found(at) => at + FRAME_HEADER_LEN
    case TooLong(_, taken) => taken
    case Exhausted(at) => at
  }

  lemma {:induction false} LooksAhead(s: seq<byte>, id: u32, i: nat, taken: nat)
    requires taken <= i + 23
    ensures var r := Scan(s, id, i, taken);
            !r.Exhausted? ==> i + 4 <= Looked(r) && (r.TooLong? ==> taken <= Looked(r)) && (r.Found? ==> i <= r.at)
    decreases if i <= |s| then |s| - i else 0
  {
    hide Accepts, MagicAt;
    if i + 4 <= |s| {
      if !MagicAt(s, i) {
        if i < MAX_PRELUDE { LooksAhead(s, id, i + 1, if taken < i + 4 then i + 4 else taken); }
      } else if i + FRAME_HEADER_LEN <= |s| && !MatchAt(s, i, id) {
        LooksAhead(s, id, i + 1, i + FRAME_HEADER_LEN);
      }
    }
  }

  lemma SameMagic(s: seq<byte>, u: seq<byte>, n: nat, i: nat)
    requires Agree(s, u, n) && i + 4 <= n
    ensures MagicAt(s, i) == MagicAt(u, i)
  {
    AgreeInside(s, u, n, i, 4);
  }

  lemma SameMatch(s: seq<byte>, u: seq<byte>, n: nat, i: nat, id: u32)
    requires Agree(s, u, n) && i + FRAME_HEADER_LEN <= n
    ensures MatchAt(s, i, id) == MatchAt(u, i, id)
  {
    hide Accepts;
    SameMagic(s, u, n, i);
    AgreeInside(s, u, n, i, FRAME_HEADER_LEN);
  }

  lemma {:induction false} ScanDecided(s: seq<byte>, u: seq<byte>, n: nat, id: u32, i: nat, taken: nat)
    requires taken <= i + 23
    requires !Scan(s, id, i, taken).Exhausted? && Agree(s, u, n) && Looked(Scan(s, id, i, taken)) <= n
    ensures Scan(u, id, i, taken) == Scan(s, id, i, taken)
    decreases if i <= |s| then |s| - i else 0
  {
    hide MatchAt, MagicAt, Looked;
    assert n <= |u|;
    hide Agree;
    LooksAhead(s, id, i, taken);
    SameMagic(s, u, n, i);
    if !MagicAt(s, i) {
      if i < MAX_PRELUDE { ScanDecided(s, u, n, id, i + 1, if taken < i + 4 then i + 4 else taken); }
    } else {
      HeaderLooked(s, id, i, taken);
      SameMatch(s, u, n, i, id);
      if !MatchAt(s, i, id) { ScanDecided(s, u, n, id, i + 1, i + FRAME_HEADER_LEN); }
    }
  }

  lemma HeaderLooked(s: seq<byte>, id: u32, i: nat, taken: nat)
    requires MagicAt(s, i) && !Scan(s, id, i, taken).Exhausted? && taken <= i + 23
    ensures i + FRAME_HEADER_LEN <= |s| && i + FRAME_HEADER_LEN <= Looked(Scan(s, id, i, taken))
  {
    hide Accepts, MagicAt;
    if !MatchAt(s, i, id) { LooksAhead(s, id, i + 1, i + FRAME_HEADER_LEN); }
  }

  lemma PayloadDecided(s: seq<byte>, u: seq<byte>, i: nat)
    requires ReceivePayload(s, i).result != Err(UnexpectedEof) && Agree(s, u, ReceivePayload(s, i).taken)
    ensures ReceivePayload(u, i) == ReceivePayload(s, i)
  {
    hide Crc.Checksum, Word1, Word2, ExpectedCrc;
    var n := ReceivePayload(s, i).taken;
    AgreeInside(s, u, n, 0, i);
    AgreeInside(s, u, n, i, FRAME_HEADER_LEN);
    var h := s[i..i + FRAME_HEADER_LEN];
    if Word2(h) <= MAX_FRAME_BYTES { AgreeInside(s, u, n, i + FRAME_HEADER_LEN, Word2(h)); }
  }

  /** A call that does not run into the end of the stream depends on the bytes it takes and on nothing behind them;
      so it is no matter that a stream is finite. */
  lemma TakenBytesDecide(s: seq<byte>, u: seq<byte>, id: u32)
    requires Receive(s, id).result != Err(UnexpectedEof) && Agree(s, u, Receive(s, id).taken)
    ensures Receive(u, id) == Receive(s, id)
  {
    hide ReceivePayload, Scan;
    var n := Receive(s, id).taken;
    ScanSound(s, id, 0, 0);
    match Scan(s, id, 0, 0)
    case TooLong(at, taken) =>
      ScanDecided(s, u, n, id, 0, 0);
      AgreeInside(s, u, n, 0, at);
    case Exhausted(_) =>
    case Found(at) =>
      HeaderTaken(s, at);
      ScanDecided(s, u, n, id, 0, 0);
      PayloadDecided(s, u, at);
  }

  lemma HeaderTaken(s: seq<byte>, i: nat)
    requires ReceivePayload(s, i).result != Err(UnexpectedEof)
    ensures i + FRAME_HEADER_LEN <= ReceivePayload(s, i).taken
  {
  }

  /** A stream that takes the device output to that length: zeros up to the limit, then the magic with a header that
      does not match. */
  function LongestPrelude(): (s: seq<byte>)
    ensures |s| == MAX_PRELUDE + FRAME_HEADER_LEN
  {
    Quiet(MAX_PRELUDE) + RESPONSE_MAGIC + Quiet(FRAME_HEADER_LEN - 4)
  }

  function Quiet(n: nat): (s: seq<byte>)
    ensures |s| == n && forall i :: 0 <= i < n ==> s[i] == 0
  {
    seq(n, _ => 0)
  }

  lemma {:induction false} ScanZeros(s: seq<byte>, id: u32, i: nat, taken: nat)
    requires i <= MAX_PRELUDE <= |s| - 4 && (forall j :: 0 <= j < MAX_PRELUDE ==> s[j] == 0) && taken <= i + 4
    ensures Scan(s, id, i, taken) == Scan(s, id, MAX_PRELUDE, MAX_PRELUDE + 4)
    decreases MAX_PRELUDE - i
  {
    ScanFrom(s, id, i, taken);
    if i < MAX_PRELUDE {
      if MagicAt(s, i) { MagicStarts(s, i); }
      ScanZeros(s, id, i + 1, i + 4);
    }
  }

  lemma ScanFrom(s: seq<byte>, id: u32, i: nat, taken: nat)
    requires i + 4 <= |s| && taken <= i + 4
    ensures Scan(s, id, i, taken) == Scan(s, id, i, i + 4)
  {
  }

  lemma MagicStands(before: seq<byte>, after: seq<byte>)
    ensures MagicAt(before + RESPONSE_MAGIC + after, |before|)
  {
    assert (before + RESPONSE_MAGIC + after)[|before|..|before| + 4] == RESPONSE_MAGIC;
  }

  lemma LongestOutput(id: u32)
    ensures var r := Receive(LongestPrelude(), id);
            r.result == Err(PreludeTooLong) && |r.deviceOutput| == MAX_PRELUDE + 1
  {
    hide Accepts, MagicAt;
    var s := LongestPrelude();
    MagicStands(Quiet(MAX_PRELUDE), Quiet(FRAME_HEADER_LEN - 4));
    ScanZeros(s, id, 0, 0);
    assert !MatchAt(s, MAX_PRELUDE, id) by { ZeroVersion(s[MAX_PRELUDE..MAX_PRELUDE + FRAME_HEADER_LEN], id); }
    NoBorder(s, MAX_PRELUDE, MAX_PRELUDE + 1);
    assert Scan(s, id, MAX_PRELUDE, MAX_PRELUDE + 4) == Scan(s, id, MAX_PRELUDE + 1, MAX_PRELUDE + FRAME_HEADER_LEN);
  }

  lemma ZeroVersion(h: Header, id: u32)
    requires h[4] == 0 && h[5] == 0
    ensures !Accepts(h, id)
  {
    var v := h[4..6];
    assert v == [0, 0] && v[1..] == [0] && v[1..][1..] == [];
    assert FromLe(v) == v[0] + 256 * FromLe(v[1..]);
  }

  /** The first matching header decides the outcome, whatever fake or stale headers come before it. */
  lemma FirstMatchDecides(s: seq<byte>, id: u32, i: nat)
    requires FirstMatch(s, i, id) && i <= MAX_PRELUDE
    ensures Receive(s, id) == ReceivePayload(s, i)
  {
    ScanFindsFirst(s, id, i);
  }

  // ----- the frames that the device sends

  /** The first matching header decides by its length and what follows: a length beyond the limit is refused with
      nothing more read, a payload that does not arrive whole ends the stream, and otherwise the checksum decides. */
  lemma HeaderDecides(log: seq<byte>, id: u32, status: i32, length: u32, crc: u32, rest: seq<byte>)
    requires |log| <= MAX_PRELUDE
    requires NoMatchBefore(log + MakeHeader(RESPONSE_MAGIC, id, I32Bits(status), length, crc) + rest, |log|, id)
    ensures var s := log + MakeHeader(RESPONSE_MAGIC, id, I32Bits(status), length, crc) + rest;
            Receive(s, id)
            == if length > 131072 then Reception(Err(ResponseTooLarge), log, |log| + 24)
               else if length > |rest| then Reception(Err(UnexpectedEof), log, |s|)
               else if Crc.Checksum(rest[..length]) != crc then Reception(Err(CrcMismatch), log, |log| + 24 + length)
               else Reception(Ok(Response(status, rest[..length])), log, |log| + 24 + length)
  {
    hide MakeHeader, Scan, NoMatchBefore, MatchAt, RequestId, Word1, Word2, ExpectedCrc, Version, Crc.Checksum;
    var h := MakeHeader(RESPONSE_MAGIC, id, I32Bits(status), length, crc);
    var s := log + h + rest;
    HeaderFields(RESPONSE_MAGIC, id, I32Bits(status), length, crc);
    HeaderInStream(log, h, rest, id);
    FirstMatchFrom(s, |log|, id);
    FirstMatchDecides(s, id, |log|);
    assert s[..|log|] == log;
    if length <= |rest| { assert s[|log| + 24..|log| + 24 + length] == rest[..length]; }
  }

  lemma HeaderInStream(log: seq<byte>, h: Header, rest: seq<byte>, id: u32)
    requires Magic(h) == RESPONSE_MAGIC && Accepts(h, id)
    ensures MatchAt(log + h + rest, |log|, id) && (log + h + rest)[|log|..|log| + FRAME_HEADER_LEN] == h
  {
    var s := log + h + rest;
    assert s[|log|..|log| + FRAME_HEADER_LEN] == h;
    assert s[|log|..|log| + 4] == h[..4];
  }

  /** A frame is found at its place unless an earlier header already matches; then its checksum decides. */
  lemma FrameReceived(log: seq<byte>, id: u32, status: i32, crc: u32, payload: seq<byte>, rest: seq<byte>)
    requires |log| <= MAX_PRELUDE && |payload| <= MAX_FRAME_BYTES
    requires NoMatchBefore(log + RawResponse(id, status, crc, payload) + rest, |log|, id)
    ensures Receive(log + RawResponse(id, status, crc, payload) + rest, id)
         == Reception(if Crc.Checksum(payload) == crc then Ok(Response(status, payload)) else Err(CrcMismatch),
                      log, |log| + FRAME_HEADER_LEN + |payload|)
  {
    hide MakeHeader, Scan, NoMatchBefore;
    var s := log + RawResponse(id, status, crc, payload) + rest;
    var start := |log| + FRAME_HEADER_LEN;
    FrameStands(log, id, status, crc, payload, rest);
    assert FirstMatch(s, |log|, id) by { FirstMatchFrom(s, |log|, id); }
    FirstMatchDecides(s, id, |log|);
    assert s[start..start + |payload|] == payload;
    assert s[..|log|] == log;
  }

  lemma FirstMatchFrom(s: seq<byte>, i: nat, id: u32)
    requires MatchAt(s, i, id) && NoMatchBefore(s, i, id)
    ensures FirstMatch(s, i, id)
  {
  }

  /** The header of a response frame, read back field by field at its place in the stream. */
  lemma FrameStands(log: seq<byte>, id: u32, status: i32, crc: u32, payload: seq<byte>, rest: seq<byte>)
    requires |payload| <= MAX_FRAME_BYTES
    ensures var s := log + RawResponse(id, status, crc, payload) + rest;
            var h := s[|log|..|log| + FRAME_HEADER_LEN];
            MatchAt(s, |log|, id) && Word2(h) == |payload| && ExpectedCrc(h) == crc &&
            I32FromBits(Word1(h)) == status && MagicAt(s, |log|) && RequestId(h) == id
  {
    hide MakeHeader, RequestId, Word1, Word2, ExpectedCrc, Version;
    var s := log + RawResponse(id, status, crc, payload) + rest;
    var h := MakeHeader(RESPONSE_MAGIC, id, I32Bits(status), |payload|, crc);
    HeaderFields(RESPONSE_MAGIC, id, I32Bits(status), |payload|, crc);
    assert s[|log|..|log| + FRAME_HEADER_LEN] == h;
    assert s[|log|..|log| + 4] == h[..4];
  }

  lemma SameLength(s: seq<byte>, t: seq<byte>, from: nat, to: nat)
    requires Damage.Detectable(s, t, from, to)
    ensures |s| == |t|
  {
  }

  /** A response whose payload was hit on its way by a burst of at most 32 bits or in any two bits is refused, never
      delivered. */
  lemma DamagedResponseRefused(log: seq<byte>, id: u32, status: i32, payload: seq<byte>, damaged: seq<byte>,
                               from: nat, to: nat, rest: seq<byte>)
    requires |log| <= MAX_PRELUDE && |payload| <= MAX_FRAME_BYTES && Damage.Detectable(payload, damaged, from, to)
    requires NoMatchBefore(log + RawResponse(id, status, Crc.Checksum(payload), damaged) + rest, |log|, id)
    ensures Receive(log + RawResponse(id, status, Crc.Checksum(payload), damaged) + rest, id)
         == Reception(Err(CrcMismatch), log, |log| + FRAME_HEADER_LEN + |payload|)
  {
    hide RawResponse, Receive, Crc.Checksum, NoMatchBefore, Damage.Detectable;
    SameLength(payload, damaged, from, to);
    Damage.DamageChangesCrc(payload, damaged, from, to);
    FrameReceived(log, id, status, Crc.Checksum(payload), damaged, rest);
  }

  /** A log without the magic hides nothing, even where it touches the frame, because the magic has no border. */
  lemma QuietLog(log: seq<byte>, id: u32, status: i32, crc: u32, payload: seq<byte>, rest: seq<byte>)
    requires |payload| <= MAX_FRAME_BYTES
    requires forall j :: 0 <= j < |log| ==> !MagicAt(log, j)
    ensures NoMatchBefore(log + RawResponse(id, status, crc, payload) + rest, |log|, id)
  {
    hide RawResponse;
    var s := log + RawResponse(id, status, crc, payload) + rest;
    FrameStands(log, id, status, crc, payload, rest);
    forall j | 0 <= j < |log|
      ensures !MagicAt(s, j)
    {
      if j + 4 <= |log| {
        assert s[j..j + 4] == log[j..j + 4];
        assert !MagicAt(log, j);
      } else if MagicAt(s, j) {
        NoBorder(s, j, |log|);
      }
    }
  }

  /** The header of a response to an earlier request is passed over until the identifiers have run through a whole
      period. */
  lemma StaleFrameIgnored(log: seq<byte>, j: nat, k: nat, status: i32, crc: u32, payload: seq<byte>, rest: seq<byte>)
    requires |payload| <= MAX_FRAME_BYTES && j < k < j + 0xffff_ffff
    ensures !MatchAt(log + RawResponse(NthId(j), status, crc, payload) + rest, |log|, NthId(k))
  {
    hide RawResponse, NthId;
    FrameStands(log, NthId(j), status, crc, payload, rest);
    IdsRepeat(j, k);
    PeriodApart(j, k);
  }

  lemma PeriodApart(j: nat, k: nat)
    requires j < k < j + 0xffff_ffff
    ensures j % 0xffff_ffff != k % 0xffff_ffff
  {
  }
}
