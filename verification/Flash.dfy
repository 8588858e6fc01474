/** Installing a script image into its flash partition, with the power failing at any step. */
module Flash {
  import opened Bytes
  import opened Results
  import opened FirmwareImage
  import Crc
  import Damage

  const SECTOR: nat := 4096

  /** Flash bits can only be cleared by a write. */
  function Program(stored: byte, data: byte): byte { BitAnd(data, stored) }

  lemma ProgramErased(data: byte)
    ensures Program(0xff, data) == data
  {
    hide BitAnd;
    assert Pow2(4) == 16 && Pow2(8) == 256;
    AllOnes(data, 8);
  }

  function Blank(n: nat): (s: seq<byte>)
    ensures |s| == n && forall i :: 0 <= i < n ==> s[i] == 0xff
  {
    seq(n, _ => 0xff)
  }

  predicate Partitioned(cells: seq<byte>) { |cells| > 0 && |cells| % SECTOR == 0 && |cells| < U32_SIZE }

  function Sectors(cells: seq<byte>): nat { |cells| / SECTOR }

  predicate Fits(cells: seq<byte>, data: seq<byte>) { data != [] && |data| + IMAGE_HEADER_LEN <= |cells| }

  /** All steps of an install: every sector erased, the header written, every byte written. */
  function Steps(cells: seq<byte>, data: seq<byte>): nat { Sectors(cells) + 1 + |data| }

  /** How many payload bytes are written after `t` steps. */
  function Written(cells: seq<byte>, data: seq<byte>, t: nat): (j: nat)
    requires t > Sectors(cells)
    ensures j <= |data|
  {
    var j := t - Sectors(cells) - 1;
    if j <= |data| then j else |data|
  }

  function FullHeader(data: seq<byte>): seq<byte>
    requires |data| < U32_SIZE
  {
    ImageHeader(|data|, Crc.Checksum(data))
  }

  /** The partition when the power fails after `t` steps of installing `data`. */
  function Interrupted(cells: seq<byte>, data: seq<byte>, t: nat): (after: seq<byte>)
    requires Partitioned(cells) && Fits(cells, data)
    ensures |after| == |cells|
  {
    if t <= Sectors(cells) then Blank(SECTOR * t) + cells[SECTOR * t..]
    else
      var j := Written(cells, data, t);
      FullHeader(data) + (data[..j] + Blank(|data| - j)) + Blank(|cells| - IMAGE_HEADER_LEN - |data|)
  }

  /** The cells after bytes have been written over them from `at` on. */
  predicate WrittenTo(cells: seq<byte>, at: nat, bytes: seq<byte>, after: seq<byte>)
  {
    |after| == |cells| && at + |bytes| <= |cells| &&
    forall i :: 0 <= i < |cells| ==>
      after[i] == if at <= i < at + |bytes| then Program(cells[i], bytes[i - at]) else cells[i]
  }

  // ----- the partition and its writer

  class ScriptPartition {
    const cells: array<byte>
    /** How many more steps the power lasts. */
    var power: nat

    ghost predicate Valid()
      reads cells
    {
      Partitioned(cells[..])
    }

    constructor (cells: array<byte>, power: nat)
      requires Partitioned(cells[..])
      ensures this.cells == cells && this.power == power && Valid()
    {
      this.cells, this.power := cells, power;
    }

    /** One sector becomes all ones in one step. */
    method EraseSector(k: nat) returns (ok: bool)
      requires SECTOR * (k + 1) <= cells.Length
      modifies this`power, cells
      ensures ok == (old(power) > 0) && power == if ok then old(power) - 1 else 0
      ensures !ok ==> cells[..] == old(cells[..])
      ensures ok ==> cells[..] == old(cells[..SECTOR * k]) + Blank(SECTOR) + old(cells[SECTOR * (k + 1)..])
    {
      if power == 0 { return false; }
      power := power - 1;
      forall i | SECTOR * k <= i < SECTOR * (k + 1) { cells[i] := 0xff; }
      ok := true;
    }

    /** `esp_partition_erase_range` over the whole partition, sector by sector from the start. */
    method Erase(ghost data: seq<byte>) returns (ok: bool)
      requires Valid() && Fits(cells[..], data)
      modifies this`power, cells
      ensures var n := Sectors(old(cells[..]));
              ok == (old(power) >= n) && power == (if ok then old(power) - n else 0) &&
              cells[..] == Interrupted(old(cells[..]), data, if ok then n else old(power))
    {
      var n := cells.Length / SECTOR;
      ghost var before, start := cells[..], power;
      for k := 0 to n
        invariant start >= k && power == start - k
        invariant cells[..] == Blank(SECTOR * k) + before[SECTOR * k..]
      {
        ghost var now := cells[..];
        ok := EraseSector(k);
        if !ok { return; }
        EraseStep(before, now, k);
      }
      ok := true;
    }

    /** Clears bits at consecutive cells in one step. */
    method Write(at: nat, bytes: seq<byte>) returns (ok: bool)
      requires at + |bytes| <= cells.Length
      modifies this`power, cells
      ensures ok == (old(power) > 0) && power == if ok then old(power) - 1 else 0
      ensures !ok ==> cells[..] == old(cells[..])
      ensures ok ==> WrittenTo(old(cells[..]), at, bytes, cells[..])
    {
      if power == 0 { return false; }
      power := power - 1;
      forall i | at <= i < at + |bytes| { cells[i] := Program(cells[i], bytes[i - at]); }
      ok := true;
    }

    /** The header, in one step, onto an erased partition. */
    method WriteHeader(ghost before: seq<byte>, data: seq<byte>) returns (ok: bool)
      requires Partitioned(before) && Fits(before, data) && |before| == cells.Length
      requires cells[..] == Interrupted(before, data, Sectors(before))
      modifies this`power, cells
      ensures ok == (old(power) > 0) && power == if ok then old(power) - 1 else 0
      ensures cells[..] == Interrupted(before, data, Sectors(before) + if ok then 1 else 0)
    {
      hide Interrupted, Sectors, ImageHeader, WrittenTo;
      var crc := Crc.ComputeCrc32(data);
      var header := ImageHeader(|data|, crc as int);
      assert header == FullHeader(data);
      ghost var now := cells[..];
      ok := Write(0, header);
      if ok { HeaderStep(before, data, now, cells[..]); }
    }

    /** The payload behind the header, byte by byte. */
    method WritePayload(ghost before: seq<byte>, data: seq<byte>) returns (ok: bool)
      requires Partitioned(before) && Fits(before, data) && |before| == cells.Length
      requires cells[..] == Interrupted(before, data, Sectors(before) + 1)
      modifies this`power, cells
      ensures ok == (old(power) >= |data|) && power == if ok then old(power) - |data| else 0
      ensures cells[..] == Interrupted(before, data, Sectors(before) + 1 + if ok then |data| else old(power))
    {
      hide Interrupted, Sectors, WrittenTo;
      ghost var start := power;
      for j := 0 to |data|
        invariant start >= j && power == start - j
        invariant cells[..] == Interrupted(before, data, Sectors(before) + 1 + j)
      {
        ghost var now := cells[..];
        ok := Write(IMAGE_HEADER_LEN + j, [data[j]]);
        if !ok { return; }
        PayloadStep(before, data, j, now, cells[..]);
      }
      ok := true;
    }

    /** `rustscript_install_partition`: erase, header, payload, each only after the one before it. */
    method Install(data: seq<byte>) returns (ok: bool)
      requires Valid()
      modifies this`power, cells
      ensures !Fits(old(cells[..]), data) ==> !ok && cells[..] == old(cells[..]) && power == old(power)
      ensures Fits(old(cells[..]), data) ==>
                ok == (old(power) >= Steps(old(cells[..]), data)) &&
                power == (if ok then old(power) - Steps(old(cells[..]), data) else 0) &&
                cells[..] == Interrupted(old(cells[..]), data, old(power))
    {
      hide Interrupted, Sectors;
      if data == [] || |data| + IMAGE_HEADER_LEN > cells.Length { return false; }
      ghost var before, start := cells[..], power;
      ok := Erase(data);
      if !ok { return; }
      ok := WriteHeader(before, data);
      if !ok { return; }
      ok := WritePayload(before, data);
      if ok { WrittenAll(before, data, start); }
    }

    /** `rustscript_load_partition`. */
    method LoadPartition() returns (image: Option<seq<byte>>)
      requires Valid()
      ensures image == Load(cells[..])
    {
      ghost var all := cells[..];
      var header := cells[..IMAGE_HEADER_LEN];
      assert header == all[..IMAGE_HEADER_LEN];
      if !HeaderValid(header, cells.Length) { return None; }
      var data := cells[IMAGE_HEADER_LEN..IMAGE_HEADER_LEN + PayloadLen(header)];
      assert data == all[IMAGE_HEADER_LEN..IMAGE_HEADER_LEN + PayloadLen(header)];
      var crc := Crc.ComputeCrc32(data);
      if crc as int != PayloadCrc(header) { return None; }
      image := Some(data);
    }
  }

  // ----- single steps

  lemma EraseStep(before: seq<byte>, now: seq<byte>, k: nat)
    requires SECTOR * (k + 1) <= |before| && now == Blank(SECTOR * k) + before[SECTOR * k..]
    ensures now[..SECTOR * k] + Blank(SECTOR) + now[SECTOR * (k + 1)..]
         == Blank(SECTOR * (k + 1)) + before[SECTOR * (k + 1)..]
  {
  }

  lemma ErasedAll(before: seq<byte>, data: seq<byte>)
    requires Partitioned(before) && Fits(before, data)
    ensures Interrupted(before, data, Sectors(before)) == Blank(|before|)
  {
  }

  lemma HeaderStep(before: seq<byte>, data: seq<byte>, now: seq<byte>, after: seq<byte>)
    requires Partitioned(before) && Fits(before, data) && |after| == |before|
    requires now == Interrupted(before, data, Sectors(before))
    requires WrittenTo(now, 0, FullHeader(data), after)
    ensures after == Interrupted(before, data, Sectors(before) + 1)
  {
    hide ImageHeader, Program;
    ErasedAll(before, data);
    forall i | 0 <= i < IMAGE_HEADER_LEN ensures after[i] == FullHeader(data)[i] {
      ProgramErased(FullHeader(data)[i]);
    }
  }

  lemma PayloadStep(before: seq<byte>, data: seq<byte>, j: nat, now: seq<byte>, after: seq<byte>)
    requires Partitioned(before) && Fits(before, data) && j < |data| && |after| == |before|
    requires now == Interrupted(before, data, Sectors(before) + 1 + j)
    requires WrittenTo(now, IMAGE_HEADER_LEN + j, [data[j]], after)
    ensures after == Interrupted(before, data, Sectors(before) + 1 + (j + 1))
  {
    hide ImageHeader, Program;
    ProgramErased(data[j]);
  }

  lemma WrittenAll(before: seq<byte>, data: seq<byte>, t: nat)
    requires Partitioned(before) && Fits(before, data) && t >= Steps(before, data)
    ensures Interrupted(before, data, t) == Interrupted(before, data, Steps(before, data))
  {
  }

  /** The firmware installs exactly what the packer makes an image of that fits the partition. */
  lemma FitsIffPacks(cells: seq<byte>, data: seq<byte>)
    requires Partitioned(cells)
    ensures Fits(cells, data) <==> PackVmbc(data, Some(|cells|)).Ok?
  {
    hide PackVmbc;
  }

  // ----- what loads after an interruption

  lemma BlankNeverLoads(cells: seq<byte>)
    requires |cells| > 0 && cells[0] == 0xff
    ensures Load(cells) == None
  {
    if |cells| > IMAGE_HEADER_LEN { assert cells[..IMAGE_HEADER_LEN][..8][0] == 0xff; }
  }

  /** The payload area after `j` bytes have been written. */
  function Torn(data: seq<byte>, j: nat): (p: seq<byte>)
    requires j <= |data|
    ensures |p| == |data|
  {
    data[..j] + Blank(|data| - j)
  }

  /** Once erasing has begun the old image is gone; once the header stands, what loads has the new length and the new
      checksum; with at most four bytes missing it is the new image or nothing. */
  lemma InterruptedLoads(cells: seq<byte>, data: seq<byte>, t: nat)
    requires Partitioned(cells) && Fits(cells, data)
    ensures var loaded := Load(Interrupted(cells, data, t));
            if t == 0 then loaded == Load(cells)
            else if t <= Sectors(cells) then loaded == None
            else
              var j := Written(cells, data, t);
              loaded == (if Crc.Checksum(Torn(data, j)) == Crc.Checksum(data) then Some(Torn(data, j)) else None) &&
              (|data| - j <= 4 ==> loaded == if Torn(data, j) == data then Some(data) else None) &&
              (t >= Steps(cells, data) ==> loaded == Some(data))
  {
    hide Load, Crc.Checksum, ImageHeader;
    if t == 0 {
      assert Blank(SECTOR * t) + cells[SECTOR * t..] == cells;
    } else if t <= Sectors(cells) {
      BlankNeverLoads(Interrupted(cells, data, t));
    } else {
      var j := Written(cells, data, t);
      LoadOfImage(Torn(data, j), Crc.Checksum(data), Blank(|cells| - IMAGE_HEADER_LEN - |data|));
      if |data| - j <= 4 && Torn(data, j) != data {
        Crc.WindowChangesCrc(data, Torn(data, j), j, |data| - j);
        Crc.ChecksumInjective(data, Torn(data, j));
      }
      if t >= Steps(cells, data) { assert Torn(data, j) == data; }
    }
  }

  /** No state of the half-written payload passes for the whole one. */
  predicate NeverMisleads(data: seq<byte>)
  {
    forall j :: 0 <= j <= |data| ==> Torn(data, j) == data || Crc.Checksum(Torn(data, j)) != Crc.Checksum(data)
  }

  predicate Clean(loaded: Option<seq<byte>>, data: seq<byte>) { loaded == None || loaded == Some(data) }

  /** Every interruption leaves the new image or nothing exactly for payloads whose half-written states all have
      another checksum, which can be checked before installing. */
  lemma CleanIffNeverMisleads(cells: seq<byte>, data: seq<byte>)
    requires Partitioned(cells) && Fits(cells, data)
    ensures (forall t: nat :: t > 0 ==> Clean(Load(Interrupted(cells, data, t)), data)) <==> NeverMisleads(data)
  {
    hide Load, Interrupted, Crc.Checksum;
    if NeverMisleads(data) {
      forall t: nat | t > 0 ensures Clean(Load(Interrupted(cells, data, t)), data) {
        InterruptedLoads(cells, data, t);
      }
    }
    if forall t: nat :: t > 0 ==> Clean(Load(Interrupted(cells, data, t)), data) {
      forall j | 0 <= j <= |data|
        ensures Torn(data, j) == data || Crc.Checksum(Torn(data, j)) != Crc.Checksum(data)
      {
        var t := Sectors(cells) + 1 + j;
        assert Written(cells, data, t) == j;
        InterruptedLoads(cells, data, t);
        assert Clean(Load(Interrupted(cells, data, t)), data);
      }
    }
  }

  /** It does happen: with the power lost right after the header, five bytes install as five erased ones. So four
      missing bytes are the most that the checksum makes safe. */
  lemma TornImageLoads(cells: seq<byte>)
    requires Partitioned(cells)
    ensures Fits(cells, Damage.MISLEADING)
    ensures Load(Interrupted(cells, Damage.MISLEADING, Sectors(cells) + 1)) == Some(Damage.ERASED)
    ensures Damage.ERASED != Damage.MISLEADING && !NeverMisleads(Damage.MISLEADING)
  {
    hide Load, Interrupted, Crc.Checksum;
    Damage.MisleadingChecksum();
    assert Torn(Damage.MISLEADING, 0) == Damage.ERASED;
    assert Written(cells, Damage.MISLEADING, Sectors(cells) + 1) == 0;
    InterruptedLoads(cells, Damage.MISLEADING, Sectors(cells) + 1);
  }

  // ----- any number of attempts

  datatype Attempt = Attempt(data: seq<byte>, power: nat)

  /** The partition after one attempt after another; those that do not fit change nothing. */
  function History(cells: seq<byte>, attempts: seq<Attempt>): (after: seq<byte>)
    requires Partitioned(cells)
    ensures |after| == |cells|
    decreases |attempts|
  {
    if attempts == [] then cells
    else
      var first := attempts[0];
      History(if Fits(cells, first.data) then Interrupted(cells, first.data, first.power) else cells, attempts[1..])
  }

  predicate Resembles(loaded: Option<seq<byte>>, data: seq<byte>)
  {
    loaded.Some? ==> |loaded.value| == |data| && Crc.Checksum(loaded.value) == Crc.Checksum(data)
  }

  /** Whatever loads after a history is what loaded before it, or has length and checksum of one of the attempts. */
  lemma {:induction false} HistoryLoads(cells: seq<byte>, attempts: seq<Attempt>)
    requires Partitioned(cells)
    ensures var loaded := Load(History(cells, attempts));
            loaded == Load(cells) || loaded == None ||
            exists i :: 0 <= i < |attempts| && Fits(cells, attempts[i].data) && Resembles(loaded, attempts[i].data)
    decreases |attempts|
  {
    hide Load, Interrupted, Crc.Checksum;
    if attempts != [] {
      var first := attempts[0];
      var next := if Fits(cells, first.data) then Interrupted(cells, first.data, first.power) else cells;
      if Fits(cells, first.data) { InterruptedLoads(cells, first.data, first.power); }
      HistoryLoads(next, attempts[1..]);
      var loaded := Load(History(cells, attempts));
      if loaded == Load(next) && loaded != Load(cells) && loaded != None {
        assert Resembles(loaded, attempts[0].data);
      } else if loaded != Load(next) && loaded != None {
        var later := attempts[1..];
        var i :| 0 <= i < |later| && Fits(next, later[i].data) && Resembles(loaded, later[i].data);
        assert attempts[i + 1] == attempts[1..][i];
      }
    }
  }
}
