/** Merging firmware images into one file that starts at flash offset zero. */
module FactoryImage {
  import opened Bytes
  import opened Results
  import opened Flash
  import F = FirmwareImage

  /** An image and where it goes; no content when its file is missing. */
  datatype Image = Image(offset: int, content: Option<seq<byte>>) {
    predicate Present() { content.Some? && content.value != [] }
    function Bytes(): seq<byte> { if content.Some? then content.value else [] }
    function End(): int { offset + |Bytes()| }
  }

  datatype MergeError = MissingImage(image: Image) | Overlap(image: Image, cursor: nat)

  const CHUNK: nat := 64 * 1024

  // ----- the sort, stable and ascending by offset

  function Insert(x: Image, s: seq<Image>): (r: seq<Image>)
    ensures |r| == |s| + 1
  {
    if s == [] || x.offset <= s[0].offset then [x] + s else [s[0]] + Insert(x, s[1..])
  }

  function Sort(s: seq<Image>): (r: seq<Image>)
    ensures |r| == |s|
  {
    if s == [] then [] else Insert(s[0], Sort(s[1..]))
  }

  predicate Ascending(s: seq<Image>) { forall i, j :: 0 <= i < j < |s| ==> s[i].offset <= s[j].offset }

  predicate Apart(a: Image, b: Image)
  {
    a.End() <= b.offset || b.End() <= a.offset
  }

  predicate AllPresent(s: seq<Image>) { forall x :: x in s ==> x.Present() }

  /** No two images share a byte. */
  predicate AllApart(s: seq<Image>)
  {
    forall i, j :: 0 <= i < j < |s| ==> Apart(s[i], s[j])
  }

  lemma {:induction false} InsertKeeps(x: Image, s: seq<Image>)
    ensures forall y :: y in Insert(x, s) <==> y == x || y in s
    ensures Ascending(s) ==> Ascending(Insert(x, s))
  {
    hide Ascending;
    if s == [] {
      AscendingFrom(x, []);
    } else if x.offset <= s[0].offset {
      if Ascending(s) { FirstIsLowest(s); AscendingFrom(x, s); }
    } else {
      InsertKeeps(x, s[1..]);
      var r := Insert(x, s[1..]);
      assert Insert(x, s) == [s[0]] + r;
      assert s == [s[0]] + s[1..];
      if Ascending(s) { FirstIsLowest(s); AscendingFrom(s[0], r); }
    }
  }

  lemma AscendingFrom(x: Image, s: seq<Image>)
    requires s == [] || Ascending(s)
    requires forall y :: y in s ==> x.offset <= y.offset
    ensures Ascending([x] + s)
  {
  }

  lemma FirstIsLowest(s: seq<Image>)
    requires s != [] && Ascending(s)
    ensures Ascending(s[1..]) && forall y :: y in s ==> s[0].offset <= y.offset
  {
  }

  lemma {:induction false} SortKeeps(s: seq<Image>)
    ensures forall y :: y in Sort(s) <==> y in s
    ensures Ascending(Sort(s))
  {
    if s != [] {
      SortKeeps(s[1..]);
      InsertKeeps(s[0], Sort(s[1..]));
      assert s == [s[0]] + s[1..];
    }
  }

  lemma ConsApart(x: Image, s: seq<Image>)
    ensures AllApart([x] + s) <==> AllApart(s) && forall y :: y in s ==> Apart(x, y)
  {
    var t := [x] + s;
    if AllApart(t) {
      forall i, j | 0 <= i < j < |s| ensures Apart(s[i], s[j]) { assert Apart(t[i + 1], t[j + 1]); }
      forall y | y in s ensures Apart(x, y) {
        var j :| 0 <= j < |s| && s[j] == y;
        assert Apart(t[0], t[j + 1]);
      }
    }
    if AllApart(s) && forall y :: y in s ==> Apart(x, y) {
      forall i, j | 0 <= i < j < |t| ensures Apart(t[i], t[j]) {
        if i == 0 { assert t[j] in s; }
      }
    }
  }

  lemma {:induction false} InsertApart(x: Image, s: seq<Image>)
    ensures AllApart(Insert(x, s)) <==> AllApart(s) && forall y :: y in s ==> Apart(x, y)
  {
    hide AllApart;
    if s == [] || x.offset <= s[0].offset {
      ConsApart(x, s);
    } else {
      var r := Insert(x, s[1..]);
      assert s == [s[0]] + s[1..] && Insert(x, s) == [s[0]] + r;
      InsertKeeps(x, s[1..]);
      assert forall y :: y in s <==> y == s[0] || y in s[1..];
      InsertApart(x, s[1..]);
      ConsApart(s[0], s[1..]);
      ConsApart(s[0], r);
      assert x in r && s[0] in s && (Apart(s[0], x) <==> Apart(x, s[0]));
      assert (forall y :: y in r ==> Apart(s[0], y)) <==> Apart(s[0], x) && forall y :: y in s[1..] ==> Apart(s[0], y);
      assert (forall y :: y in s ==> Apart(x, y)) <==> Apart(x, s[0]) && forall y :: y in s[1..] ==> Apart(x, y);
    }
  }

  lemma {:induction false} SortApart(s: seq<Image>)
    ensures AllApart(Sort(s)) <==> AllApart(s)
  {
    hide AllApart;
    if s == [] {
      assert AllApart(s) == AllApart(Sort(s));
    } else {
      assert s == [s[0]] + s[1..];
      SortKeeps(s[1..]);
      SortApart(s[1..]);
      InsertApart(s[0], Sort(s[1..]));
      ConsApart(s[0], s[1..]);
    }
  }

  // ----- laying the images out

  /** The file so far, then padding and content of each image in turn. */
  function Lay(images: seq<Image>, merged: seq<byte>): Result<seq<byte>, MergeError>
    decreases |images|
  {
    if images == [] then Ok(merged)
    else
      var x := images[0];
      if x.offset < |merged| then Err(Overlap(x, |merged|))
      else Lay(images[1..], merged + Blank(x.offset - |merged|) + x.Bytes())
  }

  function FirstMissing(images: seq<Image>): (r: Option<Image>)
    ensures r.None? <==> AllPresent(images)
    ensures r.Some? ==> r.value in images && !r.value.Present()
    decreases |images|
  {
    if images == [] then None else if !images[0].Present() then Some(images[0]) else FirstMissing(images[1..])
  }

  function Merged(images: seq<Image>): Result<seq<byte>, MergeError>
  {
    var sorted := Sort(images);
    match FirstMissing(sorted)
    case Some(image) => Err(MissingImage(image))
    case None => Lay(sorted, [])
  }

  /** Sort, check every file, then write padding in chunks and contents. */
  method MergeFirmware(images: seq<Image>) returns (r: Result<seq<byte>, MergeError>)
    ensures r == Merged(images)
  {
    var sorted := Sort(images);
    for k := 0 to |sorted|
      invariant FirstMissing(sorted) == FirstMissing(sorted[k..])
    {
      assert sorted[k..][1..] == sorted[k + 1..];
      if !sorted[k].Present() { return Err(MissingImage(sorted[k])); }
    }
    var merged: seq<byte> := [];
    var cursor := 0;
    for k := 0 to |sorted|
      invariant AllPresent(sorted) && cursor == |merged|
      invariant AllPresent(sorted[k..]) && Lay(sorted, []) == Lay(sorted[k..], merged)
    {
      var x := sorted[k];
      assert sorted[k..][0] == x && sorted[k..][1..] == sorted[k + 1..];
      if x.offset < cursor { return Err(Overlap(x, cursor)); }
      var padded := Pad(merged, x.offset - cursor);
      merged := padded + x.Bytes();
      cursor := x.offset + |x.Bytes()|;
    }
    r := Ok(merged);
  }

  /** Padding in chunks of at most 64 KiB. */
  method Pad(merged: seq<byte>, count: nat) returns (padded: seq<byte>)
    ensures padded == merged + Blank(count)
  {
    padded := merged;
    var remaining := count;
    while remaining > 0
      invariant 0 <= remaining <= count && padded == merged + Blank(count - remaining)
    {
      var chunk := if remaining < CHUNK then remaining else CHUNK;
      padded := padded + Blank(chunk);
      remaining := remaining - chunk;
    }
  }

  // ----- what the merged file holds

  /** Each image stands at its offset. */
  predicate Holds(file: seq<byte>, x: Image)
  {
    0 <= x.offset && x.End() <= |file| && file[x.offset..x.End()] == x.Bytes()
  }

  predicate Covered(images: seq<Image>, i: int)
  {
    exists x :: x in images && x.offset <= i < x.End()
  }

  /** Every image at its place, padding everywhere else, and nothing after the last image. */
  predicate Faithful(images: seq<Image>, file: seq<byte>)
  {
    (forall x :: x in images ==> Holds(file, x)) &&
    (forall i :: 0 <= i < |file| && !Covered(images, i) ==> file[i] == 0xff) &&
    (file != [] ==> exists x :: x in images && x.End() == |file|)
  }

  /** Laying ascending images after a file works exactly when they stay clear of it and of each other. */
  lemma {:induction false} LayWorks(images: seq<Image>, merged: seq<byte>)
    requires AllPresent(images) && Ascending(images)
    ensures Lay(images, merged).Ok? <==> (forall x :: x in images ==> x.offset >= |merged|) && AllApart(images)
    decreases |images|
  {
    hide AllApart;
    if images == [] {
      assert AllApart(images) by { AloneApart(images); }
    } else {
      var x, rest := images[0], images[1..];
      assert images == [x] + rest;
      ConsApart(x, rest);
      NoneBefore(x, rest);
      if x.offset >= |merged| {
        LayWorks(rest, merged + Blank(x.offset - |merged|) + x.Bytes());
      } else {
        assert x in images;
      }
    }
  }

  lemma AloneApart(images: seq<Image>)
    requires |images| <= 1
    ensures AllApart(images)
  {
  }

  /** Nothing that starts at or after `x` can lie before it. */
  lemma NoneBefore(x: Image, rest: seq<Image>)
    requires AllPresent([x] + rest) && Ascending([x] + rest)
    ensures forall y :: y in rest ==> y.offset >= x.offset && (Apart(x, y) <==> y.offset >= x.End())
  {
    forall y | y in rest ensures y.offset >= x.offset && (Apart(x, y) <==> y.offset >= x.End()) {
      var j :| 0 <= j < |rest| && rest[j] == y;
      assert ([x] + rest)[j + 1] == y && ([x] + rest)[0] == x;
      assert y in [x] + rest && x in [x] + rest;
    }
  }

  lemma {:induction false} LayHolds(images: seq<Image>, merged: seq<byte>)
    requires Lay(images, merged).Ok?
    ensures var file := Lay(images, merged).value;
            merged <= file && (forall x :: x in images ==> Holds(file, x)) &&
            (forall i :: |merged| <= i < |file| && !Covered(images, i) ==> file[i] == 0xff) &&
            (file == merged || exists x :: x in images && x.End() == |file|)
    decreases |images|
  {
    if images != [] {
      var x, rest := images[0], images[1..];
      var padded := merged + Blank(x.offset - |merged|);
      var next := padded + x.Bytes();
      LayHolds(rest, next);
      var file := Lay(images, merged).value;
      assert images == [x] + rest;
      assert next[..|merged|] == merged && next[x.offset..] == x.Bytes();
      assert file[x.offset..x.End()] == next[x.offset..];
      forall i | |merged| <= i < |file| && !Covered(images, i) ensures file[i] == 0xff {
        if i < |next| {
          assert x in images;
          assert file[i] == next[i] && i < x.offset;
        } else {
          assert !Covered(rest, i);
        }
      }
      if file == next { assert x in images && x.End() == |file|; }
    }
  }

  /** Merging succeeds exactly when every file is there and the images lie at or after zero without a shared byte;
      the merged file then holds each of them and nothing else. */
  lemma MergesIffDisjoint(images: seq<Image>)
    ensures Merged(images).Ok?
       <==> AllPresent(images) && (forall x :: x in images ==> x.offset >= 0) && AllApart(images)
    ensures Merged(images).Ok? ==> Faithful(images, Merged(images).value)
  {
    hide Lay, AllApart, Holds;
    var sorted := Sort(images);
    SortKeeps(images);
    if AllPresent(images) {
      assert AllPresent(sorted);
      SortApart(images);
      LayWorks(sorted, []);
      if Lay(sorted, []).Ok? {
        LayHolds(sorted, []);
        var file := Lay(sorted, []).value;
        forall i | 0 <= i < |file| && !Covered(images, i) ensures !Covered(sorted, i) {
        }
      }
    } else {
      var x :| x in images && !x.Present();
      assert x in sorted;
    }
  }

  /** Why a merge fails: a file that is missing is reported before any overlap, and it is one that goes lowest; an
      overlap names an image that starts before the end of another one, or before zero. */
  lemma MergeErrors(images: seq<Image>)
    requires Merged(images).Err?
    ensures match Merged(images).error
            case MissingImage(x) =>
              x in images && !x.Present() && forall y :: y in images && !y.Present() ==> x.offset <= y.offset
            case Overlap(x, cursor) =>
              AllPresent(images) && x in images && x.offset < cursor &&
              if x.offset < 0 then cursor == 0
              else exists y :: y in images && y.End() == cursor && y.offset <= x.offset
  {
    hide Sort, Lay;
    var sorted := Sort(images);
    SortKeeps(images);
    match FirstMissing(sorted)
    case Some(x) => LowestMissing(sorted);
    case None =>
      assert [] + sorted == sorted;
      LayFails([], sorted, []);
  }

  lemma {:induction false} LowestMissing(s: seq<Image>)
    requires Ascending(s) && FirstMissing(s).Some?
    ensures forall y :: y in s && !y.Present() ==> FirstMissing(s).value.offset <= y.offset
  {
    if s[0].Present() { LowestMissing(s[1..]); }
  }

  /** The file so far ends where the last image laid ends. */
  predicate LaidSoFar(done: seq<Image>, merged: seq<byte>)
  {
    if done == [] then merged == []
    else done[|done| - 1].offset >= 0 && done[|done| - 1].End() == |merged|
  }

  lemma {:induction false} LayFails(done: seq<Image>, images: seq<Image>, merged: seq<byte>)
    requires Ascending(done + images) && LaidSoFar(done, merged) && Lay(images, merged).Err?
    ensures var e := Lay(images, merged).error;
            e.Overlap? && e.image in images && e.image.offset < e.cursor &&
            if e.image.offset < 0 then e.cursor == 0
            else exists y :: y in done + images && y.End() == e.cursor && y.offset <= e.image.offset
    decreases |images|
  {
    var x, all := images[0], done + images;
    if x.offset >= |merged| {
      assert done + [x] + images[1..] == all;
      LayFails(done + [x], images[1..], merged + Blank(x.offset - |merged|) + x.Bytes());
    } else if done != [] {
      assert all[|done| - 1] == done[|done| - 1] && all[|done|] == x;
      assert done[|done| - 1] in all;
    }
  }

  /** From the packer through the merged file to the boot loader: the script partition of a chip flashed with the
      merged file loads the payload that was packed. */
  lemma FactoryScriptLoads(images: seq<Image>, offset: nat, size: nat, payload: seq<byte>, cells: seq<byte>)
    requires Merged(images).Ok? && F.PackVmbc(payload, Some(size)).Ok?
    requires Image(offset, Some(F.PackVmbc(payload, Some(size)).value)) in images && |cells| == size
    requires forall i :: 0 <= i < size && offset + i < |Merged(images).value| ==>
               cells[i] == Merged(images).value[offset + i]
    ensures F.Load(cells) == Some(payload)
  {
    hide F.Load, F.PackVmbc, Merged, AllApart;
    MergesIffDisjoint(images);
    var image := F.PackVmbc(payload, Some(size)).value;
    var file := Merged(images).value;
    assert Holds(file, Image(offset, Some(image)));
    assert image == cells[..|image|] by {
      forall i | 0 <= i < |image| ensures image[i] == cells[i] {
        assert file[offset..offset + |image|][i] == image[i];
      }
    }
    F.LoadsIffPacked(cells, payload);
  }
}
