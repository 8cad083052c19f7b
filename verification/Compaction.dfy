/** map_compact (map.c): run-length merging of a map section, as a function on the list of
    its addresses, and what the merged list means to the loader. */
module Compaction {
  import opened Bytes
  import opened SectorAddress

  // In LBA32 mode the EDD specification limits a transfer to 127 sectors.
  function MaxCount(lba32: bool): nat { if lba32 then 127 else 128 }

  // The outcome of looking at `walk` and its successor: can they merge, what has become of
  // the successor, and the high byte now remembered.
  datatype Look = Look(adj: bool, next: SectorAddr, hinib: int)

  // Drop an LBA32 successor's high byte and give it a count instead.
  function WithCount(a: SectorAddr): SectorAddr {
    a.(numSect := 1, device := ClearNoCount(a.device))
  }

  // The successor starts where `walk` ends.
  predicate Follows(walk: SectorAddr, next: SectorAddr) {
    if !AccessOf(walk).Chs? then Low24(walk) + walk.numSect == Low24(next)
    else walk.track == next.track && walk.head == next.head && walk.sector + walk.numSect == next.sector
  }

  function LookAhead(walk: SectorAddr, next: SectorAddr, hinib: int): Look {
    var same := ClearNoCount(walk.device) == ClearNoCount(next.device);
    if same && IsLba32(walk.device) then
      if !NoCount(walk.device) then
        if hinib == next.numSect then Look(Follows(walk, WithCount(next)), WithCount(next), hinib)
        else Look(false, next, hinib)
      else
        Look(false,
             if NoCount(next.device) && next.numSect == walk.numSect then WithCount(next) else next,
             walk.numSect)
    else Look(same && Follows(walk, next), next, hinib)
  }

  // The loop of map_compact from the entry `walk` on: `offset` and `noffset` are the byte
  // offsets, from the first compactable sector, of walk's first and last sector.
  function CompactFrom(walk: SectorAddr, rest: seq<SectorAddr>, hinib: int, offset: nat, noffset: nat, max: nat)
    : (merged: seq<SectorAddr>)
    requires max <= 128
    ensures merged != []
    decreases |rest|
  {
    if rest == [] then [walk]
    else
      var look := LookAhead(walk, rest[0], hinib);
      var here := noffset + SECTOR_SIZE;
      if look.adj && offset / 0x1_0000 == here / 0x1_0000 && walk.numSect < max then
        CompactFrom(walk.(numSect := walk.numSect + 1), rest[1..], look.hinib, offset, here, max)
      else
        [walk] + CompactFrom(look.next, rest[1..], look.hinib, here, here, max)
  }

  // map_compact(dont_compact): the first `skip` == dont_compact + 1 entries stay as they are.
  function Compact(list: seq<SectorAddr>, skip: nat, max: nat): seq<SectorAddr>
    requires max <= 128
  {
    if |list| <= skip then list
    else list[..skip] + CompactFrom(list[skip], list[skip + 1..], 257, 0, 0, max)
  }

  // ---------- compaction preserves meaning ----------

  // The number of sectors an address asks for.
  function CountOf(a: SectorAddr): nat {
    if !AccessOf(a).Chs? && NoCount(a.device) then 1 else a.numSect
  }

  // What the loop knows of `walk`: it is untouched, or an LBA32 entry whose dropped high byte
  // both the compactor and the loader remember, or a merged run that stays on one track.
  ghost predicate WalkOk(drives: Drives, walk: SectorAddr, compactorHinib: int, loaderHinib: byte) {
    match AccessOf(walk)
    case Chs =>
      && !NoCount(walk.device)
      && walk.head < drives(walk.device).heads
      && 1 <= walk.numSect
      && 1 <= walk.sector % 64
      && walk.sector % 64 + walk.numSect <= drives(walk.device).spt + 1
    case Linear =>
      walk.device >= 0x80 && 1 <= walk.numSect && !NoCount(walk.device) && !IsLba32(walk.device)
    case Lba32 =>
      walk.device >= 0x80 && (NoCount(walk.device) || (1 <= walk.numSect && compactorHinib == loaderHinib))
  }

  // Devices that differ at most in NOCOUNT name the same drive in the same way.
  lemma SameDevice(d: byte, e: byte)
    requires ClearNoCount(d) == ClearNoCount(e)
    ensures IsLinear(d) == IsLinear(e) && IsLba32(d) == IsLba32(e) && DriveCode(d) == DriveCode(e)
    ensures NoCount(d) == NoCount(e) ==> d == e
    ensures (0x80 <= d) == (0x80 <= e)
  {
    CleanDevice(d);
    CleanDevice(e);
  }

  lemma CleanDevice(d: byte)
    ensures var e := ClearNoCount(d);
            !NoCount(e) && IsLinear(e) == IsLinear(d) && IsLba32(e) == IsLba32(d) && DriveCode(e) == DriveCode(d)
            && ((0x80 <= d) == (0x80 <= e))
  {
    if NoCount(d) {
      SetNoCount(d - LBA32_NOCOUNT);
    }
  }

  lemma SetNoCount(e: byte)
    requires e + LBA32_NOCOUNT < 0x100
    requires NoCount(e + LBA32_NOCOUNT)
    ensures !NoCount(e) && IsLinear(e) == IsLinear(e + LBA32_NOCOUNT) && IsLba32(e) == IsLba32(e + LBA32_NOCOUNT)
    ensures DriveCode(e) == DriveCode(e + LBA32_NOCOUNT)
  {
    var q := e / 0x10;
    assert q % 2 == 0;
    assert (e + LBA32_NOCOUNT) / 0x10 == q + 1;
  }

  // The loader reads the run of `walk` with its successor's sector added.
  lemma MergedRun(drives: Drives, walk: SectorAddr, next: SectorAddr, hinib: int, h: byte)
    requires WalkOk(drives, walk, hinib, h) && InstallerForm(drives, next)
    requires LookAhead(walk, next, hinib).adj && walk.numSect < 128
    ensures var longer := walk.(numSect := walk.numSect + 1);
            && WalkOk(drives, longer, hinib, h) && LookAhead(walk, next, hinib).hinib == hinib
            && NextHinib(longer, h) == NextHinib(walk, h) == NextHinib(next, h) == h
            && CountOf(walk) == walk.numSect && CountOf(longer) == walk.numSect + 1
            && Decode(drives, longer, h).start == Decode(drives, walk, h).start
            && Decode(drives, longer, h).count == Decode(drives, walk, h).count + 1
            && Decode(drives, walk, h).count == walk.numSect
            && Decode(drives, next, h)
               == Request(Decode(drives, walk, h).start.(lba := Decode(drives, walk, h).start.lba + walk.numSect), 1)
  {
    SameDevice(walk.device, next.device);
    if AccessOf(walk).Chs? {
      MergedTrack(drives, walk, next);
    }
  }

  lemma MergedTrack(drives: Drives, walk: SectorAddr, next: SectorAddr)
    requires InstallerForm(drives, next) && AccessOf(next).Chs?
    requires Follows(walk, next) && AccessOf(walk).Chs?
    requires walk.device == next.device && 1 <= walk.sector % 64 && 1 <= walk.numSect
    requires walk.sector % 64 + walk.numSect <= drives(walk.device).spt + 1
    ensures CylinderOf(walk) == CylinderOf(next)
    ensures next.sector % 64 == walk.sector % 64 + walk.numSect
  {
    assert ValidDrive(drives(walk.device));
    assert walk.sector % 64 + walk.numSect <= 64;
  }

  // Where walk is left alone, its successor keeps its meaning for the loader.
  lemma SuccessorKept(drives: Drives, walk: SectorAddr, next: SectorAddr, hinib: int, h: byte)
    requires WalkOk(drives, walk, hinib, h) && InstallerForm(drives, next)
    ensures var look := LookAhead(walk, next, hinib);
            var h' := NextHinib(walk, h);
            && WalkOk(drives, look.next, look.hinib, h')
            && Decode(drives, look.next, h') == Decode(drives, next, h')
            && NextHinib(look.next, h') == NextHinib(next, h')
            && Decode(drives, next, h').count == CountOf(look.next) == 1
  {
    assert ValidDrive(drives(next.device));
    CleanDevice(next.device);
    if ClearNoCount(walk.device) == ClearNoCount(next.device) {
      SameDevice(walk.device, next.device);
    }
  }

  // The main theorem: the loader reads the same sectors from the merged list.
  lemma {:induction false} CompactFromPreservesMeaning(drives: Drives, walk: SectorAddr, rest: seq<SectorAddr>,
                                                       hinib: int, offset: nat, noffset: nat, max: nat, h: byte)
    requires max <= 128
    requires WalkOk(drives, walk, hinib, h) && AllInstallerForm(drives, rest)
    ensures DecodeAll(drives, CompactFrom(walk, rest, hinib, offset, noffset, max), h)
            == DecodeAll(drives, [walk] + rest, h)
    decreases |rest|
  {
    hide Decode, NextHinib, Expand, LookAhead, WalkOk, InstallerForm;
    if rest == [] {
      assert [walk] + rest == [walk];
    } else {
      var next := rest[0];
      var look := LookAhead(walk, next, hinib);
      var here := noffset + SECTOR_SIZE;
      DecodeAllCons(drives, walk, rest, h);
      if look.adj && offset / 0x1_0000 == here / 0x1_0000 && walk.numSect < max {
        var longer := walk.(numSect := walk.numSect + 1);
        MergedRun(drives, walk, next, hinib, h);
        CompactFromPreservesMeaning(drives, longer, rest[1..], look.hinib, offset, here, max, h);
        DecodeAllCons(drives, longer, rest[1..], h);
        LongerRun(Decode(drives, walk, h), Decode(drives, next, h), Decode(drives, longer, h));
      } else {
        var h' := NextHinib(walk, h);
        SuccessorKept(drives, walk, next, hinib, h);
        CompactFromPreservesMeaning(drives, look.next, rest[1..], look.hinib, here, here, max, h');
        DecodeAllCons(drives, walk, CompactFrom(look.next, rest[1..], look.hinib, here, here, max), h);
        DecodeAllCons(drives, look.next, rest[1..], h');
      }
    }
  }

  lemma LongerRun(r: Request, one: Request, longer: Request)
    requires longer.start == r.start && longer.count == r.count + 1
    requires one == Request(r.start.(lba := r.start.lba + r.count), 1)
    ensures Expand(longer) == Expand(r) + Expand(one)
  {
  }

  lemma InstallerFormWalks(drives: Drives, walk: SectorAddr, hinib: int, h: byte)
    requires InstallerForm(drives, walk)
    ensures WalkOk(drives, walk, hinib, h)
  {
  }

  // map_compact as a whole, for every installer-form list and every initial hinib.
  lemma CompactPreservesMeaning(drives: Drives, list: seq<SectorAddr>, skip: nat, max: nat, h: byte)
    requires max <= 128 && AllInstallerForm(drives, list)
    ensures DecodeAll(drives, Compact(list, skip, max), h) == DecodeAll(drives, list, h)
  {
    if |list| > skip {
      var walk, rest := list[skip], list[skip + 1..];
      var h' := HinibAfter(list[..skip], h);
      InstallerFormWalks(drives, walk, 257, h');
      CompactFromPreservesMeaning(drives, walk, rest, 257, 0, 0, max, h');
      DecodeAllAppend(drives, list[..skip], CompactFrom(walk, rest, 257, 0, 0, max), h);
      DecodeAllAppend(drives, list[..skip], [walk] + rest, h);
      assert list == list[..skip] + ([walk] + rest);
    }
  }

  // ---------- run lengths and 64 KiB blocks ----------

  // No run crosses a 64 KiB (128-sector) block, where the first run starts at sector `at`.
  ghost predicate WithinBlocks(list: seq<SectorAddr>, at: nat, max: nat) {
    list != [] ==>
      && 1 <= CountOf(list[0]) <= max
      && at / 128 == (at + CountOf(list[0]) - 1) / 128
      && WithinBlocks(list[1..], at + CountOf(list[0]), max)
  }

  lemma SameBlock(first: nat, last: nat)
    ensures first * SECTOR_SIZE / 0x1_0000 == last * SECTOR_SIZE / 0x1_0000 <==> first / 128 == last / 128
  {
  }

  lemma {:induction false} CompactFromWithinBlocks(drives: Drives, walk: SectorAddr, rest: seq<SectorAddr>, hinib: int,
                                                   offset: nat, noffset: nat, max: nat, at: nat, h: byte)
    requires 1 <= max <= 128
    requires WalkOk(drives, walk, hinib, h) && AllInstallerForm(drives, rest)
    requires 1 <= CountOf(walk) <= max && at / 128 == (at + CountOf(walk) - 1) / 128
    requires offset == at * SECTOR_SIZE && noffset == (at + CountOf(walk) - 1) * SECTOR_SIZE
    ensures WithinBlocks(CompactFrom(walk, rest, hinib, offset, noffset, max), at, max)
    decreases |rest|
  {
    hide Decode, NextHinib, LookAhead, CountOf, WalkOk, InstallerForm;
    if rest == [] {
      assert WithinBlocks([walk][1..], at + CountOf(walk), max);
    } else {
      var look := LookAhead(walk, rest[0], hinib);
      var here := noffset + SECTOR_SIZE;
      SameBlock(at, at + CountOf(walk));
      if look.adj && offset / 0x1_0000 == here / 0x1_0000 && walk.numSect < max {
        var longer := walk.(numSect := walk.numSect + 1);
        MergedRun(drives, walk, rest[0], hinib, h);
        CompactFromWithinBlocks(drives, longer, rest[1..], look.hinib, offset, here, max, at, h);
      } else {
        SuccessorKept(drives, walk, rest[0], hinib, h);
        var tail := CompactFrom(look.next, rest[1..], look.hinib, here, here, max);
        CompactFromWithinBlocks(drives, look.next, rest[1..], look.hinib, here, here, max, at + CountOf(walk),
                                NextHinib(walk, h));
        assert ([walk] + tail)[1..] == tail;
      }
    }
  }

  // After compaction, no run past the skipped entries crosses a 64 KiB boundary measured from
  // the first compactable sector, or is longer than the transfer limit.
  lemma CompactWithinBlocks(drives: Drives, list: seq<SectorAddr>, skip: nat, max: nat)
    requires 1 <= max <= 128 && AllInstallerForm(drives, list)
    requires skip < |list|
    ensures WithinBlocks(Compact(list, skip, max)[skip..], 0, max)
  {
    InstallerFormWalks(drives, list[skip], 257, 0);
    CompactFromWithinBlocks(drives, list[skip], list[skip + 1..], 257, 0, 0, max, 0, 0);
    assert Compact(list, skip, max)[skip..] == CompactFrom(list[skip], list[skip + 1..], 257, 0, 0, max);
  }
}
