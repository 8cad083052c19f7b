/** Compaction merges all it may: map_compact leaves no neighbours that could still be joined. */
module Maximality {
  import opened Bytes
  import opened SectorAddress
  import opened Compaction

  // Run rb continues run ra: reached the same way on the same drive, it starts where ra ends,
  // with the same high byte if the addresses are LBA32.
  predicate Continues(ra: Request, rb: Request) {
    && ra.start.via == rb.start.via && ra.start.drive == rb.start.drive
    && rb.start.lba == ra.start.lba + ra.count
    && (ra.start.via.Lba32? ==> ra.start.lba / TWO_24 == rb.start.lba / TWO_24)
  }

  predicate OnOneTrack(a: SectorAddr, b: SectorAddr) {
    AccessOf(a).Chs? ==> CylinderOf(a) == CylinderOf(b) && a.head == b.head
  }

  // Neighbours a and b could be one run: b continues a, on the same track if by CHS, within
  // the 64 KiB block of a's first sector `at`, and a is neither full nor a NOCOUNT address.
  ghost predicate Mergeable(drives: Drives, a: SectorAddr, b: SectorAddr, h: byte, at: nat, max: nat) {
    && !NoCount(a.device)
    && Continues(Decode(drives, a, h), Decode(drives, b, NextHinib(a, h)))
    && OnOneTrack(a, b)
    && at / 128 == (at + CountOf(a)) / 128
    && CountOf(a) < max
  }

  ghost predicate NoneMergeable(drives: Drives, list: seq<SectorAddr>, h: byte, at: nat, max: nat) {
    |list| >= 2 ==>
      && !Mergeable(drives, list[0], list[1], h, at, max)
      && NoneMergeable(drives, list[1..], NextHinib(list[0], h), at + CountOf(list[0]), max)
  }

  // Two addresses that start the same run, possibly with different counts.
  ghost predicate SameStart(drives: Drives, a: SectorAddr, b: SectorAddr, h: byte) {
    && Decode(drives, a, h).start == Decode(drives, b, h).start
    && AccessOf(a) == AccessOf(b) && CylinderOf(a) == CylinderOf(b) && a.head == b.head
  }

  // Merging never touches where a run starts.
  lemma {:induction false} HeadKeepsStart(drives: Drives, walk: SectorAddr, rest: seq<SectorAddr>, hinib: int,
                                          offset: nat, noffset: nat, max: nat, h: byte)
    requires max <= 128
    requires WalkOk(drives, walk, hinib, h) && AllInstallerForm(drives, rest)
    ensures var out := CompactFrom(walk, rest, hinib, offset, noffset, max);
            out != [] && SameStart(drives, walk, out[0], h)
    decreases |rest|
  {
    hide Decode, NextHinib, LookAhead, WalkOk;
    if rest != [] {
      var look := LookAhead(walk, rest[0], hinib);
      var here := noffset + SECTOR_SIZE;
      if look.adj && offset / 0x1_0000 == here / 0x1_0000 && walk.numSect < max {
        MergedRun(drives, walk, rest[0], hinib, h);
        HeadKeepsStart(drives, walk.(numSect := walk.numSect + 1), rest[1..], look.hinib, offset, here, max, h);
      }
    }
  }

  // Whatever continues walk is recognised by map_compact as adjacent.
  lemma ContinuationIsAdjacent(drives: Drives, walk: SectorAddr, next: SectorAddr, hinib: int, h: byte)
    requires WalkOk(drives, walk, hinib, h) && InstallerForm(drives, next)
    requires !NoCount(walk.device)
    requires Continues(Decode(drives, walk, h), Decode(drives, next, h)) && OnOneTrack(walk, next)
    ensures LookAhead(walk, next, hinib).adj
  {
    match AccessOf(walk)
    case Chs => TrackContinuation(drives, walk, next);
    case Linear => RunContinuation(walk, next);
    case Lba32 =>
      assert Decode(drives, walk, h).start.lba / TWO_24 == h;
      assert Decode(drives, next, h).start.lba / TWO_24 == next.numSect;
      RunContinuation(walk, next);
  }

  lemma TrackContinuation(drives: Drives, walk: SectorAddr, next: SectorAddr)
    requires AccessOf(walk).Chs? && AccessOf(next).Chs?
    requires walk.device == next.device && CylinderOf(walk) == CylinderOf(next) && walk.head == next.head
    requires ChsToLba(drives(next.device), CylinderOf(next), next.head, next.sector % 64)
             == ChsToLba(drives(walk.device), CylinderOf(walk), walk.head, walk.sector % 64) + walk.numSect
    ensures Follows(walk, next)
  {
  }

  // Equal flags and equal drive code leave at most NOCOUNT to differ.
  lemma RunContinuation(walk: SectorAddr, next: SectorAddr)
    requires AccessOf(walk) == AccessOf(next) && !AccessOf(walk).Chs? && !NoCount(walk.device)
    requires AccessOf(walk).Linear? ==> IsLba32(walk.device) == IsLba32(next.device) && !NoCount(next.device)
    requires DriveCode(walk.device) == DriveCode(next.device)
    ensures ClearNoCount(walk.device) == ClearNoCount(next.device)
  {
    DeviceBits(walk.device);
    DeviceBits(next.device);
  }

  lemma DeviceBits(d: byte)
    ensures d == DriveCode(d) + (if IsLinear(d) then 0x40 else 0) + (if IsLba32(d) then 0x20 else 0)
                 + (if NoCount(d) then 0x10 else 0)
  {
    var q := d / 0x10;
    var r := q / 2;
    var s := r / 2;
    assert d / 0x20 == r && d / 0x40 == s && d / 0x80 == s / 2;
  }

  lemma {:induction false} CompactFromIsMaximal(drives: Drives, walk: SectorAddr, rest: seq<SectorAddr>, hinib: int,
                                                offset: nat, noffset: nat, max: nat, at: nat, h: byte)
    requires 1 <= max <= 128
    requires WalkOk(drives, walk, hinib, h) && AllInstallerForm(drives, rest)
    requires 1 <= CountOf(walk)
    requires offset == at * SECTOR_SIZE && noffset == (at + CountOf(walk) - 1) * SECTOR_SIZE
    ensures NoneMergeable(drives, CompactFrom(walk, rest, hinib, offset, noffset, max), h, at, max)
    decreases |rest|
  {
    hide Decode, NextHinib, LookAhead, CountOf, WalkOk, Continues, OnOneTrack;
    if rest != [] {
      var look := LookAhead(walk, rest[0], hinib);
      var here := noffset + SECTOR_SIZE;
      SameBlock(at, at + CountOf(walk));
      if look.adj && offset / 0x1_0000 == here / 0x1_0000 && walk.numSect < max {
        var longer := walk.(numSect := walk.numSect + 1);
        MergedRun(drives, walk, rest[0], hinib, h);
        CompactFromIsMaximal(drives, longer, rest[1..], look.hinib, offset, here, max, at, h);
      } else {
        var h' := NextHinib(walk, h);
        SuccessorKept(drives, walk, rest[0], hinib, h);
        var tail := CompactFrom(look.next, rest[1..], look.hinib, here, here, max);
        CompactFromIsMaximal(drives, look.next, rest[1..], look.hinib, here, here, max, at + CountOf(walk), h');
        HeadKeepsStart(drives, look.next, rest[1..], look.hinib, here, here, max, h');
        NotMergeable(drives, walk, rest[0], tail[0], hinib, h, at, max);
        assert ([walk] + tail)[1..] == tail;
      }
    }
  }

  // The entry after a finished run cannot join it, however long it has grown itself.
  lemma NotMergeable(drives: Drives, walk: SectorAddr, next: SectorAddr, grown: SectorAddr, hinib: int, h: byte,
                     at: nat, max: nat)
    requires WalkOk(drives, walk, hinib, h) && InstallerForm(drives, next) && max <= 128
    requires var look := LookAhead(walk, next, hinib);
             && SameStart(drives, look.next, grown, NextHinib(walk, h))
             && !(look.adj && at / 128 == (at + CountOf(walk)) / 128 && walk.numSect < max)
    ensures !Mergeable(drives, walk, grown, h, at, max)
  {
    hide Decode, WalkOk;
    if Mergeable(drives, walk, grown, h, at, max) {
      SuccessorKept(drives, walk, next, hinib, h);
      ContinuationIsAdjacent(drives, walk, next, hinib, h);
    }
  }

  // map_compact leaves nothing to merge past the entries it skips.
  lemma CompactIsMaximal(drives: Drives, list: seq<SectorAddr>, skip: nat, max: nat, h: byte)
    requires 1 <= max <= 128 && AllInstallerForm(drives, list)
    requires skip < |list|
    ensures NoneMergeable(drives, Compact(list, skip, max)[skip..], h, 0, max)
  {
    InstallerFormWalks(drives, list[skip], 257, h);
    CompactFromIsMaximal(drives, list[skip], list[skip + 1..], 257, 0, 0, max, 0, h);
    assert Compact(list, skip, max)[skip..] == CompactFrom(list[skip], list[skip + 1..], 257, 0, 0, max);
  }
}
