/** The runs map_compact makes, told from the section as it was registered: which entries keep
    their high byte, which join the entry before them, and how far into its run an entry is. */
module Runs {
  import opened Bytes
  import opened SectorAddress
  import opened Compaction

  predicate IsNoCount(a: SectorAddr) { !AccessOf(a).Chs? && NoCount(a.device) }

  predicate SameHigh(a: SectorAddr, b: SectorAddr) {
    ClearNoCount(a.device) == ClearNoCount(b.device) && a.numSect == b.numSect
  }

  // Past the first `skip` entries and the next, an LBA32 entry keeps its high byte only where that
  // or the drive differs from the entry before.
  predicate KeepsHigh(list: seq<SectorAddr>, skip: nat, i: nat)
    requires i < |list|
  {
    IsNoCount(list[i]) && (i <= skip || !SameHigh(list[i - 1], list[i]))
  }

  // The next sector of the same drive; by CHS, of the same track.
  predicate NextSector(a: SectorAddr, b: SectorAddr) {
    && ClearNoCount(a.device) == ClearNoCount(b.device)
    && if AccessOf(a).Chs? then a.track == b.track && a.head == b.head && a.sector + 1 == b.sector
       else Low24(a) + 1 == Low24(b)
  }

  // Entry i can be in one run with the entry before it.
  predicate Joins(list: seq<SectorAddr>, skip: nat, i: nat)
    requires 0 < i < |list|
  {
    NextSector(list[i - 1], list[i]) && !KeepsHigh(list, skip, i - 1) && !KeepsHigh(list, skip, i)
  }

  // The number of entries before entry i in its run. Runs end with a 128-sector block, counted
  // from entry `skip`, and when they are full.
  function RunOffset(list: seq<SectorAddr>, skip: nat, max: nat, i: nat): (k: nat)
    requires i < |list|
    ensures k <= i && (i >= skip ==> k <= i - skip) && (max > 0 ==> k < max)
  {
    if i <= skip then 0
    else
      var k := RunOffset(list, skip, max, i - 1);
      if Joins(list, skip, i) && (i - 1 - k - skip) / 128 == (i - skip) / 128 && k + 1 < max then k + 1 else 0
  }

  // In the loop of map_compact, `walk` is the run of entries s .. i.
  ghost predicate IsRun(list: seq<SectorAddr>, skip: nat, max: nat, s: nat, i: nat, walk: SectorAddr, hinib: int) {
    && skip <= s <= i < |list| && i - s == RunOffset(list, skip, max, i) && i - s < 128
    && AccessOf(list[i]) == AccessOf(list[s]) && ClearNoCount(list[i].device) == ClearNoCount(list[s].device)
    && (if AccessOf(list[s]).Chs? then
          list[i].track == list[s].track && list[i].head == list[s].head && list[i].sector == list[s].sector + (i - s)
        else Low24(list[i]) == Low24(list[s]) + (i - s))
    && if KeepsHigh(list, skip, s) then walk == list[s] && s == i
       else
         && walk == list[s].(device := ClearNoCount(list[s].device), numSect := i - s + 1)
         && (IsNoCount(list[s]) ==> hinib == list[i].numSect && !KeepsHigh(list, skip, i))
  }

  lemma FirstIsRun(drives: Drives, list: seq<SectorAddr>, skip: nat, max: nat)
    requires skip < |list| && AllInstallerForm(drives, list) && max >= 1
    ensures IsRun(list, skip, max, skip, skip, list[skip], 257)
  {
    assert InstallerForm(drives, list[skip]);
    CleanDevice(list[skip].device);
  }

  // map_compact finds its successor adjacent exactly if it joins.
  lemma AdjacentIsJoined(drives: Drives, list: seq<SectorAddr>, skip: nat, max: nat, s: nat, i: nat,
                         walk: SectorAddr, hinib: int)
    requires IsRun(list, skip, max, s, i, walk, hinib) && i + 1 < |list| && AllInstallerForm(drives, list)
    ensures LookAhead(walk, list[i + 1], hinib).adj <==> Joins(list, skip, i + 1)
    ensures LookAhead(walk, list[i + 1], hinib).adj ==> LookAhead(walk, list[i + 1], hinib).hinib == hinib
  {
    hide RunOffset, DriveCode;
    var next := list[i + 1];
    assert InstallerForm(drives, next) && InstallerForm(drives, list[i]) && InstallerForm(drives, list[s]);
    CleanDevice(list[s].device);
    CleanDevice(next.device);
    CleanDevice(list[i].device);
    if ClearNoCount(walk.device) == ClearNoCount(next.device) {
      SameDevice(walk.device, next.device);
    }
  }

  // One round of its loop.
  lemma NextRound(drives: Drives, list: seq<SectorAddr>, skip: nat, max: nat, s: nat, i: nat,
                  walk: SectorAddr, hinib: int)
    requires IsRun(list, skip, max, s, i, walk, hinib) && i + 1 < |list| && AllInstallerForm(drives, list)
    requires 1 <= max <= 128
    ensures var look := LookAhead(walk, list[i + 1], hinib);
            if look.adj && (s - skip) / 128 == (i + 1 - skip) / 128 && walk.numSect < max then
              IsRun(list, skip, max, s, i + 1, walk.(numSect := walk.numSect + 1), look.hinib)
            else RunOffset(list, skip, max, i + 1) == 0 && IsRun(list, skip, max, i + 1, i + 1, look.next, look.hinib)
  {
    hide Low24, DriveCode;
    var next := list[i + 1];
    AdjacentIsJoined(drives, list, skip, max, s, i, walk, hinib);
    assert InstallerForm(drives, next) && InstallerForm(drives, list[i]) && InstallerForm(drives, list[s]);
    CleanDevice(list[s].device);
    CleanDevice(next.device);
    if ClearNoCount(walk.device) == ClearNoCount(next.device) {
      SameDevice(walk.device, next.device);
    }
  }

  // ---------- the runs of a compacted section ----------

  // In a list whose first run begins with entry `at` of the section, a run begins with entry b.
  ghost predicate StartsRun(addrs: seq<SectorAddr>, at: nat, b: nat) {
    addrs != [] && (b == at || (b > at && StartsRun(addrs[1..], at + CountOf(addrs[0]), b)))
  }

  lemma RunSize(drives: Drives, list: seq<SectorAddr>, skip: nat, max: nat, s: nat, i: nat, walk: SectorAddr,
                hinib: int)
    requires IsRun(list, skip, max, s, i, walk, hinib) && AllInstallerForm(drives, list)
    ensures CountOf(walk) == i - s + 1
  {
    assert InstallerForm(drives, list[s]);
    CleanDevice(list[s].device);
  }

  lemma {:induction false} RunsOfLoop(drives: Drives, list: seq<SectorAddr>, skip: nat, max: nat, s: nat, i: nat,
                                      walk: SectorAddr, hinib: int, b: nat)
    requires IsRun(list, skip, max, s, i, walk, hinib) && AllInstallerForm(drives, list) && 1 <= max <= 128
    requires i < b < |list|
    ensures StartsRun(CompactFrom(walk, list[i + 1..], hinib, (s - skip) * SECTOR_SIZE, (i - skip) * SECTOR_SIZE, max),
                      s, b)
            <==> RunOffset(list, skip, max, b) == 0
    decreases |list| - i
  {
    hide IsRun, RunOffset, LookAhead, CountOf, KeepsHigh, AllInstallerForm;
    Bounds(list, skip, max, s, i, walk, hinib);
    var look := LookAhead(walk, list[i + 1], hinib);
    NextRound(drives, list, skip, max, s, i, walk, hinib);
    RunSize(drives, list, skip, max, s, i, walk, hinib);
    SameBlock(s - skip, i + 1 - skip);
    assert list[i + 1..][1..] == list[i + 2..];
    if look.adj && (s - skip) / 128 == (i + 1 - skip) / 128 && walk.numSect < max {
      var longer := walk.(numSect := walk.numSect + 1);
      if b == i + 1 {
        JoinedHere(drives, list, skip, max, s, b, longer, look.hinib);
      } else {
        RunsOfLoop(drives, list, skip, max, s, i + 1, longer, look.hinib, b);
      }
    } else {
      var tail := CompactFrom(look.next, list[i + 2..], look.hinib, (i + 1 - skip) * SECTOR_SIZE,
                              (i + 1 - skip) * SECTOR_SIZE, max);
      assert ([walk] + tail)[1..] == tail;
      if b > i + 1 {
        RunsOfLoop(drives, list, skip, max, i + 1, i + 1, look.next, look.hinib, b);
      }
    }
  }

  lemma Bounds(list: seq<SectorAddr>, skip: nat, max: nat, s: nat, i: nat, walk: SectorAddr, hinib: int)
    requires IsRun(list, skip, max, s, i, walk, hinib)
    ensures skip <= s <= i < |list|
  {
  }

  // A run does not begin in the middle of another.
  lemma JoinedHere(drives: Drives, list: seq<SectorAddr>, skip: nat, max: nat, s: nat, b: nat, walk: SectorAddr,
                   hinib: int)
    requires IsRun(list, skip, max, s, b, walk, hinib) && AllInstallerForm(drives, list) && 1 <= max <= 128 && s < b
    ensures RunOffset(list, skip, max, b) != 0
    ensures !StartsRun(CompactFrom(walk, list[b + 1..], hinib, (s - skip) * SECTOR_SIZE, (b - skip) * SECTOR_SIZE, max),
                       s, b)
  {
    FirstRunCovers(drives, list, skip, max, s, b, walk, hinib, b);
  }

  // The first run covers at least the entries already in `walk`.
  lemma {:induction false} FirstRunCovers(drives: Drives, list: seq<SectorAddr>, skip: nat, max: nat, s: nat, i: nat,
                                          walk: SectorAddr, hinib: int, b: nat)
    requires IsRun(list, skip, max, s, i, walk, hinib) && AllInstallerForm(drives, list) && 1 <= max <= 128
    requires s < b <= i
    ensures !StartsRun(CompactFrom(walk, list[i + 1..], hinib, (s - skip) * SECTOR_SIZE, (i - skip) * SECTOR_SIZE, max),
                       s, b)
    decreases |list| - i
  {
    hide IsRun, RunOffset, LookAhead, CountOf, KeepsHigh, AllInstallerForm;
    Bounds(list, skip, max, s, i, walk, hinib);
    RunSize(drives, list, skip, max, s, i, walk, hinib);
    if i + 1 < |list| {
      var look := LookAhead(walk, list[i + 1], hinib);
      NextRound(drives, list, skip, max, s, i, walk, hinib);
      SameBlock(s - skip, i + 1 - skip);
      assert list[i + 1..][1..] == list[i + 2..];
      if look.adj && (s - skip) / 128 == (i + 1 - skip) / 128 && walk.numSect < max {
        FirstRunCovers(drives, list, skip, max, s, i + 1, walk.(numSect := walk.numSect + 1), look.hinib, b);
      } else {
        var tail := CompactFrom(look.next, list[i + 2..], look.hinib, (i + 1 - skip) * SECTOR_SIZE,
                                (i + 1 - skip) * SECTOR_SIZE, max);
        assert ([walk] + tail)[1..] == tail;
      }
    } else {
      assert [walk][1..] == [];
    }
  }

  // The runs of a compacted section begin exactly with the entries that are at offset 0.
  lemma RunsAreAsTold(drives: Drives, list: seq<SectorAddr>, skip: nat, max: nat, b: nat)
    requires AllInstallerForm(drives, list) && 1 <= max <= 128 && skip <= b < |list|
    ensures StartsRun(Compact(list, skip, max)[skip..], skip, b) <==> RunOffset(list, skip, max, b) == 0
  {
    FirstIsRun(drives, list, skip, max);
    assert Compact(list, skip, max)[skip..] == CompactFrom(list[skip], list[skip + 1..], 257, 0, 0, max);
    if b > skip {
      RunsOfLoop(drives, list, skip, max, skip, skip, list[skip], 257, b);
    }
  }
}
