/** What the general condition on range images comes to for the three forms of addresses: which
    kernels on consecutive sectors load right. */
module RangeForms {
  import opened Bytes
  import opened SectorAddress
  import opened Geometry
  import opened FileSectors
  import opened Compaction
  import opened MapSection
  import opened Runs
  import opened RangeImage

  // Two special sectors and then the sectors of a disk from `first` on.
  ghost predicate IsRange(list: seq<SectorAddr>, g: Geo, o: Options, first: nat) {
    |list| >= 2 && forall i :: 2 <= i < |list| ==> InRange(list, g, o, first, i)
  }

  predicate InRange(list: seq<SectorAddr>, g: Geo, o: Options, first: nat, i: nat)
    requires 2 <= i < |list|
  {
    !OutOfReach(g, o, first + i - 2) && list[i] == AddressBytes(g, o, first + i - 2)
  }

  // ---------- the section boot_device builds ----------

  lemma {:induction false} RangeSection(f: HostFile, zero: SectorAddr, start: nat, n: nat, special: seq<SectorAddr>)
    requires !f.geo.file && |special| == 2 && FileEntries(f, zero, start, n).Entries?
    ensures var list := special + FileEntries(f, zero, start, n).list;
            |list| == n + 2 && IsRange(list, f.geo, f.options, start + f.geo.start)
  {
    hide OutOfReach, AddressBytes, SectorNumber;
    if n > 0 {
      RangeSection(f, zero, start, n - 1, special);
      var before := special + FileEntries(f, zero, start, n - 1).list;
      var list := special + FileEntries(f, zero, start, n).list;
      DeviceEntry(f, zero, n - 1 + start);
      assert list == before + [EntryFor(f, zero, n - 1 + start)];
      var first := start + f.geo.start;
      forall i | 2 <= i < |list|
        ensures InRange(list, f.geo, f.options, first, i)
      {
        assert i < n + 1 ==> InRange(before, f.geo, f.options, first, i);
      }
    }
  }

  lemma DeviceEntry(f: HostFile, zero: SectorAddr, k: nat)
    requires !f.geo.file && !f.Located(k).Fatal?
    ensures !OutOfReach(f.geo, f.options, k + f.geo.start)
    ensures EntryFor(f, zero, k) == AddressBytes(f.geo, f.options, k + f.geo.start)
  {
    SectorOfFile(f, k);
  }

  // ---------- neighbouring sectors ----------

  lemma LinearPair(g: Geo, o: Options, sector: nat)
    requires UsesFlags(g, o) && o.linear && !OutOfReach(g, o, sector) && !OutOfReach(g, o, sector + 1)
    ensures var a, b := AddressBytes(g, o, sector), AddressBytes(g, o, sector + 1);
            NextSector(a, b) && !IsNoCount(a) && !IsNoCount(b)
  {
    hide FlaggedBytes, ChsBytes, CylinderNr, HeadNr, SectorNr, Low24, ClearNoCount;
    Lows(g.device, true, sector);
    Lows(g.device, true, sector + 1);
  }

  lemma Lba32Pair(g: Geo, o: Options, sector: nat)
    requires UsesFlags(g, o) && !o.linear
    ensures var a, b := AddressBytes(g, o, sector), AddressBytes(g, o, sector + 1);
            && IsNoCount(a) && IsNoCount(b)
            && (SameHigh(a, b) <==> (sector + 1) % TWO_24 != 0)
            && (SameHigh(a, b) ==> NextSector(a, b))
  {
    hide FlaggedBytes, ChsBytes, CylinderNr, HeadNr, SectorNr, Low24, ClearNoCount;
    Lows(g.device, false, sector);
    Lows(g.device, false, sector + 1);
    NextRegion(sector);
  }

  lemma NextRegion(sector: nat)
    ensures if (sector + 1) % TWO_24 == 0 then (sector + 1) / TWO_24 == sector / TWO_24 + 1
            else (sector + 1) / TWO_24 == sector / TWO_24 && (sector + 1) % TWO_24 == sector % TWO_24 + 1
  {
  }

  lemma Lows(device: byte, linear: bool, sector: nat)
    requires 0x80 <= device < 0x90
    ensures var a := FlaggedBytes(device, linear, sector);
            && Low24(a) == sector % TWO_24 && AccessOf(a) == (if linear then Linear else Lba32)
            && NoCount(a.device) == !linear && (!linear ==> a.numSect == sector / TWO_24 % 256)
            && ClearNoCount(a.device) == device + if linear then LINEAR_FLAG else LBA32_FLAG
  {
    var q1 := sector / 256;
    var q2 := q1 / 256;
    assert sector == q2 / 256 * TWO_24 + (q2 % 256 * 0x1_0000 + q1 % 256 * 0x100 + sector % 256);
    assert sector / TWO_24 == q2 / 256;
  }

  lemma ChsPair(g: Geo, o: Options, sector: nat)
    requires !UsesFlags(g, o) && !OutOfReach(g, o, sector) && !OutOfReach(g, o, sector + 1)
    ensures var a, b := AddressBytes(g, o, sector), AddressBytes(g, o, sector + 1);
            (NextSector(a, b) <==> Rem(sector + 1, g.sectors) != 0) && !IsNoCount(a) && !IsNoCount(b)
  {
    hide ChsBytes, CylinderNr, HeadNr, SectorNr, FlaggedBytes, NextSector, IsNoCount, Quot, Rem, AccessOf;
    var q, r := Quot(sector, g.sectors), Rem(sector, g.sectors);
    var last := r + 1 == g.sectors;
    QuotientIsUnique(sector + 1, g.sectors, if last then q + 1 else q, if last then 0 else r + 1);
    Coordinates(g, sector);
    Coordinates(g, sector + 1);
    ChsNeighbours(AddressBytes(g, o, sector), AddressBytes(g, o, sector + 1), r, g.sectors, Quot(q, g.heads) / 256,
                  Quot(Quot(sector + 1, g.sectors), g.heads) / 256);
  }

  // Two places that follow each other on a track, or the end of a track and the start of another.
  lemma ChsNeighbours(a: SectorAddr, b: SectorAddr, place: nat, spt: nat, high: nat, nextHigh: nat)
    requires AccessOf(a) == Chs && AccessOf(b) == Chs && a.device == b.device && place < spt <= 63
    requires a.sector == place + 1 + high * 64
    requires if place + 1 == spt then b.sector == 1 + nextHigh * 64
             else b.sector == place + 2 + high * 64 && b.track == a.track && b.head == a.head
    ensures (NextSector(a, b) <==> place + 1 != spt) && !IsNoCount(a) && !IsNoCount(b)
  {
  }

  // The bytes of a CHS address, by track and place on the track.
  lemma Coordinates(g: Geo, sector: nat)
    requires CylinderNr(g, sector) < BIOS_MAX_CYLS
    ensures var track, place := Quot(sector, g.sectors), Rem(sector, g.sectors);
            var a := ChsBytes(g.device, CylinderNr(g, sector), HeadNr(g, sector), SectorNr(g, sector));
            && a.sector == place + 1 + Quot(track, g.heads) / 256 * 64
            && a.track == Quot(track, g.heads) % 256 && a.head == Rem(track, g.heads) && a.device == g.device
            && AccessOf(a) == Chs
  {
    hide Quot, Rem;
  }

  // ---------- how far into its run an entry is ----------

  // A run lies within one block.
  lemma {:induction false} RunInBlock(list: seq<SectorAddr>, skip: nat, max: nat, i: nat)
    requires skip <= i < |list|
    ensures (i - RunOffset(list, skip, max, i) - skip) / 128 == (i - skip) / 128
    decreases i
  {
    hide Joins;
    if i > skip {
      RunInBlock(list, skip, max, i - 1);
    }
  }

  lemma BlockStart(b: nat)
    requires b >= 1
    ensures (b - 1) / 128 == b / 128 <==> b % 128 != 0
    ensures b % 128 != 0 ==> (b - 1) % 128 == b % 128 - 1
  {
  }

  lemma OneStep(list: seq<SectorAddr>, max: nat, i: nat)
    requires UNTOUCHED < i < |list|
    ensures var k := RunOffset(list, UNTOUCHED, max, i - 1);
            RunOffset(list, UNTOUCHED, max, i)
            == if Joins(list, UNTOUCHED, i) && (i - UNTOUCHED) % 128 != 0 && k + 1 < max then k + 1 else 0
  {
    hide Joins;
    RunInBlock(list, UNTOUCHED, max, i - 1);
    BlockStart(i - UNTOUCHED);
  }

  lemma {:induction false} LinearRuns(list: seq<SectorAddr>, g: Geo, o: Options, first: nat, i: nat)
    requires IsRange(list, g, o, first) && UsesFlags(g, o) && o.linear && UNTOUCHED <= i < |list|
    ensures RunOffset(list, UNTOUCHED, 128, i) == (i - UNTOUCHED) % 128
    decreases i
  {
    hide RunOffset, NextSector, AddressBytes, OutOfReach;
    if i > UNTOUCHED {
      LinearRuns(list, g, o, first, i - 1);
      OneStep(list, 128, i);
      BlockStart(i - UNTOUCHED);
      assert InRange(list, g, o, first, i - 1) && InRange(list, g, o, first, i);
      LinearPair(g, o, first + (i - 1) - 2);
    } else {
      NoOffset(list, 128);
    }
  }

  lemma NoOffset(list: seq<SectorAddr>, max: nat)
    ensures forall i :: 0 <= i < |list| && i <= UNTOUCHED ==> RunOffset(list, UNTOUCHED, max, i) == 0
  {
  }

  // The sector numbers get a new high byte with entry i.
  predicate NewHigh(first: nat, i: nat) {
    i >= 2 && (first + i - 2) % TWO_24 == 0
  }

  predicate NoNewHigh(first: nat, lo: nat, hi: nat) {
    forall i :: lo <= i <= hi ==> !NewHigh(first, i)
  }

  // LBA32 runs: an entry that keeps its high byte stands alone, and so does the last of a block
  // whose first 127 sectors have made a full run.
  predicate Lba32Begins(first: nat, i: nat)
    requires i >= UNTOUCHED
  {
    var b := i - UNTOUCHED;
    || b % 128 == 0 || b == 1 || NewHigh(first, i) || NewHigh(first, i - 1)
    || (b % 128 == 127 && b > 127 && NoNewHigh(first, i - 127, i - 1))
  }

  lemma Lba32Joins(list: seq<SectorAddr>, g: Geo, o: Options, first: nat, i: nat)
    requires IsRange(list, g, o, first) && UsesFlags(g, o) && !o.linear && UNTOUCHED < i < |list|
    ensures Joins(list, UNTOUCHED, i) <==> i > UNTOUCHED + 1 && !NewHigh(first, i) && !NewHigh(first, i - 1)
  {
    hide NextSector, SameHigh, IsNoCount, AddressBytes, OutOfReach;
    assert InRange(list, g, o, first, i - 2) && InRange(list, g, o, first, i - 1) && InRange(list, g, o, first, i);
    Lba32Pair(g, o, first + (i - 2) - 2);
    Lba32Pair(g, o, first + (i - 1) - 2);
  }

  // A run that began with its block has not been interrupted.
  lemma {:induction false} WholeRuns(list: seq<SectorAddr>, g: Geo, o: Options, first: nat, i: nat)
    requires IsRange(list, g, o, first) && UsesFlags(g, o) && !o.linear && UNTOUCHED <= i < |list|
    ensures var b := i - UNTOUCHED;
            RunOffset(list, UNTOUCHED, 127, i) <= b % 128
    ensures var b := i - UNTOUCHED;
            1 <= b % 128 <= 126 ==>
              (RunOffset(list, UNTOUCHED, 127, i) == b % 128 <==> b >= 128 && NoNewHigh(first, i - b % 128, i))
    decreases i
  {
    hide RunOffset, Joins, NewHigh, IsRange;
    if i == UNTOUCHED {
      NoOffset(list, 127);
    } else {
      WholeRuns(list, g, o, first, i - 1);
      OneStep(list, 127, i);
      BlockStart(i - UNTOUCHED);
      Lba32Joins(list, g, o, first, i);
      var t := (i - UNTOUCHED) % 128;
      if t == 1 {
        assert NoNewHigh(first, i - 1, i) <==> !NewHigh(first, i - 1) && !NewHigh(first, i);
      } else if t > 1 {
        assert NoNewHigh(first, i - t, i) <==> NoNewHigh(first, i - t, i - 1) && !NewHigh(first, i);
      }
    }
  }

  lemma Lba32Runs(list: seq<SectorAddr>, g: Geo, o: Options, first: nat, i: nat)
    requires IsRange(list, g, o, first) && UsesFlags(g, o) && !o.linear && UNTOUCHED <= i < |list|
    ensures RunOffset(list, UNTOUCHED, 127, i) == 0 <==> Lba32Begins(first, i)
  {
    hide RunOffset, Joins, NewHigh, IsRange, NoNewHigh;
    if i == UNTOUCHED {
      NoOffset(list, 127);
    } else {
      WholeRuns(list, g, o, first, i - 1);
      OneStep(list, 127, i);
      BlockStart(i - UNTOUCHED);
      Lba32Joins(list, g, o, first, i);
    }
  }

  // CHS runs are tracks, cut at the blocks.
  lemma {:induction false} ChsRuns(list: seq<SectorAddr>, g: Geo, o: Options, first: nat, max: nat, i: nat)
    requires IsRange(list, g, o, first) && !UsesFlags(g, o) && UNTOUCHED <= i < |list| && max >= 127
    ensures RunOffset(list, UNTOUCHED, max, i) <= Rem(first + i - 2, g.sectors)
    ensures RunOffset(list, UNTOUCHED, max, i) == 0
            <==> (i - UNTOUCHED) % 128 == 0 || Rem(first + i - 2, g.sectors) == 0
    decreases i
  {
    hide RunOffset, NextSector, AddressBytes, OutOfReach;
    if i > UNTOUCHED {
      ChsRuns(list, g, o, first, max, i - 1);
      OneStep(list, max, i);
      assert InRange(list, g, o, first, i - 1) && InRange(list, g, o, first, i);
      ChsPair(g, o, first + (i - 1) - 2);
      NextOnTrack(first + (i - 1) - 2, g.sectors);
    } else {
      NoOffset(list, max);
    }
  }

  lemma NextOnTrack(sector: nat, spt: nat)
    requires 1 <= spt
    ensures Rem(sector + 1, spt) != 0 ==> Rem(sector + 1, spt) == Rem(sector, spt) + 1
  {
    var q, r := Quot(sector, spt), Rem(sector, spt);
    if r + 1 < spt {
      QuotientIsUnique(sector + 1, spt, q, r + 1);
    } else {
      QuotientIsUnique(sector + 1, spt, q + 1, 0);
    }
  }

  // ---------- which range images load right ----------

  // By LINEAR addresses: those with 58 setup sectors, or of at most 129 more sectors than setup
  // sectors if those are fewer, or of at most 60 sectors.
  lemma LinearRangeLoads(drives: Drives, list: seq<SectorAddr>, g: Geo, o: Options, first: nat, setup: nat)
    requires AllInstallerForm(drives, list) && IsRange(list, g, o, first) && UsesFlags(g, o) && o.linear
    ensures LoadsRight(Compact(list, UNTOUCHED, 128), setup)
            <==> |list| <= 62 || setup == 58 || (setup < 58 && |list| <= 131 + setup)
  {
    hide Compact, LoadsRight, RunOffset, IsRange;
    RangeLoads(drives, list, 128, setup);
    NoOffset(list, 128);
    forall i | UNTOUCHED <= i < |list|
      ensures RunOffset(list, UNTOUCHED, 128, i) == (i - UNTOUCHED) % 128
    {
      LinearRuns(list, g, o, first, i);
    }
    if setup < 58 && |list| > 131 + setup {
      assert MustBegin(131 + setup, setup) && RunOffset(list, UNTOUCHED, 128, 131 + setup) != 0;
    } else if setup > 58 && |list| > 62 {
      assert MustBegin(62, setup) && RunOffset(list, UNTOUCHED, 128, 62) != 0;
    } else {
      forall j | 0 <= j < |list| && MustBegin(j, setup)
        ensures RunOffset(list, UNTOUCHED, 128, j) == 0
      {
        LaterBoundary(j, setup);
      }
    }
  }

  // The boundaries behind the uncompacted entries.
  lemma LaterBoundary(j: nat, setup: nat)
    requires MustBegin(j, setup)
    ensures setup <= 58 ==> j >= 131 + setup
    ensures setup == 58 ==> (j - UNTOUCHED) % 128 == 0
    ensures setup > 58 && j > 3 + setup ==> j >= 131 + setup
  {
  }

  // By LBA32 addresses: those where each entry with which a run has to begin does.
  lemma Lba32RangeLoads(drives: Drives, list: seq<SectorAddr>, g: Geo, o: Options, first: nat, setup: nat)
    requires AllInstallerForm(drives, list) && IsRange(list, g, o, first) && UsesFlags(g, o) && !o.linear
    ensures LoadsRight(Compact(list, UNTOUCHED, 127), setup)
            <==> forall j :: UNTOUCHED < j < |list| && MustBegin(j, setup) ==> Lba32Begins(first, j)
  {
    hide Compact, LoadsRight, RunOffset, IsRange, OnBoundary, Lba32Begins;
    RangeLoads(drives, list, 127, setup);
    forall j | UNTOUCHED < j < |list|
      ensures RunOffset(list, UNTOUCHED, 127, j) == 0 <==> Lba32Begins(first, j)
    {
      Lba32Runs(list, g, o, first, j);
    }
  }

  // In figures, where all sectors of the range share their high byte.
  lemma Lba32Figures(drives: Drives, list: seq<SectorAddr>, g: Geo, o: Options, first: nat, setup: nat)
    requires AllInstallerForm(drives, list) && IsRange(list, g, o, first) && UsesFlags(g, o) && !o.linear
    requires NoNewHigh(first, UNTOUCHED, |list|)
    ensures LoadsRight(Compact(list, UNTOUCHED, 127), setup)
            <==> || |list| <= 62 || setup == 58 || (setup < 58 && |list| <= 131 + setup)
                 || (setup == 59 && |list| <= 190) || (setup > 59 && |list| <= 63)
  {
    hide Compact, LoadsRight, IsRange, NewHigh;
    Lba32RangeLoads(drives, list, g, o, first, setup);
    if setup < 58 && |list| > 131 + setup {
      assert MustBegin(131 + setup, setup) && !Lba32Begins(first, 131 + setup);
    } else if setup == 59 && |list| > 190 {
      assert MustBegin(190, setup) && !Lba32Begins(first, 190);
    } else if setup > 59 && |list| > 63 {
      assert MustBegin(63, setup) && !Lba32Begins(first, 63);
    } else {
      forall j | UNTOUCHED < j < |list| && MustBegin(j, setup)
        ensures Lba32Begins(first, j)
      {
        LaterBoundary(j, setup);
      }
    }
  }

  // By CHS addresses: those where each entry with which a run has to begin is the first of a track
  // or of a block.
  lemma ChsRangeLoads(drives: Drives, list: seq<SectorAddr>, g: Geo, o: Options, first: nat, setup: nat, lba32: bool)
    requires AllInstallerForm(drives, list) && IsRange(list, g, o, first) && !UsesFlags(g, o)
    ensures LoadsRight(Compact(list, UNTOUCHED, MaxCount(lba32)), setup)
            <==> forall j :: 0 <= j < |list| && MustBegin(j, setup) ==>
                   (j - UNTOUCHED) % 128 == 0 || Rem(first + j - 2, g.sectors) == 0
  {
    hide Compact, LoadsRight, RunOffset, IsRange, OnBoundary;
    RangeLoads(drives, list, MaxCount(lba32), setup);
    forall j | 0 <= j < |list| && MustBegin(j, setup)
      ensures RunOffset(list, UNTOUCHED, MaxCount(lba32), j) == 0
              <==> (j - UNTOUCHED) % 128 == 0 || Rem(first + j - 2, g.sectors) == 0
    {
      ChsRuns(list, g, o, first, MaxCount(lba32), j);
    }
  }
}
