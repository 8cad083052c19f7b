/** What map_end_section returns: it adds up the fifth bytes of the addresses, which are sector
    counts except in NOCOUNT addresses. */
module SectorSum {
  import opened Bytes
  import opened SectorAddress
  import opened Compaction
  import opened MapFile
  import opened Runs

  // The number of sectors a list of addresses stands for.
  function SectorCount(list: seq<SectorAddr>): nat {
    if list == [] then 0 else CountOf(list[0]) + SectorCount(list[1..])
  }

  lemma {:induction false} CountIsLength(drives: Drives, list: seq<SectorAddr>, h: byte)
    ensures |DecodeAll(drives, list, h)| == SectorCount(list)
  {
    if list != [] {
      CountIsLength(drives, list[1..], NextHinib(list[0], h));
    }
  }

  // Compaction keeps the number of sectors.
  lemma CompactedCount(drives: Drives, list: seq<SectorAddr>, skip: nat, max: nat)
    requires 1 <= max <= 128 && AllInstallerForm(drives, list) && skip < |list|
    ensures SectorCount(Compact(list, skip, max)[skip..]) == |list| - skip
  {
    hide DecodeAll, CompactFrom, CountOf, WalkOk;
    InstallerFormWalks(drives, list[skip], 257, 0);
    CompactFromPreservesMeaning(drives, list[skip], list[skip + 1..], 257, 0, 0, max, 0);
    assert Compact(list, skip, max)[skip..] == CompactFrom(list[skip], list[skip + 1..], 257, 0, 0, max);
    assert [list[skip]] + list[skip + 1..] == list[skip..];
    CountIsLength(drives, Compact(list, skip, max)[skip..], 0);
    CountIsLength(drives, list[skip..], 0);
    SinglesCount(drives, list[skip..]);
  }

  lemma {:induction false} SinglesCount(drives: Drives, list: seq<SectorAddr>)
    requires AllInstallerForm(drives, list)
    ensures SectorCount(list) == |list|
  {
    if list != [] {
      SinglesCount(drives, list[1..]);
    }
  }

  // What the high bytes kept among the first n entries add to the count or, where they are zero,
  // take away from it.
  function Surplus(list: seq<SectorAddr>, skip: nat, n: nat): int
    requires n <= |list|
  {
    if n == 0 then 0
    else Surplus(list, skip, n - 1) + if KeepsHigh(list, skip, n - 1) then list[n - 1].numSect - 1 else 0
  }

  lemma {:induction false} RawSumJoin(a: seq<SectorAddr>, b: seq<SectorAddr>)
    ensures RawSum(a + b) == RawSum(a) + RawSum(b)
  {
    if a == [] {
      assert a + b == b;
    } else {
      RawSumJoin(a[1..], b);
      assert (a + b)[1..] == a[1..] + b;
    }
  }

  // The entries that are not compacted.
  lemma {:induction false} SumOfSingles(drives: Drives, list: seq<SectorAddr>, skip: nat, n: nat)
    requires AllInstallerForm(drives, list) && n <= |list| && n <= skip + 1
    ensures RawSum(list[..n]) == n + Surplus(list, skip, n)
    decreases n
  {
    if n > 0 {
      SumOfSingles(drives, list, skip, n - 1);
      assert list[..n] == list[..n - 1] + [list[n - 1]];
      RawSumAppend(list[..n - 1], list[n - 1]);
      assert InstallerForm(drives, list[n - 1]);
    }
  }

  // One entry more: what a run that has just begun counts.
  lemma RunBegun(drives: Drives, list: seq<SectorAddr>, skip: nat, max: nat, i: nat, walk: SectorAddr, hinib: int)
    requires IsRun(list, skip, max, i, i, walk, hinib) && AllInstallerForm(drives, list)
    ensures walk.numSect == 1 + Surplus(list, skip, i + 1) - Surplus(list, skip, i)
  {
    assert InstallerForm(drives, list[i]);
  }

  lemma RunGrown(drives: Drives, list: seq<SectorAddr>, skip: nat, max: nat, s: nat, i: nat, walk: SectorAddr,
                 hinib: int)
    requires IsRun(list, skip, max, s, i + 1, walk, hinib) && AllInstallerForm(drives, list) && s <= i
    ensures Surplus(list, skip, i + 2) == Surplus(list, skip, i + 1)
  {
    assert InstallerForm(drives, list[s]) && InstallerForm(drives, list[i + 1]);
  }

  lemma {:induction false} SumOfLoop(drives: Drives, list: seq<SectorAddr>, skip: nat, max: nat, s: nat, i: nat,
                                     walk: SectorAddr, hinib: int)
    requires IsRun(list, skip, max, s, i, walk, hinib) && AllInstallerForm(drives, list) && 1 <= max <= 128
    ensures RawSum(CompactFrom(walk, list[i + 1..], hinib, (s - skip) * SECTOR_SIZE, (i - skip) * SECTOR_SIZE, max))
            == walk.numSect + (|list| - 1 - i) + Surplus(list, skip, |list|) - Surplus(list, skip, i + 1)
    decreases |list| - i
  {
    hide IsRun, RunOffset, LookAhead, KeepsHigh, Surplus, AllInstallerForm;
    Bounds(list, skip, max, s, i, walk, hinib);
    if i + 1 == |list| {
      assert RawSum([walk]) == walk.numSect + RawSum([walk][1..]);
    } else {
      var look := LookAhead(walk, list[i + 1], hinib);
      NextRound(drives, list, skip, max, s, i, walk, hinib);
      SameBlock(s - skip, i + 1 - skip);
      assert list[i + 1..][1..] == list[i + 2..];
      if look.adj && (s - skip) / 128 == (i + 1 - skip) / 128 && walk.numSect < max {
        var longer := walk.(numSect := walk.numSect + 1);
        SumOfLoop(drives, list, skip, max, s, i + 1, longer, look.hinib);
        RunGrown(drives, list, skip, max, s, i, longer, look.hinib);
      } else {
        var tail := CompactFrom(look.next, list[i + 2..], look.hinib, (i + 1 - skip) * SECTOR_SIZE,
                                (i + 1 - skip) * SECTOR_SIZE, max);
        SumOfLoop(drives, list, skip, max, i + 1, i + 1, look.next, look.hinib);
        RunBegun(drives, list, skip, max, i + 1, look.next, look.hinib);
        assert ([walk] + tail)[1..] == tail;
      }
    }
  }

  // map_end_section reports the number of mapped sectors, plus the high bytes of the entries that
  // keep them, minus the number of those entries: it is right exactly if these are equal.
  lemma ReportedSectors(drives: Drives, list: seq<SectorAddr>, skip: nat, max: nat)
    requires 1 <= max <= 128 && AllInstallerForm(drives, list)
    ensures RawSum(Compact(list, skip, max)) == |list| + Surplus(list, skip, |list|)
    ensures RawSum(Compact(list, skip, max)) == |list| <==> Surplus(list, skip, |list|) == 0
  {
    if |list| <= skip {
      SumOfSingles(drives, list, skip, |list|);
      assert list[..|list|] == list;
    } else {
      FirstIsRun(drives, list, skip, max);
      SumOfLoop(drives, list, skip, max, skip, skip, list[skip], 257);
      SumOfSingles(drives, list, skip, skip);
      SumOfSingles(drives, list, skip, skip + 1);
      assert list[..skip + 1] == list[..skip] + [list[skip]];
      RawSumAppend(list[..skip], list[skip]);
      RawSumJoin(list[..skip], CompactFrom(list[skip], list[skip + 1..], 257, 0, 0, max));
    }
  }

  // Without COMPACT every entry keeps its high byte.
  lemma ReportedUncompacted(drives: Drives, list: seq<SectorAddr>)
    requires AllInstallerForm(drives, list)
    ensures RawSum(list) == |list| + Surplus(list, |list|, |list|)
  {
    SumOfSingles(drives, list, |list|, |list|);
    assert list[..|list|] == list;
  }

  // Without LBA32 addresses the report is right.
  lemma ReportedWithoutLba32(drives: Drives, m: Mode, list: seq<SectorAddr>, skip: nat, max: nat)
    requires 1 <= max <= 128 && AllInstallerForm(drives, list) && AllInMode(m, list) && !m.Lba32Mode?
    ensures RawSum(Compact(list, skip, max)) == RawSum(list) == |list|
  {
    forall i | 0 <= i < |list|
      ensures !IsNoCount(list[i])
    {
      assert InstallerForm(drives, list[i]) && InMode(m, list[i]);
    }
    NoSurplus(list, skip, |list|);
    NoSurplus(list, |list|, |list|);
    ReportedSectors(drives, list, skip, max);
    ReportedUncompacted(drives, list);
  }

  lemma {:induction false} NoSurplus(list: seq<SectorAddr>, skip: nat, n: nat)
    requires n <= |list| && forall i :: 0 <= i < |list| ==> !IsNoCount(list[i])
    ensures Surplus(list, skip, n) == 0
  {
    if n > 0 {
      NoSurplus(list, skip, n - 1);
    }
  }

  // The entries that keep their high byte.
  function Kept(list: seq<SectorAddr>, skip: nat, n: nat): nat
    requires n <= |list|
  {
    if n == 0 then 0 else Kept(list, skip, n - 1) + if KeepsHigh(list, skip, n - 1) then 1 else 0
  }

  // On the first 8 GB of a disk every high byte is zero.
  ghost predicate AllBelow8Gb(list: seq<SectorAddr>) {
    forall i :: 0 <= i < |list| ==> IsNoCount(list[i]) && list[i].numSect == 0
  }

  lemma {:induction false} SurplusBelow8Gb(list: seq<SectorAddr>, skip: nat, n: nat)
    requires n <= |list| && AllBelow8Gb(list)
    ensures Surplus(list, skip, n) + Kept(list, skip, n) == 0
    ensures n <= skip + 1 ==> Kept(list, skip, n) == n
  {
    if n > 0 {
      SurplusBelow8Gb(list, skip, n - 1);
    }
  }

  // There a section of any length is reported as empty if it is not compacted, and too short by
  // the number of uncompacted entries and changes of drive if it is.
  lemma ReportedTooFew(drives: Drives, list: seq<SectorAddr>, skip: nat, max: nat)
    requires 1 <= max <= 128 && AllInstallerForm(drives, list) && AllBelow8Gb(list)
    ensures RawSum(list) == 0
    ensures RawSum(Compact(list, skip, max)) == |list| - Kept(list, skip, |list|)
    ensures |list| > 0 ==> RawSum(Compact(list, skip, max)) < |list|
  {
    ReportedUncompacted(drives, list);
    ReportedSectors(drives, list, skip, max);
    SurplusBelow8Gb(list, |list|, |list|);
    SurplusBelow8Gb(list, skip, |list|);
    if |list| > 0 {
      KeptGrows(list, skip, 1, |list|);
      SurplusBelow8Gb(list, skip, 1);
    }
  }

  lemma {:induction false} KeptGrows(list: seq<SectorAddr>, skip: nat, m: nat, n: nat)
    requires m <= n <= |list|
    ensures Kept(list, skip, m) <= Kept(list, skip, n)
    decreases n
  {
    if m < n {
      KeptGrows(list, skip, m, n - 1);
    }
  }
}
