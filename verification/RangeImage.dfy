/** Kernels booted from a raw device range (boot_device in boot.c). They are mapped like kernel
    files, except that the installer does not look at the boot sector: instead of the entries
    that the loader takes one by one it always leaves 61 entries uncompacted. */
module RangeImage {
  import opened Bytes
  import opened SectorAddress
  import opened Compaction
  import opened Loader
  import opened SecondStage
  import opened PageChain
  import opened Memory
  import opened HeaderPatches
  import opened BootKernel
  import opened SectorSum
  import opened Runs

  const DONT_COMPACT: nat := 60
  const UNTOUCHED: nat := DONT_COMPACT + 1

  // ---------- what the loader makes of any section ----------

  // The transfers of the kernel proper from the entries `addrs`, once `p` sectors are in place.
  ghost predicate LoadSafe(addrs: seq<SectorAddr>, p: nat) {
    addrs != [] ==>
      && DmaSafe(Transfer(KERNEL_ADDR + SECTOR_SIZE * p, CountOf(addrs[0])))
      && LoadSafe(addrs[1..], p + CountOf(addrs[0]))
  }

  // The loader takes the first 3 + setup entries one by one, for one sector each, and the rest as
  // the kernel proper. The section fits that if those entries are single sectors, and no transfer
  // of the kernel proper crosses a 64 KiB boundary.
  ghost predicate LoadsRight(addrs: seq<SectorAddr>, setup: nat) {
    && SinglesOnly(addrs, 3 + setup)
    && LoadSafe(addrs[Min(3 + setup, |addrs|)..], 0)
  }

  // Sector j of a section whose sector `base` is at the start of the load area is on a boundary.
  predicate OnBoundary(j: nat, base: nat) {
    (j - base) % 128 == 0
  }

  lemma CrossesBlock(base: nat, at: nat, count: nat)
    requires base <= at && 1 <= count <= 128
    ensures DmaSafe(Transfer(KERNEL_ADDR + SECTOR_SIZE * (at - base), count))
            <==> forall j :: at < j < at + count ==> !OnBoundary(j, base)
  {
    var p := at - base;
    var next := base + 128 * (p / 128 + 1);
    assert OnBoundary(next, base);
    forall j | at < j < at + count && j < next
      ensures !OnBoundary(j, base)
    {
      assert (j - base) / 128 == p / 128;
    }
    assert (KERNEL_ADDR + SECTOR_SIZE * p) / 0x1_0000 == 1 + p / 128;
    assert (KERNEL_ADDR + SECTOR_SIZE * (p + count) - 1) / 0x1_0000 == 1 + (p + count - 1) / 128;
    if next >= at + count {
      assert forall j :: at < j < at + count ==> !OnBoundary(j, base);
    }
  }

  ghost predicate CountsAreRuns(addrs: seq<SectorAddr>) {
    forall i :: 0 <= i < |addrs| ==> 1 <= CountOf(addrs[i]) <= 128
  }

  // Every sector on a boundary begins a run.
  ghost predicate BoundariesBegin(addrs: seq<SectorAddr>, at: nat, base: nat) {
    forall j :: at <= j < at + SectorCount(addrs) && OnBoundary(j, base) ==> StartsRun(addrs, at, j)
  }

  lemma BoundariesOfRest(addrs: seq<SectorAddr>, at: nat, base: nat)
    requires addrs != [] && CountOf(addrs[0]) >= 1 && base <= at
    ensures BoundariesBegin(addrs, at, base) <==>
            && (forall j :: at < j < at + CountOf(addrs[0]) ==> !OnBoundary(j, base))
            && BoundariesBegin(addrs[1..], at + CountOf(addrs[0]), base)
  {
    hide CountOf, OnBoundary;
    var c, rest := CountOf(addrs[0]), addrs[1..];
    InsideRun(addrs, at);
    assert forall j :: at + c <= j ==> (StartsRun(addrs, at, j) <==> StartsRun(rest, at + c, j));
  }

  // The transfers are safe exactly if each entry whose sector lands on a boundary begins a run.
  lemma {:induction false} SafeIffRunsBegin(addrs: seq<SectorAddr>, at: nat, base: nat)
    requires CountsAreRuns(addrs) && base <= at
    ensures LoadSafe(addrs, at - base) <==> BoundariesBegin(addrs, at, base)
    decreases |addrs|
  {
    hide CountOf, DmaSafe, OnBoundary, BoundariesBegin;
    if addrs == [] {
      NoBoundaries(at, base);
    } else {
      var c := CountOf(addrs[0]);
      assert CountsAreRuns(addrs[1..]);
      SafeIffRunsBegin(addrs[1..], at + c, base);
      CrossesBlock(base, at, c);
      BoundariesOfRest(addrs, at, base);
    }
  }

  lemma NoBoundaries(at: nat, base: nat)
    ensures BoundariesBegin([], at, base)
  {
  }

  lemma InsideRun(addrs: seq<SectorAddr>, at: nat)
    requires addrs != []
    ensures forall j :: at < j < at + CountOf(addrs[0]) ==> !StartsRun(addrs, at, j)
    ensures StartsRun(addrs, at, at)
  {
  }

  // Behind m single sectors.
  lemma {:induction false} BehindSingles(addrs: seq<SectorAddr>, at: nat, m: nat, j: nat)
    requires m <= |addrs| && forall i :: 0 <= i < m ==> CountOf(addrs[i]) == 1
    requires at <= j && j < at + SectorCount(addrs)
    ensures StartsRun(addrs, at, j) <==> j < at + m || StartsRun(addrs[m..], at + m, j)
    ensures SectorCount(addrs) == m + SectorCount(addrs[m..])
    decreases m
  {
    hide CountOf;
    if m == 0 {
      assert addrs[0..] == addrs;
    } else {
      assert addrs[1..][m - 1..] == addrs[m..];
      assert CountOf(addrs[0]) == 1;
      forall i | 0 <= i < m - 1
        ensures CountOf(addrs[1..][i]) == 1
      {
        assert addrs[1..][i] == addrs[i + 1];
      }
      if j > at {
        BehindSingles(addrs[1..], at + 1, m - 1, j);
      } else {
        BehindSizes(addrs, m);
      }
    }
  }

  lemma {:induction false} BehindSizes(addrs: seq<SectorAddr>, m: nat)
    requires m <= |addrs| && forall i :: 0 <= i < m ==> CountOf(addrs[i]) == 1
    ensures SectorCount(addrs) == m + SectorCount(addrs[m..])
  {
    hide CountOf;
    if m > 0 {
      assert CountOf(addrs[0]) == 1;
      assert addrs[1..][m - 1..] == addrs[m..];
      assert forall i :: 0 <= i < m - 1 ==> addrs[1..][i] == addrs[i + 1];
      BehindSizes(addrs[1..], m - 1);
    } else {
      assert addrs[0..] == addrs;
    }
  }

  ghost predicate SinglesOnly(addrs: seq<SectorAddr>, m: nat) {
    forall i :: 0 <= i < m && i < |addrs| ==> CountOf(addrs[i]) == 1
  }

  ghost predicate NextBegin(addrs: seq<SectorAddr>, at: nat, m: nat) {
    forall j :: at < j <= at + m && j < at + SectorCount(addrs) ==> StartsRun(addrs, at, j)
  }

  lemma SinglesOfRest(addrs: seq<SectorAddr>, at: nat, m: nat)
    requires m > 0 && addrs != [] && CountOf(addrs[0]) == 1
    ensures SinglesOnly(addrs, m) <==> SinglesOnly(addrs[1..], m - 1)
    ensures NextBegin(addrs, at, m) <==> NextBegin(addrs[1..], at + 1, m - 1)
  {
    hide CountOf;
    var rest := addrs[1..];
    if SinglesOnly(rest, m - 1) {
      forall i | 0 <= i < m && i < |addrs|
        ensures CountOf(addrs[i]) == 1
      {
        assert i > 0 ==> addrs[i] == rest[i - 1];
      }
    }
    assert SectorCount(addrs) == 1 + SectorCount(rest);
    assert SectorCount(rest) > 0 ==> rest != [] && StartsRun(rest, at + 1, at + 1);
    if NextBegin(rest, at + 1, m - 1) {
      forall j | at < j <= at + m && j < at + SectorCount(addrs)
        ensures StartsRun(addrs, at, j)
      {
        assert j > at + 1 ==> StartsRun(rest, at + 1, j);
      }
    }
    if NextBegin(addrs, at, m) {
      var next := at + 1;
      forall j | next < j <= at + m && j < at + SectorCount(addrs)
        ensures StartsRun(rest, next, j)
      {
        assert StartsRun(addrs, at, j);
      }
    }
  }

  // The first m entries are single sectors exactly if runs begin with the m sectors behind the
  // first one.
  lemma {:induction false} SinglesIffRunsBegin(addrs: seq<SectorAddr>, at: nat, m: nat)
    requires CountsAreRuns(addrs)
    ensures SinglesOnly(addrs, m) <==> NextBegin(addrs, at, m)
    decreases m
  {
    hide CountOf;
    if m > 0 && addrs != [] {
      if CountOf(addrs[0]) > 1 {
        InsideRun(addrs, at);
        assert at < at + 1 <= at + m && at + 1 < at + SectorCount(addrs) && !StartsRun(addrs, at, at + 1);
      } else {
        assert CountsAreRuns(addrs[1..]);
        SinglesIffRunsBegin(addrs[1..], at + 1, m - 1);
        SinglesOfRest(addrs, at, m);
      }
    }
  }

  // ---------- a range image ----------

  lemma {:induction false} CountsWithinBlocks(addrs: seq<SectorAddr>, at: nat, max: nat)
    requires WithinBlocks(addrs, at, max) && max <= 128
    ensures CountsAreRuns(addrs)
  {
    hide CountOf;
    if addrs != [] {
      CountsWithinBlocks(addrs[1..], at + CountOf(addrs[0]), max);
      assert forall i :: 1 <= i < |addrs| ==> addrs[i] == addrs[1..][i - 1];
    }
  }

  lemma CompactedCounts(drives: Drives, list: seq<SectorAddr>, skip: nat, max: nat)
    requires AllInstallerForm(drives, list) && 1 <= max <= 128 && skip < |list|
    ensures var addrs := Compact(list, skip, max);
            && |addrs| > skip && addrs[..skip] == list[..skip] && CountsAreRuns(addrs)
            && (forall i :: 0 <= i < skip ==> CountOf(addrs[i]) == 1)
            && SectorCount(addrs[skip..]) == |list| - skip
  {
    hide CountOf;
    var addrs := Compact(list, skip, max);
    assert addrs[..skip] == list[..skip];
    CompactWithinBlocks(drives, list, skip, max);
    CountsWithinBlocks(addrs[skip..], 0, max);
    CompactedCount(drives, list, skip, max);
    forall i | 0 <= i < |addrs|
      ensures 1 <= CountOf(addrs[i]) <= 128 && (i < skip ==> CountOf(addrs[i]) == 1)
    {
      if i < skip {
        assert addrs[i] == list[i];
        InstallerFormCount(drives, list[i]);
      } else {
        assert addrs[i] == addrs[skip..][i - skip];
      }
    }
  }

  lemma InstallerFormCount(drives: Drives, a: SectorAddr)
    requires InstallerForm(drives, a)
    ensures CountOf(a) == 1
  {
  }

  // The entries of the section with which a run has to begin: those behind an entry that is taken
  // for one sector, and those that land on a boundary.
  predicate MustBegin(j: nat, setup: nat) {
    j > UNTOUCHED && (j <= 3 + setup || OnBoundary(j, 3 + setup))
  }

  ghost predicate AllBegin(list: seq<SectorAddr>, max: nat, setup: nat) {
    forall j :: 0 <= j < |list| && MustBegin(j, setup) ==> RunOffset(list, UNTOUCHED, max, j) == 0
  }

  // At most 58 setup sectors: all entries taken one by one are uncompacted.
  lemma KernelBehindSetup(drives: Drives, list: seq<SectorAddr>, max: nat, setup: nat)
    requires AllInstallerForm(drives, list) && 1 <= max <= 128 && |list| > UNTOUCHED && 3 + setup <= UNTOUCHED
    ensures LoadsRight(Compact(list, UNTOUCHED, max), setup) <==> AllBegin(list, max, setup)
  {
    hide CountOf, RunOffset, Compact, OnBoundary;
    var addrs, m: nat := Compact(list, UNTOUCHED, max), 3 + setup;
    CompactedCounts(drives, list, UNTOUCHED, max);
    var kernel, singles: nat := addrs[m..], UNTOUCHED - m;
    assert forall i :: 0 <= i < |kernel| ==> kernel[i] == addrs[m + i];
    assert kernel[singles..] == addrs[UNTOUCHED..];
    BehindSizes(kernel, singles);
    SafeIffRunsBegin(kernel, m, m);
    forall j | m <= j < |list|
      ensures StartsRun(kernel, m, j) <==> j <= UNTOUCHED || RunOffset(list, UNTOUCHED, max, j) == 0
    {
      BehindSingles(kernel, m, singles, j);
      if j >= UNTOUCHED {
        RunsAreAsTold(drives, list, UNTOUCHED, max, j);
        InsideRun(addrs[UNTOUCHED..], UNTOUCHED);
      }
    }
  }

  // More than 58: the loader takes merged runs for single setup sectors.
  lemma KernelBehindRuns(drives: Drives, list: seq<SectorAddr>, max: nat, setup: nat)
    requires AllInstallerForm(drives, list) && 1 <= max <= 128 && |list| > UNTOUCHED && 3 + setup > UNTOUCHED
    ensures LoadsRight(Compact(list, UNTOUCHED, max), setup) <==> AllBegin(list, max, setup)
  {
    hide CountOf, RunOffset, Compact, OnBoundary;
    var addrs, m: nat := Compact(list, UNTOUCHED, max), 3 + setup;
    CompactedCounts(drives, list, UNTOUCHED, max);
    var runs, singles: nat := addrs[UNTOUCHED..], m - UNTOUCHED;
    assert forall i :: 0 <= i < |runs| ==> runs[i] == addrs[UNTOUCHED + i];
    SinglesIffRunsBegin(runs, UNTOUCHED, singles);
    assert SinglesOnly(addrs, m) <==> SinglesOnly(runs, singles);
    forall j | UNTOUCHED <= j < |list|
      ensures StartsRun(runs, UNTOUCHED, j) <==> RunOffset(list, UNTOUCHED, max, j) == 0
    {
      RunsAreAsTold(drives, list, UNTOUCHED, max, j);
    }
    if SinglesOnly(runs, singles) {
      if |runs| <= singles {
        BehindSizes(runs, |runs|);
        assert runs[|runs|..] == [];
      } else {
        var kernel := addrs[m..];
        assert kernel == runs[singles..];
        BehindSizes(runs, singles);
        SafeIffRunsBegin(kernel, m, m);
        forall j | m <= j < |list|
          ensures StartsRun(kernel, m, j) <==> RunOffset(list, UNTOUCHED, max, j) == 0
        {
          BehindSingles(runs, UNTOUCHED, singles, j);
        }
      }
    }
  }

  // For every section, in whatever form its addresses are, and every setup count: the compacted
  // section of a range image loads right exactly if a run begins with each entry it has to.
  lemma RangeLoads(drives: Drives, list: seq<SectorAddr>, max: nat, setup: nat)
    requires AllInstallerForm(drives, list) && 1 <= max <= 128
    ensures LoadsRight(Compact(list, UNTOUCHED, max), setup) <==> AllBegin(list, max, setup)
  {
    hide CountOf, RunOffset, OnBoundary;
    if |list| > UNTOUCHED {
      if 3 + setup <= UNTOUCHED {
        KernelBehindSetup(drives, list, max, setup);
      } else {
        KernelBehindRuns(drives, list, max, setup);
      }
    } else {
      var m := Min(3 + setup, |list|);
      forall i | 0 <= i < |list|
        ensures CountOf(list[i]) == 1
      {
        InstallerFormCount(drives, list[i]);
      }
      SinglesAreSafe(list[m..], 0);
    }
  }

  lemma {:induction false} SinglesAreSafe(addrs: seq<SectorAddr>, p: nat)
    requires forall i :: 0 <= i < |addrs| ==> CountOf(addrs[i]) == 1
    ensures LoadSafe(addrs, p)
    decreases |addrs|
  {
    hide CountOf;
    if addrs != [] {
      CrossesBlock(0, p, 1);
      assert forall i :: 0 <= i < |addrs| - 1 ==> addrs[1..][i] == addrs[i + 1];
      SinglesAreSafe(addrs[1..], p + 1);
    }
  }

  // With at most 58 setup sectors a section that loads right is as good as one mapped from a file.
  lemma RangeRepresents(drives: Drives, m: Mode, list: seq<SectorAddr>, lba32: bool, setup: nat)
    requires AllInstallerForm(drives, list) && AllInMode(m, list) && (m.Lba32Mode? ==> lba32)
    requires 3 + setup <= UNTOUCHED && LoadsRight(Compact(list, UNTOUCHED, MaxCount(lba32)), setup)
    ensures Represents(drives, m, Compact(list, UNTOUCHED, MaxCount(lba32)), list, 3 + setup)
  {
    hide CountOf, RunOffset, OnBoundary, DecodeAll, LoadSafe, CompactFrom, SinglesOnly, InstallerForm, Runnable;
    var max, n: nat := MaxCount(lba32), 3 + setup;
    var addrs := Compact(list, UNTOUCHED, max);
    if |list| > n {
      var kernel, tail := addrs[n..], list[n..];
      TailOfCompact(list, UNTOUCHED, max, n);
      RangeRunnable(drives, m, tail, UNTOUCHED - n, max);
      SafeWithinBlocks(drives, m, kernel, 0);
      SameTargets(drives, m, tail, UNTOUCHED - n, max);
    }
  }

  // boot_device's section, booted: it is loaded low, with the outcome of any other kernel.
  method BootRange(s: SecondStage, start: SectorAddr, dflcmd: SectorAddr, lock: bool, x: Patches, lba32: bool,
                   ghost list: seq<SectorAddr>)
    returns (r: Loaded)
    requires s.Valid() && GoodLink(s.drives, s.mode, start) && GoodLink(s.drives, s.mode, dflcmd)
    requires AllInstallerForm(s.drives, list) && AllInMode(s.mode, list) && (s.mode.Lba32Mode? ==> lba32)
    requires ChainAt(s.drives, s.mode, s.disk, SectorBehind(s.drives, s.disk, start), 0,
                     Compact(list, UNTOUCHED, MaxCount(lba32)))
    requires |list| >= 3
    requires var setup := SetupCount(SectorBehind(s.drives, s.disk, list[2]));
             && 3 + setup <= UNTOUCHED && LoadsRight(Compact(list, UNTOUCHED, MaxCount(lba32)), setup)
             && |list| - 3 - setup <= MAX_KERNEL_SECS
    modifies s
    ensures var refs := Targets(s.drives, list);
            && (r == Failed <==> !AllCanRead(s.drives, refs))
            && (r == Done <==> AllCanRead(s.drives, refs))
            && (r == Done ==> Booted(s.mem, s.ext, Content(s.disk, refs), x, false, 0)
                              && Grown(old(s.transfers), s.transfers, |list|))
    ensures AllDmaSafe(s.transfers)
  {
    hide LoadsRight, Compact, Represents, AllCanRead, Booted, Grown, ChainAt, GoodLink, SectorBehind, InstallerForm,
         InMode, DmaSafe;
    ghost var setup := SetupCount(SectorBehind(s.drives, s.disk, list[2]));
    RangeRepresents(s.drives, s.mode, list, lba32, setup);
    r := BootImage(s, start, dflcmd, 0, lock, x, Compact(list, UNTOUCHED, MaxCount(lba32)), list);
  }

  lemma SameTargets(drives: Drives, m: Mode, list: seq<SectorAddr>, skip: nat, max: nat)
    requires AllInstallerForm(drives, list) && AllInMode(m, list) && max <= 128
    ensures forall h: byte :: HinibFits(m, h) ==>
              DecodeAll(drives, Compact(list, skip, max), h) == Targets(drives, list)
  {
    hide DecodeAll, Compact;
    forall h: byte | HinibFits(m, h)
      ensures DecodeAll(drives, Compact(list, skip, max), h) == Targets(drives, list)
    {
      CompactPreservesMeaning(drives, list, skip, max, h);
      DecodeAllInstallerForm(drives, m, list, h);
    }
  }

  lemma TailOfCompact(list: seq<SectorAddr>, skip: nat, max: nat, n: nat)
    requires max <= 128 && n <= skip && n < |list|
    ensures var addrs := Compact(list, skip, max);
            |addrs| > n && addrs[..n] == list[..n] && addrs[n..] == Compact(list[n..], skip - n, max)
  {
    hide CompactFrom;
    if |list| > skip {
      var runs := CompactFrom(list[skip], list[skip + 1..], 257, 0, 0, max);
      assert list[n..][..skip - n] == list[n..skip] && list[n..][skip - n + 1..] == list[skip + 1..];
      assert (list[..skip] + runs)[n..] == list[n..skip] + runs;
      assert (list[..skip] + runs)[..n] == list[..n];
    }
  }

  lemma RangeRunnable(drives: Drives, m: Mode, list: seq<SectorAddr>, skip: nat, max: nat)
    requires 1 <= max <= 128 && (m.Lba32Mode? ==> max <= 127)
    requires AllInstallerForm(drives, list) && AllInMode(m, list)
    ensures AllRunnable(drives, m, Compact(list, skip, max))
  {
    hide Runnable, InMode, CompactFrom, InstallerForm;
    var addrs := Compact(list, skip, max);
    CompactIsRunnable(drives, m, list, skip, max);
    forall i | 0 <= i < |addrs|
      ensures Runnable(drives, addrs[i]) && InMode(m, addrs[i])
    {
      if i < skip || |list| <= skip {
        assert addrs[i] == list[i];
        InstallerFormIsRunnable(drives, list[i]);
      } else {
        assert addrs[i] == addrs[skip..][i - skip];
      }
    }
  }

  lemma {:induction false} SafeWithinBlocks(drives: Drives, m: Mode, addrs: seq<SectorAddr>, p: nat)
    requires LoadSafe(addrs, p) && AllRunnable(drives, m, addrs)
    ensures WithinBlocks(addrs, p, 128)
    decreases |addrs|
  {
    hide Runnable, CountOf;
    if addrs != [] {
      assert Runnable(drives, addrs[0]);
      RunnableCount(drives, addrs[0]);
      var c := CountOf(addrs[0]);
      SafeWithinBlocks(drives, m, addrs[1..], p + c);
      assert (KERNEL_ADDR + SECTOR_SIZE * p) / 0x1_0000 == 1 + p / 128;
      assert (KERNEL_ADDR + SECTOR_SIZE * (p + c) - 1) / 0x1_0000 == 1 + (p + c - 1) / 128;
    }
  }

  lemma RunnableCount(drives: Drives, a: SectorAddr)
    requires Runnable(drives, a)
    ensures 1 <= CountOf(a) <= 128
  {
  }
}
