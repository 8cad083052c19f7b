/** Booting a kernel image (doboot in second.S): the order in which the sections of an image's
    map are loaded, and the memory image they leave. */
module BootKernel {
  import opened Bytes
  import opened SectorAddress
  import opened Compaction
  import opened Memory
  import opened PageChain
  import opened Loader
  import opened SecondStage
  import opened HeaderPatches
  import opened KernelHeader

  const SECONDSEG: word := 0x0B00        // built with LARGE_EBDA
  const INITSEG: word := 0x9000
  const SETUPSEG: word := 0x9020
  const DFLCMD: word := 0x2600
  const DC_MAGIC: word := 0xF4F2         // a default command line is present
  const DC_MGOFF: word := 0x6B6D         // or may be written
  const SETUPSECS: nat := 4

  const DFLCMD_ADDR: nat := 0xD600
  const BOOT_ADDR: nat := 0x9_0000
  const SETUP_ADDR: nat := 0x9_0200
  const KERNEL_ADDR: nat := 0x1_0000

  // What the memory map keeps for the loader above the setup area: the first stage, which holds the
  // boot parameters, the stack, and the parameter line.
  const RESIDENT_ADDR: nat := 0x9_A000
  const PARM_ADDR: nat := 0x9_B000
  const PARM_END: nat := 0x9_B400
  const MAX_SETUP: nat := 79             // sectors from SETUP_ADDR to RESIDENT_ADDR

  // The number of setup sectors, from the kernel's boot sector; the installer and the loader
  // read it from the same byte.
  function SetupCount(bootSector: Block): (n: nat)
    ensures 1 <= n <= 255
  {
    if bootSector[VSS_NUM] == 0 then SETUPSECS else bootSector[VSS_NUM]
  }

  // ---------- what compaction leaves to the loader ----------

  lemma {:induction false} CompactFromRunnable(drives: Drives, m: Mode, walk: SectorAddr, rest: seq<SectorAddr>,
                                               hinib: int, offset: nat, noffset: nat, max: nat, h: byte)
    requires 1 <= max <= 128 && (m.Lba32Mode? ==> max <= 127)
    requires WalkOk(drives, walk, hinib, h) && AllInstallerForm(drives, rest)
    requires InMode(m, walk) && AllInMode(m, rest) && 1 <= CountOf(walk) <= max
    ensures AllRunnable(drives, m, CompactFrom(walk, rest, hinib, offset, noffset, max))
    decreases |rest|
  {
    hide Decode, LookAhead, WalkOk, CountOf;
    WalkIsRunnable(drives, m, walk, hinib, h, max);
    if rest != [] {
      var look := LookAhead(walk, rest[0], hinib);
      var here := noffset + SECTOR_SIZE;
      if look.adj && offset / 0x1_0000 == here / 0x1_0000 && walk.numSect < max {
        var longer := walk.(numSect := walk.numSect + 1);
        MergedRun(drives, walk, rest[0], hinib, h);
        CompactFromRunnable(drives, m, longer, rest[1..], look.hinib, offset, here, max, h);
      } else {
        SuccessorKept(drives, walk, rest[0], hinib, h);
        SameAccess(walk, rest[0], hinib);
        CompactFromRunnable(drives, m, look.next, rest[1..], look.hinib, here, here, max, NextHinib(walk, h));
      }
    }
  }

  lemma WalkIsRunnable(drives: Drives, m: Mode, walk: SectorAddr, hinib: int, h: byte, max: nat)
    requires WalkOk(drives, walk, hinib, h) && InMode(m, walk)
    requires 1 <= CountOf(walk) <= max <= 128 && (m.Lba32Mode? ==> max <= 127)
    ensures Runnable(drives, walk)
  {
  }

  lemma SameAccess(walk: SectorAddr, next: SectorAddr, hinib: int)
    ensures AccessOf(LookAhead(walk, next, hinib).next) == AccessOf(next)
  {
    CleanDevice(next.device);
  }

  lemma CompactIsRunnable(drives: Drives, m: Mode, list: seq<SectorAddr>, skip: nat, max: nat)
    requires 1 <= max <= 128 && (m.Lba32Mode? ==> max <= 127)
    requires AllInstallerForm(drives, list) && AllInMode(m, list)
    ensures AllRunnable(drives, m, Compact(list, skip, max)[if |list| < skip then |list| else skip..])
  {
    if |list| > skip {
      InstallerFormWalks(drives, list[skip], 257, 0);
      CompactFromRunnable(drives, m, list[skip], list[skip + 1..], 257, 0, 0, max, 0);
      assert Compact(list, skip, max)[skip..] == CompactFrom(list[skip], list[skip + 1..], 257, 0, 0, max);
    }
  }

  // `map` stands for the installer's `list`: its first `skip` entries are untouched, and the
  // rest denotes the same sectors whatever the loader's high byte is, in runs that respect the
  // transfer limits and the 64 KiB blocks.
  ghost predicate Represents(drives: Drives, m: Mode, addrs: seq<SectorAddr>, list: seq<SectorAddr>, skip: nat) {
    if |list| <= skip then addrs == list
    else
      && |addrs| > skip && addrs[..skip] == list[..skip]
      && AllRunnable(drives, m, addrs[skip..]) && WithinBlocks(addrs[skip..], 0, 128)
      && forall h: byte :: HinibFits(m, h) ==>
           DecodeAll(drives, addrs[skip..], h) == Targets(drives, list[skip..])
  }

  lemma CompactedRepresents(drives: Drives, m: Mode, list: seq<SectorAddr>, skip: nat, lba32: bool)
    requires AllInstallerForm(drives, list) && AllInMode(m, list) && (m.Lba32Mode? ==> lba32)
    ensures Represents(drives, m, Compact(list, skip, MaxCount(lba32)), list, skip)
  {
    var max := MaxCount(lba32);
    if |list| > skip {
      var addrs, tail := Compact(list, skip, max), list[skip..];
      CompactIsRunnable(drives, m, list, skip, max);
      CompactWithinBlocks(drives, list, skip, max);
      WiderBlocks(addrs[skip..], 0, max);
      assert addrs[skip..] == CompactFrom(list[skip], list[skip + 1..], 257, 0, 0, max);
      assert tail == [list[skip]] + list[skip + 1..];
      forall h: byte | HinibFits(m, h)
        ensures DecodeAll(drives, addrs[skip..], h) == Targets(drives, tail)
      {
        InstallerFormWalks(drives, list[skip], 257, h);
        CompactFromPreservesMeaning(drives, list[skip], list[skip + 1..], 257, 0, 0, max, h);
        DecodeAllInstallerForm(drives, m, tail, h);
      }
    }
  }

  lemma {:induction false} WiderBlocks(addrs: seq<SectorAddr>, at: nat, max: nat)
    requires WithinBlocks(addrs, at, max) && max <= 128
    ensures WithinBlocks(addrs, at, 128)
  {
    hide CountOf;
    if addrs != [] {
      WiderBlocks(addrs[1..], at + CountOf(addrs[0]), max);
    }
  }

  // Without COMPACT, the list itself is laid out.
  lemma UncompactedRepresents(drives: Drives, m: Mode, list: seq<SectorAddr>, skip: nat)
    requires AllInstallerForm(drives, list) && AllInMode(m, list)
    ensures Represents(drives, m, list, list, skip)
  {
    if |list| > skip {
      var tail := list[skip..];
      SinglesWithinBlocks(drives, tail, 0);
      forall i | 0 <= i < |tail|
        ensures Runnable(drives, tail[i]) && InMode(m, tail[i])
      {
        InstallerFormIsRunnable(drives, tail[i]);
      }
      forall h: byte | HinibFits(m, h)
        ensures DecodeAll(drives, tail, h) == Targets(drives, tail)
      {
        DecodeAllInstallerForm(drives, m, tail, h);
      }
    }
  }

  lemma {:induction false} SinglesWithinBlocks(drives: Drives, list: seq<SectorAddr>, at: nat)
    requires AllInstallerForm(drives, list)
    ensures WithinBlocks(list, at, 128)
  {
    if list != [] {
      SinglesWithinBlocks(drives, list[1..], at + 1);
    }
  }

  // ---------- the load order ----------

  // Read the first page of a section to MAP.
  method StartSection(s: SecondStage, start: SectorAddr, ghost addrs: seq<SectorAddr>)
    requires s.Valid() && GoodLink(s.drives, s.mode, start)
    requires ChainAt(s.drives, s.mode, s.disk, SectorBehind(s.drives, s.disk, start), 0, addrs)
    modifies s`page, s`moff, s`hinib
    ensures s.Valid() && s.Ahead(addrs)
  {
    var block;
    block, s.hinib := s.ReadOne(start, MAP_OFFSET);
    s.page := block;
    s.moff := 0;
  }

  // The default command line sector is read; decoding its address changes hinib.
  method ReadCommandLine(s: SecondStage, dflcmd: SectorAddr) returns (line: Block)
    requires s.Valid() && GoodLink(s.drives, s.mode, dflcmd)
    modifies s`hinib
    ensures s.Valid() && line == SectorBehind(s.drives, s.disk, dflcmd)
  {
    line, s.hinib := s.ReadOne(dflcmd, DFLCMD);
  }

  // cwrite of that sector, by way of cread: here too only hinib changes. What is written is
  // never read again before the next boot.
  method WriteCommandLine(s: SecondStage, dflcmd: SectorAddr)
    requires s.Valid() && GoodLink(s.drives, s.mode, dflcmd)
    modifies s`hinib
    ensures s.Valid()
  {
    DecodeInstallerForm(s.drives, s.mode, dflcmd, s.hinib);
    s.hinib := NextHinib(dflcmd, s.hinib);
  }

  // The leading entries of a section, loaded one by one, are uncompacted.
  ghost predicate Singles(drives: Drives, m: Mode, addrs: seq<SectorAddr>, n: nat) {
    forall i :: 0 <= i < n && i < |addrs| ==> InstallerForm(drives, addrs[i]) && InMode(m, addrs[i])
  }

  // Load one entry to ES:BX; `n` sectors have been loaded since the log was `log`.
  method LoadAt(s: SecondStage, es: word, bx: word, ghost rest: seq<SectorAddr>, ghost log: seq<Transfer>,
                ghost n: nat)
    returns (r: Loaded)
    requires s.Valid() && s.Ahead(rest) && Singles(s.drives, s.mode, rest, 1)
    requires (es * 16 + bx) % SECTOR_SIZE == 0 && bx + SECTOR_SIZE <= 0x1_0000
    requires Grown(log, s.transfers, n)
    modifies s`page, s`moff, s`hinib, s`mem, s`es, s`bx, s`transfers
    ensures s.Valid()
    ensures r == if rest == [] then AtEof else if CanRead(s.drives, Target(s.drives, rest[0])) then Done else Failed
    ensures r == Done ==> s.Ahead(rest[1..])
                          && s.mem == old(s.mem)[es * 16 + bx := SectorBehind(s.drives, s.disk, rest[0])]
    ensures Grown(log, s.transfers, if r == Done then n + 1 else n)
  {
    OneMoreTransfer(log, s.transfers, n, Transfer(es * 16 + bx, 1));
    assert s.transfers + [] == s.transfers;
    s.es, s.bx := es, bx;
    r := s.LoadOne(rest);
    if r == Done {
      StoreOne(old(s.mem), es * 16 + bx, SectorBehind(s.drives, s.disk, rest[0]));
    }
  }

  lemma StoreOne(mem: Cells, addr: nat, block: Block)
    ensures Store(mem, addr, [block]) == mem[addr := block]
  {
    assert Store(mem[addr := block], addr + SECTOR_SIZE, [block][1..]) == mem[addr := block];
  }

  // doboot up to the options sector: the default command line is read, and written back if the
  // section holds a fallback for it. The parameter line is put together behind the stack.
  method LoadSpecials(s: SecondStage, start: SectorAddr, dflcmd: SectorAddr, x: Patches, ghost addrs: seq<SectorAddr>)
    returns (r: Loaded)
    requires s.Valid() && GoodLink(s.drives, s.mode, start) && GoodLink(s.drives, s.mode, dflcmd)
    requires ChainAt(s.drives, s.mode, s.disk, SectorBehind(s.drives, s.disk, start), 0, addrs)
    requires |addrs| >= 2 && Singles(s.drives, s.mode, addrs, 2)
    modifies s`page, s`moff, s`hinib, s`mem, s`es, s`bx, s`transfers
    ensures s.Valid() && (r == Done || r == Failed)
    ensures r == Done
            <==> CanRead(s.drives, Target(s.drives, addrs[0])) && CanRead(s.drives, Target(s.drives, addrs[1]))
    ensures r == Done ==> s.Ahead(addrs[2..])
                          && s.mem == Store(old(s.mem)[DFLCMD_ADDR := SectorBehind(s.drives, s.disk, addrs[1])],
                                            PARM_ADDR, x.line)
    ensures old(s.transfers) <= s.transfers && (r == Done ==> Grown(old(s.transfers), s.transfers, 2))
  {
    hide Store, GoodLink, CanRead, InstallerForm, InMode, SectorBehind, Target, ChainAt;
    ghost var log := s.transfers;
    NothingGrown(log);
    StartSection(s, start, addrs);
    var line := ReadCommandLine(s, dflcmd);
    var magic := Word(line, 0);
    r := LoadAt(s, SECONDSEG, DFLCMD, addrs, log, 0);     // fallback
    if r != Done { return; }
    if (magic == DC_MAGIC || magic == DC_MGOFF) && Word(s.mem[DFLCMD_ADDR], 0) == DC_MAGIC {
      WriteCommandLine(s, dflcmd);
    }
    r := LoadAt(s, SECONDSEG, DFLCMD, addrs[1..], log, 1); // options
    assert r == Done ==> s.mem == old(s.mem)[DFLCMD_ADDR := SectorBehind(s.drives, s.disk, addrs[1])];
    s.mem := Store(s.mem, PARM_ADDR, x.line);
  }

  // doboot up to the setup sectors: the fallback sector, the options sector and the kernel's boot
  // sector, which is told where the command line is. With `lock` the command line is saved.
  method LoadHeader(s: SecondStage, start: SectorAddr, dflcmd: SectorAddr, lock: bool, x: Patches,
                    ghost addrs: seq<SectorAddr>)
    returns (r: Loaded)
    requires s.Valid() && GoodLink(s.drives, s.mode, start) && GoodLink(s.drives, s.mode, dflcmd)
    requires ChainAt(s.drives, s.mode, s.disk, SectorBehind(s.drives, s.disk, start), 0, addrs)
    requires |addrs| >= 2 && Singles(s.drives, s.mode, addrs, 3)
    modifies s`page, s`moff, s`hinib, s`mem, s`es, s`bx, s`transfers
    ensures s.Valid()
    ensures var readable := forall i :: 0 <= i < 3 && i < |addrs| ==> CanRead(s.drives, Target(s.drives, addrs[i]));
            && (r == Done <==> readable && |addrs| >= 3)
            && (r == AtEof <==> readable && |addrs| == 2)
    ensures r != Overrun
    ensures r == Done ==>
              && s.Ahead(addrs[3..])
              && s.mem == Store(old(s.mem)[DFLCMD_ADDR := SectorBehind(s.drives, s.disk, addrs[1])], PARM_ADDR, x.line)
                            [BOOT_ADDR := BootSector(SectorBehind(s.drives, s.disk, addrs[2]), x)]
    ensures old(s.transfers) <= s.transfers && (r == Done ==> Grown(old(s.transfers), s.transfers, 3))
  {
    hide Store, Grown, GoodLink, CanRead, InstallerForm, InMode, SectorBehind, Target, ChainAt, BootSector;
    ghost var log := s.transfers;
    r := LoadSpecials(s, start, dflcmd, x, addrs);
    if r != Done { return; }
    GrownTwice(log, s.transfers, s.transfers, 2, 0);
    r := LoadAt(s, INITSEG, 0, addrs[2..], log, 2);       // boot sector
    GrownTwice(log, s.transfers, s.transfers, if r == Done then 3 else 2, 0);
    if r != Done { return; }
    s.mem := s.mem[BOOT_ADDR := BootSector(s.mem[BOOT_ADDR], x)];
    if lock {
      WriteCommandLine(s, dflcmd);
    }
  }

  function Min(a: nat, b: nat): nat { if a < b then a else b }

  // The setup sectors that are loaded before the loader has been run over, if there are k of them.
  function SetupLoaded(k: nat): nat {
    Min(k, MAX_SETUP + 1)
  }

  // lsloop: the setup sectors, one by one, to SETUPSEG:0; meeting the end of the section starts
  // the system. Nothing stops the loop short of the loader's own memory: once a sector has reached
  // that, what happens next is no longer told by the code.
  method LoadSetup(s: SecondStage, count: byte, ghost rest: seq<SectorAddr>) returns (r: Loaded)
    requires s.Valid() && s.Ahead(rest) && Singles(s.drives, s.mode, rest, count)
    modifies s`page, s`moff, s`hinib, s`mem, s`es, s`bx, s`transfers
    ensures s.Valid()
    ensures var k := Min(count, |rest|);
            var refs := Targets(s.drives, rest[..SetupLoaded(k)]);
            && (r == Failed <==> !AllCanRead(s.drives, refs))
            && (r == Overrun <==> AllCanRead(s.drives, refs) && k > MAX_SETUP)
            && (r == Done ==> count <= |rest| && s.Ahead(rest[count..]))
            && (r == AtEof ==> |rest| < count)
            && (r != Failed ==> s.mem == Store(old(s.mem), SETUP_ADDR, Content(s.disk, refs))
                                && Grown(old(s.transfers), s.transfers, |refs|))
            && (r == Done || r == AtEof ==> s.es == SETUPSEG)
    ensures old(s.transfers) <= s.transfers
  {
    hide Grown, CanRead, AllCanRead, InstallerForm, InMode, Target, ChainAt, Store, Content;
    s.es, s.bx := SETUPSEG, 0;
    var left: nat := count;
    ghost var n: nat := 0;
    ghost var goal := Targets(s.drives, rest[..SetupLoaded(Min(count, |rest|))]);
    NothingStored(s.drives, s.disk, s.mem, SETUP_ADDR);
    NothingGrown(s.transfers);
    while left > 0
      invariant n + left == count && n <= MAX_SETUP && s.Valid() && SetupSoFar(s, old(s.mem), rest, goal, n)
      invariant Grown(old(s.transfers), s.transfers, n) && old(s.transfers) <= s.transfers
      decreases left
    {
      OneMoreTransfer(old(s.transfers), s.transfers, n, Transfer(s.es * 16 + s.bx, 1));
      ghost var log := s.transfers;
      r := SetupSector(s, old(s.mem), rest, goal, n);
      assert log + [] == log;
      if r != Done {
        assert goal[..n] == goal || r == Failed;
        return;
      }
      left := left - 1;
      n := n + 1;
      if s.es * 16 + s.bx > RESIDENT_ADDR {
        assert goal[..n] == goal;
        return Overrun;
      }
    }
    assert goal[..n] == goal;
    r := Done;
  }

  // The first n of the sectors `goal` are in place and the pointer is behind them.
  ghost predicate SetupSoFar(s: SecondStage, before: Cells, rest: seq<SectorAddr>, goal: seq<SectorRef>, n: nat)
    reads s
  {
    && n <= |goal| <= |rest| && goal == Targets(s.drives, rest[..|goal|]) && s.Ahead(rest[n..])
    && s.es == SETUPSEG && s.bx == SECTOR_SIZE * n && n <= MAX_SETUP + 1
    && AllCanRead(s.drives, goal[..n])
    && s.mem == Store(before, SETUP_ADDR, Content(s.disk, goal[..n]))
  }

  method SetupSector(s: SecondStage, ghost before: Cells, ghost rest: seq<SectorAddr>, ghost goal: seq<SectorRef>,
                     ghost n: nat)
    returns (r: Loaded)
    requires s.Valid() && SetupSoFar(s, before, rest, goal, n) && n <= MAX_SETUP
    requires Singles(s.drives, s.mode, rest, |goal|) && (n == |goal| ==> n == |rest|)
    modifies s`page, s`moff, s`hinib, s`mem, s`es, s`bx, s`transfers
    ensures s.Valid()
    ensures r == Done ==> n < |goal| && SetupSoFar(s, before, rest, goal, n + 1)
    ensures r == AtEof ==> n == |goal| && s.mem == old(s.mem) && s.es == old(s.es)
    ensures r != Overrun
    ensures r == Failed ==> !AllCanRead(s.drives, goal)
    ensures s.transfers
            == old(s.transfers) + if r == Done then [Transfer(old(s.es) * 16 + old(s.bx), 1)] else []
  {
    hide CanRead, AllCanRead, InstallerForm, InMode, Target, ChainAt, Store, Content;
    if n < |goal| {
      OneMoreSetup(s.drives, s.disk, before, goal, n);
      assert goal[n] == Target(s.drives, rest[n]);
    }
    r := s.LoadOne(rest[n..]);
  }

  lemma OneMoreSetup(drives: Drives, disk: Disk, mem: Cells, goal: seq<SectorRef>, n: nat)
    requires n < |goal| && AllCanRead(drives, goal[..n])
    ensures if CanRead(drives, goal[n]) then AllCanRead(drives, goal[..n + 1]) else !AllCanRead(drives, goal)
    ensures Store(mem, SETUP_ADDR, Content(disk, goal[..n + 1]))
            == Store(Store(mem, SETUP_ADDR, Content(disk, goal[..n])), SETUP_ADDR + SECTOR_SIZE * n,
                     [disk(goal[n].drive, goal[n].lba)])
  {
    hide CanRead, Store;
    assert goal[..n + 1] == goal[..n] + [goal[n]];
    StoreMore(disk, mem, SETUP_ADDR, goal[..n], [goal[n]]);
    assert Content(disk, [goal[n]]) == [disk(goal[n].drive, goal[n].lba)];
  }

  // The GDT destination set up for a kernel loaded high.
  method SetDestination(s: SecondStage, startPage: word)
    modifies s`destLow, s`destHigh
    ensures s.Dest() == Destination(startPage) && s.destLow % 0x100 == 0
  {
    var ax := startPage * 16 % 0x1_0000;                  // shl ax,4
    s.destHigh, s.destLow := ax / 0x100, ax % 0x100 * 0x100;
  }

  // The last phase: the rest of the section is the kernel proper. High or low, it ends up in
  // order, and only the load area (high: the transfer buffer) of low memory is touched.
  method LoadRest(s: SecondStage, high: bool, ghost rest: seq<SectorAddr>, ghost refs: seq<SectorRef>)
    returns (ok: bool)
    requires s.Valid() && s.Ahead(rest) && AllRunnable(s.drives, s.mode, rest) && WithinBlocks(rest, 0, 128)
    requires DecodeAll(s.drives, rest, s.hinib) == refs
    requires if high then s.Dest() + SECTOR_SIZE * |refs| <= TWO_24 else |refs| <= MAX_KERNEL_SECS
    modifies s
    ensures s.Valid() && (ok <==> AllCanRead(s.drives, refs))
    ensures ok ==> SameOutside(old(s.mem), s.mem, KERNEL_ADDR, BOOT_ADDR)
    ensures ok ==> if high then Placed(s.ext, old(s.Dest()), Content(s.disk, refs))
                   else Placed(s.mem, KERNEL_ADDR, Content(s.disk, refs))
    ensures old(s.transfers) <= s.transfers && (ok ==> Grown(old(s.transfers), s.transfers, |refs|))
  {
    hide Grown, AllRunnable, WithinBlocks, AllCanRead, Store, Placed, ChainAt, DecodeAll;
    if high {
      s.es := 0;
      ok := s.LoadHigh(rest);
      StorePlaces(old(s.ext), old(s.Dest()), Content(s.disk, refs));
    } else {
      s.es, s.bx := SYSSEG, 0;
      ok := s.LoadLow(rest);
      StorePlaces(old(s.mem), KERNEL_ADDR, Content(s.disk, refs));
    }
  }

  // The setup sectors of a section as they are when the kernel starts: if they are all there, the
  // header in the first of them has been patched.
  function SetupSectors(blocks: seq<Block>, setup: nat, x: Patches): seq<Block>
    requires |blocks| >= 3 && setup >= 1
  {
    var sectors := blocks[3..Min(3 + setup, |blocks|)];
    if |sectors| < setup then sectors else sectors[0 := SetupHeader(sectors[0], x)]
  }

  // The memory image of a booted kernel whose map section lists `blocks`: fallback, options,
  // boot sector, setup sectors and the kernel proper; and the command line for it.
  ghost predicate Booted(mem: Cells, ext: Cells, blocks: seq<Block>, x: Patches, high: bool, dest: nat)
    requires |blocks| >= 3
  {
    var setup := SetupCount(blocks[2]);
    var skip := Min(3 + setup, |blocks|);
    && Placed(mem, DFLCMD_ADDR, [blocks[1]])
    && Placed(mem, PARM_ADDR, x.line)
    && Placed(mem, BOOT_ADDR, [BootSector(blocks[2], x)])
    && Placed(mem, SETUP_ADDR, SetupSectors(blocks, setup, x))
    && if high then Placed(ext, dest, blocks[skip..]) else Placed(mem, KERNEL_ADDR, blocks[skip..])
  }

  // One cell of memory holds this sector.
  predicate Cell(mem: Cells, addr: nat, block: Block) {
    addr in mem && mem[addr] == block
  }

  // Where that is. With setup sectors counted by byte 497 of the boot sector (4 if that is zero),
  // the k-th of them is at 0x90200 + 512 * k, the first of them patched if they are all there, and
  // the k-th sector behind them at 0x10000 + 512 * k or, for a kernel loaded high, at its destination.
  lemma BootedCells(mem: Cells, ext: Cells, blocks: seq<Block>, x: Patches, high: bool, dest: nat, k: nat)
    requires |blocks| >= 3 && Booted(mem, ext, blocks, x, high, dest)
    ensures var setup := if blocks[2][497] == 0 then 4 else blocks[2][497];
            && Cell(mem, 0xD600, blocks[1]) && Cell(mem, 0x9_0000, BootSector(blocks[2], x))
            && Cell(mem, 0x9_B000, x.line[0]) && Cell(mem, 0x9_B200, x.line[1])
            && (3 + setup <= |blocks| ==> Cell(mem, 0x9_0200, SetupHeader(blocks[3], x)))
            && (3 < |blocks| < 3 + setup ==> Cell(mem, 0x9_0200, blocks[3]))
            && (0 < k < setup && 3 + k < |blocks| ==> Cell(mem, 0x9_0200 + 512 * k, blocks[3 + k]))
            && (3 + setup + k < |blocks| ==>
                  Cell(if high then ext else mem, (if high then dest else 0x1_0000) + 512 * k, blocks[3 + setup + k]))
  {
    hide BootSector, SetupHeader;
    var setup := SetupCount(blocks[2]);
    var sectors, proper := SetupSectors(blocks, setup, x), blocks[Min(3 + setup, |blocks|)..];
    assert mem[DFLCMD_ADDR + SECTOR_SIZE * 0] == [blocks[1]][0];
    assert mem[PARM_ADDR + SECTOR_SIZE * 0] == x.line[0] && mem[PARM_ADDR + SECTOR_SIZE * 1] == x.line[1];
    assert mem[BOOT_ADDR + SECTOR_SIZE * 0] == [BootSector(blocks[2], x)][0];
    assert sectors != [] ==> mem[SETUP_ADDR + SECTOR_SIZE * 0] == sectors[0];
    assert k < |sectors| ==> mem[SETUP_ADDR + SECTOR_SIZE * k] == sectors[k];
    assert k < |proper| ==> proper[k] == blocks[3 + setup + k];
  }

  // The cells in lo .. hi are what they were.
  ghost predicate SameInside(mem: Cells, mem': Cells, lo: nat, hi: nat) {
    forall a :: lo <= a < hi && a in mem ==> a in mem' && mem'[a] == mem[a]
  }

  // Loading setup sectors spares the loader and the parameter line, whatever is there, exactly if
  // there are no more than MAX_SETUP.
  lemma SetupSparesLoader(sectors: seq<Block>)
    ensures (forall mem: Cells :: SameInside(mem, Store(mem, SETUP_ADDR, sectors), RESIDENT_ADDR, PARM_END))
            <==> |sectors| <= MAX_SETUP
  {
    hide Store;
    if |sectors| <= MAX_SETUP {
      forall mem: Cells
        ensures SameInside(mem, Store(mem, SETUP_ADDR, sectors), RESIDENT_ADDR, PARM_END)
      {
        StorePlaces(mem, SETUP_ADDR, sectors);
      }
    } else {
      var other: Block := sectors[MAX_SETUP][0 := if sectors[MAX_SETUP][0] == 0 then 1 else 0];
      var mem: Cells := map[RESIDENT_ADDR := other];
      StoredCell(mem, SETUP_ADDR, sectors, MAX_SETUP);
      assert other[0] != sectors[MAX_SETUP][0];
      assert !SameInside(mem, Store(mem, SETUP_ADDR, sectors), RESIDENT_ADDR, PARM_END);
    }
  }

  // Memory behind ES:BX when k setup sectors have been read.
  function SetupPointer(k: nat): (word, word) {
    if k == 0 then (SETUPSEG, 0)
    else
      var (es, bx) := SetupPointer(k - 1);
      Advance(es, bx, 1)
  }

  // The header is patched by way of ES, which still is SETUPSEG exactly if there are fewer than 128
  // sectors.
  lemma {:induction false} SetupSegment(k: nat)
    requires k <= 255
    ensures SetupPointer(k)
            == if k < 128 then (SETUPSEG, SECTOR_SIZE * k) else (SETUPSEG + 0x1000, SECTOR_SIZE * (k - 128))
  {
    if k > 0 {
      SetupSegment(k - 1);
    }
  }

  lemma HeaderStays(mem0: Cells, mem2: Cells, mem3: Cells, options: Block, line: ParmLine, boot: Block,
                    setup: seq<Block>)
    requires |setup| <= MAX_SETUP
    requires mem2 == Store(Store(mem0[DFLCMD_ADDR := options], PARM_ADDR, line)[BOOT_ADDR := boot], SETUP_ADDR, setup)
    requires SameOutside(mem2, mem3, KERNEL_ADDR, BOOT_ADDR)
    ensures Placed(mem3, DFLCMD_ADDR, [options]) && Placed(mem3, PARM_ADDR, line)
    ensures Placed(mem3, BOOT_ADDR, [boot]) && Placed(mem3, SETUP_ADDR, setup)
    ensures SameInside(mem0, mem3, RESIDENT_ADDR, PARM_ADDR)
  {
    hide Store, Placed;
    var told := mem0[DFLCMD_ADDR := options];
    var m := Store(told, PARM_ADDR, line);
    StorePlaces(told, PARM_ADDR, line);
    StorePlaces(m[BOOT_ADDR := boot], SETUP_ADDR, setup);
    OneCell(told, DFLCMD_ADDR, options);
    OneCell(m[BOOT_ADDR := boot], BOOT_ADDR, boot);
    StaysPlaced(told, m, PARM_ADDR, PARM_END, DFLCMD_ADDR, [options]);
    assert SameOutside(m, m[BOOT_ADDR := boot], BOOT_ADDR, SETUP_ADDR);
    StaysPlaced(m, m[BOOT_ADDR := boot], BOOT_ADDR, SETUP_ADDR, DFLCMD_ADDR, [options]);
    StaysPlaced(m, m[BOOT_ADDR := boot], BOOT_ADDR, SETUP_ADDR, PARM_ADDR, line);
    ThroughLoads(m[BOOT_ADDR := boot], mem2, mem3, setup, DFLCMD_ADDR, [options]);
    ThroughLoads(m[BOOT_ADDR := boot], mem2, mem3, setup, PARM_ADDR, line);
    ThroughLoads(m[BOOT_ADDR := boot], mem2, mem3, setup, BOOT_ADDR, [boot]);
    StaysPlaced(mem2, mem3, KERNEL_ADDR, BOOT_ADDR, SETUP_ADDR, setup);
  }

  lemma OneCell(mem: Cells, addr: nat, block: Block)
    requires addr in mem && mem[addr] == block
    ensures Placed(mem, addr, [block])
  {
  }

  // Cells that neither the setup sectors nor the kernel proper reach.
  lemma ThroughLoads(mem1: Cells, mem2: Cells, mem3: Cells, setup: seq<Block>, addr: nat, blocks: seq<Block>)
    requires Placed(mem1, addr, blocks) && |setup| <= MAX_SETUP
    requires SameOutside(mem1, mem2, SETUP_ADDR, SETUP_ADDR + SECTOR_SIZE * |setup|)
    requires SameOutside(mem2, mem3, KERNEL_ADDR, BOOT_ADDR)
    requires addr + SECTOR_SIZE * |blocks| <= KERNEL_ADDR
             || (BOOT_ADDR <= addr && addr + SECTOR_SIZE * |blocks| <= SETUP_ADDR) || RESIDENT_ADDR <= addr
    ensures Placed(mem3, addr, blocks)
  {
    StaysPlaced(mem1, mem2, SETUP_ADDR, SETUP_ADDR + SECTOR_SIZE * |setup|, addr, blocks);
    StaysPlaced(mem2, mem3, KERNEL_ADDR, BOOT_ADDR, addr, blocks);
  }

  // Memory once everything but the kernel proper is in place.
  ghost function FrontMem(drives: Drives, disk: Disk, mem: Cells, list: seq<SectorAddr>, x: Patches): Cells
    requires |list| >= 3
  {
    var blocks := Content(disk, Targets(drives, list));
    Store(Store(mem[DFLCMD_ADDR := blocks[1]], PARM_ADDR, x.line)[BOOT_ADDR := BootSector(blocks[2], x)],
          SETUP_ADDR, SetupSectors(blocks, SetupCount(blocks[2]), x))
  }

  // The setup sectors a section has for the loader to take one by one.
  function SetupInSection(drives: Drives, disk: Disk, list: seq<SectorAddr>): nat
    requires |list| >= 2
  {
    if |list| == 2 then 0 else Min(KernelStart(drives, disk, list), |list|) - 3
  }

  // The sectors that are read: all of them, unless the setup sectors reach the loader.
  function RefsRead(drives: Drives, disk: Disk, list: seq<SectorAddr>): seq<SectorRef>
    requires |list| >= 2
  {
    var refs := Targets(drives, list);
    if SetupInSection(drives, disk, list) > MAX_SETUP then refs[..3 + MAX_SETUP + 1] else refs
  }

  // The setup sectors, and the patches to their header. `launch` tells that the section has ended
  // among them, which starts the system at once.
  method LoadAndPatchSetup(s: SecondStage, x: Patches, ghost addrs: seq<SectorAddr>, ghost list: seq<SectorAddr>)
    returns (r: Loaded, launch: bool)
    requires s.Valid() && |list| >= 3 && |addrs| >= 3 && s.Ahead(addrs[3..])
    requires BOOT_ADDR in s.mem && SetupCount(s.mem[BOOT_ADDR]) == SetupCount(SectorBehind(s.drives, s.disk, list[2]))
    requires var skip := KernelStart(s.drives, s.disk, list);
             var n := Min(skip, |list|);
             && n <= |addrs| && addrs[..n] == list[..n] && (|addrs| > n <==> |list| > n)
             && Singles(s.drives, s.mode, addrs[3..], skip - 3)
    modifies s`page, s`moff, s`hinib, s`mem, s`es, s`bx, s`transfers
    ensures s.Valid() && old(s.transfers) <= s.transfers && r != AtEof
    ensures var n := 3 + SetupInSection(s.drives, s.disk, list);
            var k := 3 + SetupLoaded(n - 3);
            var refs := Targets(s.drives, list)[3..k];
            var blocks := Content(s.disk, Targets(s.drives, list));
            && (r == Failed <==> !AllCanRead(s.drives, refs))
            && (r == Overrun <==> AllCanRead(s.drives, refs) && n - 3 > MAX_SETUP)
            && (r == Done ==>
                  && s.mem == Store(old(s.mem), SETUP_ADDR, SetupSectors(blocks, SetupCount(blocks[2]), x))
                  && Grown(old(s.transfers), s.transfers, n - 3)
                  && var skip := KernelStart(s.drives, s.disk, list);
                     if launch then |list| <= skip
                     else skip <= |list| && skip <= |addrs| && s.Ahead(addrs[skip..]))
  {
    hide Grown, CanRead, AllCanRead, InstallerForm, InMode, SectorBehind, Target, ChainAt, Store, Singles, SetupHeader,
         Content, SetupSectors;
    ghost var skip, n := KernelStart(s.drives, s.disk, list), 3 + SetupInSection(s.drives, s.disk, list);
    ghost var k := 3 + SetupLoaded(n - 3);
    launch := false;
    var setup := SetupCount(s.mem[BOOT_ADDR]);
    assert addrs[..k] == addrs[..n][..k] == list[..n][..k] == list[..k];
    TargetsOfPrefix(s.drives, addrs, list, k);
    SetupAsLoaded(s.drives, s.disk, list, s.mem, x);
    r := LoadSetup(s, setup, addrs[3..]);
    if r == Failed || r == Overrun { return; }
    launch := r == AtEof;
    if !launch {
      assert addrs[3..][setup..] == addrs[skip..];
      s.mem := s.mem[s.es * 16 := SetupHeader(s.mem[s.es * 16], x)];
    }
    r := Done;
  }

  // doboot up to the kernel proper.
  method LoadFront(s: SecondStage, start: SectorAddr, dflcmd: SectorAddr, lock: bool, x: Patches,
                   ghost addrs: seq<SectorAddr>, ghost list: seq<SectorAddr>)
    returns (r: Loaded, launch: bool)
    requires s.Valid() && GoodLink(s.drives, s.mode, start) && GoodLink(s.drives, s.mode, dflcmd)
    requires ChainAt(s.drives, s.mode, s.disk, SectorBehind(s.drives, s.disk, start), 0, addrs)
    requires AllInstallerForm(s.drives, list) && AllInMode(s.mode, list) && |list| >= 2
    requires Represents(s.drives, s.mode, addrs, list, KernelStart(s.drives, s.disk, list))
    modifies s`page, s`moff, s`hinib, s`mem, s`es, s`bx, s`transfers
    ensures s.Valid() && old(s.transfers) <= s.transfers
    ensures var refs, skip := RefsRead(s.drives, s.disk, list), KernelStart(s.drives, s.disk, list);
            var k := SetupInSection(s.drives, s.disk, list);
            && (r == Failed ==> !AllCanRead(s.drives, refs))
            && (r == AtEof <==> AllCanRead(s.drives, refs) && |list| == 2)
            && (r == Overrun <==> AllCanRead(s.drives, refs) && k > MAX_SETUP)
            && (r == Done ==>
                  && |list| >= 3 && k <= MAX_SETUP && AllCanRead(s.drives, Targets(s.drives, list)[..3 + k])
                  && s.mem == FrontMem(s.drives, s.disk, old(s.mem), list, x)
                  && Grown(old(s.transfers), s.transfers, 3 + k)
                  && if launch then |list| <= skip
                     else skip <= |list| && skip <= |addrs| && s.Ahead(addrs[skip..]))
  {
    hide Grown, GoodLink, CanRead, AllCanRead, InstallerForm, InMode, SectorBehind, Target, ChainAt, Represents,
         Store, Singles, AllInstallerForm, AllInMode, BootSector, SetupHeader, Content, SetupSectors, RefsRead;
    ghost var skip := KernelStart(s.drives, s.disk, list);
    ghost var n := Min(skip, |list|);
    ghost var log0 := s.transfers;
    launch := false;
    PrefixEntries(s.drives, s.mode, s.disk, addrs, list, skip);
    r := LoadHeader(s, start, dflcmd, lock, x, addrs);
    HeaderReadable(s.drives, list, addrs, n);
    ReadOrNot(s.drives, s.disk, list);
    if r != Done { return; }
    PatchedFields(SectorBehind(s.drives, s.disk, list[2]), x, 0);
    SetupAsLoaded(s.drives, s.disk, list, s.mem, x);
    ghost var log1 := s.transfers;
    r, launch := LoadAndPatchSetup(s, x, addrs, list);
    GrownTwice(log0, log1, s.transfers, 3, n - 3);
    if r == Done {
      AllReadable(s.drives, Targets(s.drives, list), n);
    }
  }

  // What can be read of a section, in the parts in which it is read.
  lemma ReadOrNot(drives: Drives, disk: Disk, list: seq<SectorAddr>)
    requires |list| >= 2
    ensures var all, refs := Targets(drives, list), RefsRead(drives, disk, list);
            && (|list| == 2 ==> refs == all)
            && (|list| >= 3 ==>
                  var k := 3 + SetupLoaded(SetupInSection(drives, disk, list));
                  && k <= |refs| && refs[..3] == all[..3] && refs[3..k] == all[3..k]
                  && (SetupInSection(drives, disk, list) > MAX_SETUP ==> k == |refs|)
                  && (AllCanRead(drives, refs) ==> AllCanRead(drives, all[..3]) && AllCanRead(drives, all[3..k]))
                  && (k == |refs| && AllCanRead(drives, all[..3]) && AllCanRead(drives, all[3..k]) ==>
                        AllCanRead(drives, refs)))
            && (!AllCanRead(drives, all[..Min(3, |list|)]) ==> !AllCanRead(drives, refs))
  {
    hide CanRead, Target, SectorBehind;
    var all, refs := Targets(drives, list), RefsRead(drives, disk, list);
    assert forall i :: 0 <= i < |refs| ==> refs[i] == all[i];
    if |list| >= 3 {
      var k := 3 + SetupLoaded(SetupInSection(drives, disk, list));
      SplitReadable(drives, refs, 3, k);
    } else {
      assert all[..2] == all;
    }
  }

  lemma SplitInTwo(drives: Drives, refs: seq<SectorRef>, n: nat)
    requires n <= |refs|
    ensures AllCanRead(drives, refs) <==> AllCanRead(drives, refs[..n]) && AllCanRead(drives, refs[n..])
  {
    hide CanRead;
    assert forall i :: 0 <= i < |refs| ==> refs[i] == if i < n then refs[..n][i] else refs[n..][i - n];
  }

  lemma AllReadable(drives: Drives, refs: seq<SectorRef>, n: nat)
    requires 3 <= n <= |refs| && AllCanRead(drives, refs[..3]) && AllCanRead(drives, refs[3..n])
    ensures AllCanRead(drives, refs[..n])
  {
    hide CanRead;
    assert refs[..n] == refs[..3] + refs[3..n];
  }

  // The setup sectors in memory, before and after the header has been patched.
  lemma SetupAsLoaded(drives: Drives, disk: Disk, list: seq<SectorAddr>, mem: Cells, x: Patches)
    requires |list| >= 3
    ensures var blocks := Content(disk, Targets(drives, list));
            var setup := SetupCount(blocks[2]);
            var loaded := Store(mem, SETUP_ADDR, Content(disk, Targets(drives, list)[3..Min(3 + setup, |list|)]));
            && blocks[1] == SectorBehind(drives, disk, list[1]) && blocks[2] == SectorBehind(drives, disk, list[2])
            && if |list| < 3 + setup then loaded == Store(mem, SETUP_ADDR, SetupSectors(blocks, setup, x))
               else
                 && SETUP_ADDR in loaded
                 && loaded[SETUP_ADDR := SetupHeader(loaded[SETUP_ADDR], x)]
                    == Store(mem, SETUP_ADDR, SetupSectors(blocks, setup, x))
  {
    hide Store, SetupHeader, Target;
    var refs := Targets(drives, list);
    var blocks := Content(disk, refs);
    var setup := SetupCount(blocks[2]);
    var sectors := Content(disk, refs[3..Min(3 + setup, |list|)]);
    assert sectors == blocks[3..Min(3 + setup, |list|)];
    if |list| >= 3 + setup {
      FirstCell(mem, SETUP_ADDR, sectors, SetupHeader(sectors[0], x));
    }
  }

  // A modern kernel with a destination is loaded above 1 MB, any other low.
  predicate LoadsHigh(startPage: word, x: Patches) {
    x.modern && Destination(startPage) != 0
  }

  // doboot for a kernel whose section `addrs` stands for the installer's `list`. It fails exactly
  // if some sector it reads cannot be read, and runs over itself exactly if the section has more
  // than MAX_SETUP setup sectors. Otherwise it leaves the whole image in memory, and its own area
  // as it was.
  method BootImage(s: SecondStage, start: SectorAddr, dflcmd: SectorAddr, startPage: word, lock: bool,
                   x: Patches, ghost addrs: seq<SectorAddr>, ghost list: seq<SectorAddr>)
    returns (r: Loaded)
    requires s.Valid() && GoodLink(s.drives, s.mode, start) && GoodLink(s.drives, s.mode, dflcmd)
    requires ChainAt(s.drives, s.mode, s.disk, SectorBehind(s.drives, s.disk, start), 0, addrs)
    requires AllInstallerForm(s.drives, list) && AllInMode(s.mode, list) && |list| >= 2
    requires Represents(s.drives, s.mode, addrs, list, KernelStart(s.drives, s.disk, list))
    requires var proper := |list| - KernelStart(s.drives, s.disk, list);
             if LoadsHigh(startPage, x) then Destination(startPage) + SECTOR_SIZE * proper <= TWO_24
             else proper <= MAX_KERNEL_SECS
    modifies s
    ensures s.Valid()
    ensures var refs := RefsRead(s.drives, s.disk, list);
            && (r == Failed <==> !AllCanRead(s.drives, refs))
            && (r == AtEof <==> AllCanRead(s.drives, refs) && |list| == 2)
            && (r == Overrun <==> AllCanRead(s.drives, refs) && SetupInSection(s.drives, s.disk, list) > MAX_SETUP)
            && (r == Done ==> |list| >= 3
                              && Booted(s.mem, s.ext, Content(s.disk, Targets(s.drives, list)), x,
                                        LoadsHigh(startPage, x), Destination(startPage))
                              && SameInside(old(s.mem), s.mem, RESIDENT_ADDR, PARM_ADDR)
                              && Grown(old(s.transfers), s.transfers, |list|))
    ensures old(s.transfers) <= s.transfers
  {
    hide Grown, GoodLink, CanRead, AllCanRead, InstallerForm, InMode, SectorBehind, Target, ChainAt, Represents, Booted,
         Store, Placed, AllInstallerForm, AllInMode, AllRunnable, WithinBlocks, DecodeAll, DmaSafe, Content,
         SameOutside, FrontMem, SameInside, Destination;
    ghost var refs, skip := Targets(s.drives, list), KernelStart(s.drives, s.disk, list);
    ghost var n := Min(skip, |list|);
    ghost var mem0, log0 := s.mem, s.transfers;
    if SetupInSection(s.drives, s.disk, list) <= MAX_SETUP {
      assert RefsRead(s.drives, s.disk, list) == refs;
    }
    SetDestination(s, startPage);
    var launch;
    r, launch := LoadFront(s, start, dflcmd, lock, x, addrs, list);
    if r != Done { return; }
    ghost var log1 := s.transfers;
    SplitInTwo(s.drives, refs, n);
    var ok := true;
    StillSame(s.mem, s.mem, s.mem, KERNEL_ADDR, BOOT_ADDR);
    if launch {
      NothingPlaced(s.drives, s.disk, s.mem, s.ext, refs[n..], startPage);
      NothingGrown(log1);
    } else {
      RestEntries(s.drives, s.mode, addrs, list, skip, s.hinib);
      var units := s.destHigh * 0x100 + s.destLow / 0x100; // word ptr (gdt+0x1b)
      ok := LoadRest(s, x.modern && units != 0, addrs[skip..], refs[n..]);
    }
    GrownTwice(log0, log1, s.transfers, n, |refs| - n);
    if !ok { return Failed; }
    WholeImage(s.drives, s.disk, mem0, s.mem, s.ext, list, x, LoadsHigh(startPage, x), Destination(startPage));
  }

  // The number of entries the loader takes one by one.
  function KernelStart(drives: Drives, disk: Disk, list: seq<SectorAddr>): nat {
    if |list| < 3 then 3 else 3 + SetupCount(SectorBehind(drives, disk, list[2]))
  }

  lemma PrefixEntries(drives: Drives, m: Mode, disk: Disk, addrs: seq<SectorAddr>, list: seq<SectorAddr>, skip: nat)
    requires Represents(drives, m, addrs, list, skip) && AllInstallerForm(drives, list) && AllInMode(m, list)
    requires skip >= 3
    ensures var n := Min(skip, |list|);
            n <= |addrs| && addrs[..n] == list[..n] && (|addrs| > n <==> |list| > n)
    ensures Singles(drives, m, addrs, 3) && (|addrs| >= 3 ==> Singles(drives, m, addrs[3..], skip - 3))
  {
    hide InstallerForm, InMode;
    var n := Min(skip, |list|);
    assert addrs[..n] == list[..n];
    forall i | 0 <= i < n
      ensures InstallerForm(drives, addrs[i]) && InMode(m, addrs[i])
    {
      assert addrs[..n][i] == list[..n][i];
    }
  }

  // The first three sectors, as far as there are any.
  lemma HeaderReadable(drives: Drives, list: seq<SectorAddr>, addrs: seq<SectorAddr>, n: nat)
    requires |list| >= 2 && n <= |list| && n <= |addrs| && addrs[..n] == list[..n] && (n < 3 ==> n == |list| == |addrs|)
    ensures var readable := forall i :: 0 <= i < 3 && i < |addrs| ==> CanRead(drives, Target(drives, addrs[i]));
            var refs := Targets(drives, list);
            && (readable <==> AllCanRead(drives, refs[..Min(3, |list|)]))
            && (!readable ==> !AllCanRead(drives, refs))
            && (|list| == 2 ==> refs[..2] == refs)
  {
    hide CanRead, Target;
    var refs := Targets(drives, list);
    forall i | 0 <= i < 3 && i < |addrs|
      ensures i < |list| && refs[i] == Target(drives, addrs[i])
    {
      assert addrs[..n][i] == list[..n][i];
    }
    forall i | 0 <= i < 3 && i < |list|
      ensures i < |addrs| && refs[i] == Target(drives, addrs[i])
    {
      assert addrs[..n][i] == list[..n][i];
    }
    if !AllCanRead(drives, refs[..Min(3, |list|)]) {
      var i :| 0 <= i < Min(3, |list|) && !CanRead(drives, refs[..Min(3, |list|)][i]);
      assert !CanRead(drives, refs[i]);
    }
  }

  lemma TargetsOfPrefix(drives: Drives, addrs: seq<SectorAddr>, list: seq<SectorAddr>, n: nat)
    requires 3 <= n <= |list| && n <= |addrs| && addrs[..n] == list[..n]
    ensures Targets(drives, addrs[3..][..n - 3]) == Targets(drives, list)[3..n]
  {
    hide Target;
    assert addrs[3..][..n - 3] == addrs[..n][3..] == list[..n][3..] == list[3..n];
  }

  lemma SplitReadable(drives: Drives, refs: seq<SectorRef>, a: nat, b: nat)
    requires a <= b <= |refs|
    ensures AllCanRead(drives, refs)
            <==> AllCanRead(drives, refs[..a]) && AllCanRead(drives, refs[a..b]) && AllCanRead(drives, refs[b..])
  {
    hide CanRead;
    forall i | 0 <= i < |refs|
      ensures refs[i] == if i < a then refs[..a][i] else if i < b then refs[a..b][i - a] else refs[b..][i - b]
    {
    }
  }

  lemma NothingPlaced(drives: Drives, disk: Disk, mem: Cells, ext: Cells, refs: seq<SectorRef>, startPage: word)
    requires refs == []
    ensures Placed(ext, Destination(startPage), Content(disk, refs)) && Placed(mem, KERNEL_ADDR, Content(disk, refs))
    ensures AllCanRead(drives, refs)
  {
  }

  // What is left behind the single sectors.
  lemma RestEntries(drives: Drives, m: Mode, addrs: seq<SectorAddr>, list: seq<SectorAddr>, skip: nat, h: byte)
    requires Represents(drives, m, addrs, list, skip) && HinibFits(m, h) && skip <= |list|
    ensures skip <= |addrs| && AllRunnable(drives, m, addrs[skip..]) && WithinBlocks(addrs[skip..], 0, 128)
    ensures DecodeAll(drives, addrs[skip..], h) == Targets(drives, list)[skip..]
  {
    hide Runnable, InMode, Target, Decode;
    assert Targets(drives, list[skip..]) == Targets(drives, list)[skip..];
  }

  lemma WholeImage(drives: Drives, disk: Disk, mem0: Cells, mem: Cells, ext: Cells, list: seq<SectorAddr>,
                   x: Patches, high: bool, dest: nat)
    requires |list| >= 3 && SetupInSection(drives, disk, list) <= MAX_SETUP
    requires var refs, skip := Targets(drives, list), Min(KernelStart(drives, disk, list), |list|);
             && SameOutside(FrontMem(drives, disk, mem0, list, x), mem, KERNEL_ADDR, BOOT_ADDR)
             && if high then Placed(ext, dest, Content(disk, refs[skip..]))
                else Placed(mem, KERNEL_ADDR, Content(disk, refs[skip..]))
    ensures Booted(mem, ext, Content(disk, Targets(drives, list)), x, high, dest)
    ensures SameInside(mem0, mem, RESIDENT_ADDR, PARM_ADDR)
  {
    hide Placed, SameOutside, Store, Target, BootSector, SetupHeader, SameInside;
    var refs, skip := Targets(drives, list), Min(KernelStart(drives, disk, list), |list|);
    var blocks := Content(disk, refs);
    HeaderStays(mem0, FrontMem(drives, disk, mem0, list, x), mem, blocks[1], x.line, BootSector(blocks[2], x),
                SetupSectors(blocks, SetupCount(blocks[2]), x));
    assert Content(disk, refs[skip..]) == blocks[skip..];
  }

  // Changing the first of the blocks stored.
  lemma FirstCell(mem: Cells, addr: nat, blocks: seq<Block>, block: Block)
    requires blocks != []
    ensures addr in Store(mem, addr, blocks) && Store(mem, addr, blocks)[addr] == blocks[0]
    ensures Store(mem, addr, blocks)[addr := block] == Store(mem, addr, blocks[0 := block])
  {
    StoredCell(mem, addr, blocks, 0);
    OtherUpdate(mem[addr := blocks[0]], addr + SECTOR_SIZE, blocks[1..], addr, block);
    assert mem[addr := blocks[0]][addr := block] == mem[addr := block];
    assert blocks[0 := block][1..] == blocks[1..];
  }

  lemma {:induction false} OtherUpdate(mem: Cells, addr: nat, blocks: seq<Block>, a: nat, block: Block)
    requires a < addr
    ensures Store(mem, addr, blocks)[a := block] == Store(mem[a := block], addr, blocks)
    decreases |blocks|
  {
    if blocks != [] {
      OtherUpdate(mem[addr := blocks[0]], addr + SECTOR_SIZE, blocks[1..], a, block);
      assert mem[addr := blocks[0]][a := block] == mem[a := block][addr := blocks[0]];
    }
  }
}
