/** From a kernel file to the booted kernel: the installer maps the file (boot_image and
    bsect_common), the loader loads the map, and memory holds exactly the file. */
module EndToEnd {
  import opened Bytes
  import opened SectorAddress
  import opened Geometry
  import opened FileSectors
  import opened Compaction
  import opened Maximality
  import opened Memory
  import opened MapPages
  import opened MapSection
  import opened MapFile
  import opened PageChain
  import opened DiskWrite
  import opened Loader
  import opened SecondStage
  import opened BootKernel
  import opened SectorSum
  import opened HeaderPatches
  import opened KernelHeader
  import opened Runs

  const SPECIAL_SECTORS: nat := 2

  // ---------- the sectors of a mapped file ----------

  // The sectors a mapped file is read from: its own, or the zero sector of the map file.
  function FileRef(host: HostFile, f: HostFile, k: nat): SectorRef {
    if SectorNumber(f, k) < 0 then RefOf(host, 3) else RefOf(f, k)
  }

  function FileRefs(host: HostFile, f: HostFile, n: nat): seq<SectorRef> {
    seq(n, k requires 0 <= k < n => FileRef(host, f, k))
  }

  // Mapping a file gives one installer-form address per sector, naming that sector.
  lemma {:induction false} FileEntriesTargets(drives: Drives, host: HostFile, f: HostFile, n: nat)
    requires Usable(drives, host, 4) && Usable(drives, f, n) && host.options == f.options && host.Located(3).Mapped?
    requires FileEntries(f, AddrOf(host, 3), 0, n).Entries?
    ensures var list := FileEntries(f, AddrOf(host, 3), 0, n).list;
            && AllInstallerForm(drives, list) && AllInMode(ModeOf(f.options), list)
            && Targets(drives, list) == FileRefs(host, f, n)
  {
    hide InstallerForm, InMode, Target, CompAddr, SectorNumber;
    if n > 0 {
      var before, list := FileEntries(f, AddrOf(host, 3), 0, n - 1).list, FileEntries(f, AddrOf(host, 3), 0, n).list;
      FileEntriesTargets(drives, host, f, n - 1);
      EntryTarget(drives, host, f, n - 1);
      assert list == before + [list[n - 1]];
      assert Targets(drives, list) == Targets(drives, before) + [Target(drives, list[n - 1])];
      assert FileRefs(host, f, n) == FileRefs(host, f, n - 1) + [FileRef(host, f, n - 1)];
    }
  }

  lemma EntryTarget(drives: Drives, host: HostFile, f: HostFile, k: nat)
    requires Usable(drives, host, 4) && Usable(drives, f, k + 1) && host.options == f.options && host.Located(3).Mapped?
    requires !f.Located(k).Fatal?
    ensures var a := if f.Located(k).Mapped? then f.Located(k).addr else AddrOf(host, 3);
            InstallerForm(drives, a) && InMode(ModeOf(f.options), a) && Target(drives, a) == FileRef(host, f, k)
  {
    if f.Located(k).Mapped? {
      LocatedTarget(drives, f, k);
    } else {
      LocatedTarget(drives, host, 3);
    }
  }

  // ---------- the installer's side ----------

  // The addresses of a kernel's section: fallback and options sector, then the kernel file.
  function KernelSection(host: HostFile, f: HostFile, n: nat): Entries {
    match FileEntries(f, AddrOf(host, 3), 0, n)
    case GaveUp => GaveUp
    case Entries(list) => Entries([AddrOf(host, 4), AddrOf(host, 5)] + list)
  }

  // The list as laid out, with or without COMPACT.
  function Laid(list: seq<SectorAddr>, setup: nat, compact: bool, lba32: bool): seq<SectorAddr> {
    if compact then Compact(list, setup + SPECIAL_SECTORS + 1, MaxCount(lba32)) else list
  }

  // The sectors of the map file that are not computed here: the descriptor table, the fallback
  // command line and the options.
  datatype Extras = Extras(descr1: Block, descr2: Block, fallback: Block, options: Block)

  // The map file after one kernel has been installed.
  function MapSectors(host: HostFile, x: Extras, addrs: seq<SectorAddr>): seq<Block> {
    [HeaderBlock(), x.descr1, x.descr2, ZeroBlock(), x.fallback, x.options] + Paginate(host, addrs, 6)
  }

  // A file's sectors, the last of which may be used in part.
  function Sectors(size: nat): (n: nat)
    ensures 512 * (n as int - 1) < size <= 512 * n || size == n == 0
  {
    (size + SECTOR_SIZE - 1) / SECTOR_SIZE
  }

  // A kernel file, as boot_image reads it: its size in bytes, and the two sectors it looks at.
  datatype Kernel = Kernel(size: nat, bootSector: Block, header: Block) {
    function SetupSectors(): nat {
      SetupCount(bootSector)
    }

    // The file is long enough to be read.
    predicate Complete() {
      size >= SECTOR_SIZE + HEADER_SIZE
    }

    // The two sectors are the file's first two.
    ghost predicate IsFile(disk: Disk, f: HostFile) {
      bootSector == FileBlock(disk, f, 0) && header == FileBlock(disk, f, 1)
    }
  }

  // The list of a kernel's section as it is stored.
  function Stored(host: HostFile, f: HostFile, kernel: Kernel, compact: bool): seq<SectorAddr>
    requires KernelSection(host, f, Sectors(kernel.size)).Entries?
  {
    var list := KernelSection(host, f, Sectors(kernel.size)).list;
    Laid(list, kernel.SetupSectors(), compact, host.options.lba32)
  }

  // Every sector of the kernel and of the map file can be addressed.
  ghost predicate CanMap(host: HostFile, f: HostFile, kernel: Kernel, compact: bool) {
    && AllLocated(host, 0, 6)
    && KernelSection(host, f, Sectors(kernel.size)).Entries?
    && AllLocated(host, 6, 6 + |Paginate(host, Stored(host, f, kernel, compact), 6)|)
  }

  // Besides, the header can be read, and the kernel is page-aligned if it is to be loaded high, or
  // else check_size is content with the number of sectors map_end_section reports.
  ghost predicate CanInstall(host: HostFile, f: HostFile, kernel: Kernel, compact: bool) {
    && kernel.Complete() && CanMap(host, f, kernel, compact)
    && if WantsHigh(kernel.header) then StartOf(kernel.header) % PAGE_SIZE == 0
       else RawSum(Stored(host, f, kernel, compact)) <= kernel.SetupSectors() + MAX_KERNEL_SECS
  }

  // What that means for the bytes of the file: a kernel of 552 bytes or more, signed "HdrS", of
  // version 2.0 or later, with the lowest flag bit set, is accepted exactly if its start, told by
  // four bytes, is a multiple of 4096; any other exactly if its reported size is at most 1024 more
  // than its setup sectors.
  lemma AcceptedByHeader(host: HostFile, f: HostFile, kernel: Kernel, compact: bool)
    ensures var h: seq<int>, b: seq<int> := kernel.header, kernel.bootSector;
            var start := h[20] + 0x100 * h[21] + 0x1_0000 * h[22] + 0x100_0000 * h[23];
            var usable := kernel.size >= 552 && CanMap(host, f, kernel, compact);
            if h[2..6] == [0x48, 0x64, 0x72, 0x53] && h[7] >= 2 && h[17] % 2 == 1 then
              && (CanInstall(host, f, kernel, compact) <==> usable && start % 4096 == 0)
              && StartPage(kernel.header) == start / 4096 % 0x1_0000
            else
              && (CanInstall(host, f, kernel, compact) <==>
                    usable && RawSum(Stored(host, f, kernel, compact)) <= 1024 + if b[497] == 0 then 4 else b[497])
              && StartPage(kernel.header) == 0
  {
    hide CanMap, Stored, RawSum, Modern, StartOf;
    HeaderBytes(kernel.header);
    var h: seq<int> := kernel.header;
    assert h[2..6] == [h[2], h[3], h[4], h[5]];
  }

  // The runs of a compacted section, from the sector behind the setup sectors on: up to 127 sectors
  // in LBA32 mode, 128 otherwise, none across a 64 KiB boundary, and none that could be longer.
  lemma StoredRuns(drives: Drives, host: HostFile, f: HostFile, kernel: Kernel, h: byte)
    requires Usable(drives, host, 6) && Usable(drives, f, Sectors(kernel.size)) && host.options == f.options
    requires AllLocated(host, 3, 6) && KernelSection(host, f, Sectors(kernel.size)).Entries?
    ensures var skip := 3 + kernel.SetupSectors();
            var list, most := Stored(host, f, kernel, true), if host.options.lba32 then 127 else 128;
            skip < |list| ==> WithinBlocks(list[skip..], 0, most) && NoneMergeable(drives, list[skip..], h, 0, most)
  {
    hide CompactFrom, WithinBlocks, NoneMergeable, InstallerForm, InMode, Target, FileEntries, CompAddr, KernelRefs;
    var section, skip := KernelSection(host, f, Sectors(kernel.size)).list, 3 + kernel.SetupSectors();
    SectionTargets(drives, host, f, Sectors(kernel.size));
    if skip < |section| {
      CompactWithinBlocks(drives, section, skip, MaxCount(host.options.lba32));
      CompactIsMaximal(drives, section, skip, MaxCount(host.options.lba32), h);
    }
  }

  // map_create, bsect_common, boot_image and map_done: map a kernel file into a new map file. Gives
  // the addresses of the kernel's first map page and of the default command line, and start_page.
  method InstallKernel(host: HostFile, f: HostFile, kernel: Kernel, x: Extras, compact: bool)
    returns (ok: bool, start: SectorAddr, dflcmd: SectorAddr, startPage: word, file: seq<Block>)
    ensures ok <==> CanInstall(host, f, kernel, compact)
    ensures ok ==> && start == AddrOf(host, 6) && dflcmd == AddrOf(host, 0) && startPage == StartPage(kernel.header)
                   && file == InstalledMap(host, f, kernel, x, compact)
  {
    hide Compact, FileEntries, Paginate, CompAddr, RawSum, HeaderBlock, ZeroBlock, WantsHigh, StartOf;
    start, dflcmd, startPage, file := NULL_ADDR, NULL_ADDR, 0, [];
    var m := new MapFile(host);
    if !m.created { return false, start, dflcmd, startPage, file; }
    var section := new Section();
    ok := BeginKernel(m, section, x);
    if !ok { return; }
    if kernel.size < SECTOR_SIZE + HEADER_SIZE {          // read
      return false, start, dflcmd, startPage, file;
    }
    var setup := kernel.SetupSectors();
    ok := section.Add(f, m.zeroAddr, 0, Sectors(kernel.size));
    if !ok { return; }
    LaidNotEmpty(section.Contents(), setup, compact, host.options.lba32);
    var sum;
    ok, start, sum := m.EndSection(section, setup + SPECIAL_SECTORS, compact);
    if !ok { return; }
    if !WantsHigh(kernel.header) {
      ok := sum <= setup + MAX_KERNEL_SECS;               // check_size
    } else {
      ok := StartOf(kernel.header) % PAGE_SIZE == 0;
      startPage := StartOf(kernel.header) / PAGE_SIZE % 0x1_0000;
    }
    if !ok { return; }
    var addrs;
    ok, addrs := m.Done(x.descr1, x.descr2);
    dflcmd, file := addrs[2], m.sectors;
  }

  // The map file that makes.
  function InstalledMap(host: HostFile, f: HostFile, kernel: Kernel, x: Extras, compact: bool): seq<Block>
    requires KernelSection(host, f, Sectors(kernel.size)).Entries?
  {
    MapSectors(host, x, Stored(host, f, kernel, compact))
  }

  // Its first sectors: the mark of a command line that is not to be used, the descriptor table, the
  // sector of zeros, the fallback command line and the options.
  lemma MapFileStarts(host: HostFile, f: HostFile, kernel: Kernel, x: Extras, compact: bool)
    requires KernelSection(host, f, Sectors(kernel.size)).Entries?
    ensures var file := InstalledMap(host, f, kernel, x, compact);
            && |file| >= 7 && file[0][..2] == [0x6d, 0x6b] && file[0][2..] == file[3][2..]
            && file[1] == x.descr1 && file[2] == x.descr2 && (forall p :: 0 <= p < 512 ==> file[3][p] == 0)
            && file[4] == x.fallback && file[5] == x.options
  {
    hide Paginate, Stored;
  }

  lemma LaidNotEmpty(list: seq<SectorAddr>, setup: nat, compact: bool, lba32: bool)
    requires list != []
    ensures Laid(list, setup, compact, lba32) != []
  {
  }

  // bsect_common: the fallback and options sectors come first.
  method BeginKernel(m: MapFile, section: Section, x: Extras) returns (ok: bool)
    requires section.Valid() && section.nodes == [] && |m.sectors| == 4
    modifies m`sectors, section
    ensures section.Valid() && m.sectors == old(m.sectors) + [x.fallback, x.options]
    ensures ok <==> AllLocated(m.host, 4, 6)
    ensures ok ==> section.Contents() == [AddrOf(m.host, 4), AddrOf(m.host, 5)]
    ensures forall i :: 0 <= i < |section.nodes| ==> fresh(section.nodes[i])
  {
    hide CompAddr;
    ok := m.AddSector(section, x.fallback);
    var second := m.AddSector(section, x.options);
    ok := ok && second;
  }

  // ---------- the whole way ----------

  // The content of sector k of a file; a hole reads as zero.
  function FileBlock(disk: Disk, f: HostFile, k: nat): Block {
    if SectorNumber(f, k) < 0 then ZeroBlock() else disk(f.geo.device, SectorNumber(f, k))
  }

  function FileBlocks(disk: Disk, f: HostFile, n: nat): seq<Block> {
    seq<Block>(n, k requires 0 <= k < n => FileBlock(disk, f, k))
  }

  // The file that is meant: sector k is zeros if FIBMAP has no block for it, and sector k % spb of
  // that block of the partition otherwise.
  lemma FileContent(disk: Disk, f: HostFile, k: nat)
    ensures var block := f.bmap(k / f.geo.spb);
            if f.geo.file && block == 0 then forall p :: 0 <= p < 512 ==> FileBlock(disk, f, k)[p] == 0
            else if f.geo.file then
              FileBlock(disk, f, k) == disk(f.geo.device, block * f.geo.spb + k % f.geo.spb + f.geo.start)
            else FileBlock(disk, f, k) == disk(f.geo.device, k + f.geo.start)
  {
    hide SectorNumber;
    SectorOfFile(f, k);
  }

  // The sectors the loader reads for an installed kernel.
  function KernelRefs(host: HostFile, f: HostFile, n: nat): seq<SectorRef> {
    [RefOf(host, 4), RefOf(host, 5)] + FileRefs(host, f, n)
  }

  lemma SectionTargets(drives: Drives, host: HostFile, f: HostFile, n: nat)
    requires Usable(drives, host, 6) && Usable(drives, f, n) && host.options == f.options && AllLocated(host, 3, 6)
    requires KernelSection(host, f, n).Entries?
    ensures var list := KernelSection(host, f, n).list;
            && AllInstallerForm(drives, list) && AllInMode(ModeOf(f.options), list)
            && Targets(drives, list) == KernelRefs(host, f, n)
  {
    hide InstallerForm, InMode, Target, CompAddr, SectorNumber, RefOf;
    FileEntriesTargets(drives, host, f, n);
    LocatedTarget(drives, host, 4);
    LocatedTarget(drives, host, 5);
    var tail := FileEntries(f, AddrOf(host, 3), 0, n).list;
    var list := [AddrOf(host, 4), AddrOf(host, 5)] + tail;
    assert Targets(drives, list) == [RefOf(host, 4), RefOf(host, 5)] + Targets(drives, tail);
  }

  // With the map file on disk, those sectors hold the two special sectors and the file.
  lemma KernelContent(drives: Drives, disk: Disk, host: HostFile, f: HostFile, n: nat, x: Extras,
                      addrs: seq<SectorAddr>)
    requires Usable(drives, host, 6) && AllLocated(host, 3, 6)
    requires OnDisk(drives, ModeOf(host.options), disk, host, 0, MapSectors(host, x, addrs))
    ensures Content(disk, KernelRefs(host, f, n)) == [x.fallback, x.options] + FileBlocks(disk, f, n)
  {
    hide InstallerForm, InMode, Target, CompAddr, SectorNumber, CanRead;
    var file := MapSectors(host, x, addrs);
    forall k | 3 <= k < 6
      ensures disk(RefOf(host, k).drive, RefOf(host, k).lba) == file[k]
    {
      assert Holds(drives, ModeOf(host.options), disk, host, 0 + k, file[k]);
      LocatedTarget(drives, host, k);
    }
  }

  // The map file is written to disk without touching the kernel file, and can be read back.
  ghost predicate CanWrite(drives: Drives, host: HostFile, count: nat, f: HostFile, n: nat) {
    && Usable(drives, host, count) && Distinct(host, count) && FileReadable(drives, host, count)
    && Disjoint(host, count, f, n)
  }

  lemma KernelKept(disk: Disk, host: HostFile, blocks: seq<Block>, f: HostFile, n: nat)
    requires Disjoint(host, |blocks|, f, n)
    ensures FileBlocks(WithFile(disk, host, 0, blocks), f, n) == FileBlocks(disk, f, n)
  {
    hide SectorNumber, WithFile;
    forall k: nat | k < n
      ensures FileBlock(WithFile(disk, host, 0, blocks), f, k) == FileBlock(disk, f, k)
    {
      OtherSector(disk, host, 0, blocks, f.geo.device, SectorNumber(f, k));
    }
  }

  // The setup sectors of a kernel that the loader takes one by one, and what it reads: all of the
  // kernel, unless those reach the loader.
  function SetupTaken(kernel: Kernel): nat {
    var n := Sectors(kernel.size);
    if n == 0 then 0 else Min(kernel.SetupSectors(), n - 1)
  }

  function RefsTaken(host: HostFile, f: HostFile, kernel: Kernel): seq<SectorRef> {
    var refs := KernelRefs(host, f, Sectors(kernel.size));
    if SetupTaken(kernel) > MAX_SETUP then refs[..3 + MAX_SETUP + 1] else refs
  }

  // The kernel fits where it is to go. The installer does not look at the size of a kernel that
  // wants to be high, and cannot rely on check_size in LBA32 mode; everywhere else it sees to it.
  predicate Fits(kernel: Kernel, mode: Mode) {
    var proper := Sectors(kernel.size) - 1 - kernel.SetupSectors();
    var dest := Destination(StartPage(kernel.header));
    if dest != 0 then dest + SECTOR_SIZE * proper <= TWO_24
    else WantsHigh(kernel.header) || mode.Lba32Mode? ==> proper <= MAX_KERNEL_SECS
  }

  // End to end: install a kernel file from a disk, write the map file to that disk, and boot from
  // it. Unless the kernel has so many setup sectors that they reach the loader, or some sector
  // cannot be read, memory ends up with the options, the file's boot sector, its setup sectors and
  // the kernel proper, in order, whatever the file's fragmentation and holes and whichever of CHS,
  // LINEAR, LBA32 and COMPACT were used; and the loader's own area is as it was.
  method InstallAndBoot(disk: Disk, host: HostFile, f: HostFile, kernel: Kernel, x: Extras, compact: bool, lock: bool,
                        patches: Patches, s: SecondStage)
    returns (installed: bool, r: Loaded)
    requires host.options == f.options && s.Valid() && s.mode == ModeOf(f.options)
    requires kernel.IsFile(disk, f) && Usable(s.drives, f, Sectors(kernel.size)) && Fits(kernel, s.mode)
    requires patches.modern == Modern(kernel.header)
    requires CanInstall(host, f, kernel, compact) ==>
               var file := InstalledMap(host, f, kernel, x, compact);
               CanWrite(s.drives, host, |file|, f, Sectors(kernel.size)) && s.disk == WithFile(disk, host, 0, file)
    modifies s
    ensures installed <==> CanInstall(host, f, kernel, compact)
    ensures installed ==>
              var n, refs := Sectors(kernel.size), RefsTaken(host, f, kernel);
              && (r == Failed <==> !AllCanRead(s.drives, refs))
              && (r == Overrun <==> AllCanRead(s.drives, refs) && SetupTaken(kernel) > MAX_SETUP)
              && (r == Done <==> AllCanRead(s.drives, refs) && SetupTaken(kernel) <= MAX_SETUP)
              && (r == Done ==>
                    && Booted(s.mem, s.ext, [x.fallback, x.options] + FileBlocks(disk, f, n), patches,
                              Destination(StartPage(kernel.header)) != 0, Destination(StartPage(kernel.header)))
                    && SameInside(old(s.mem), s.mem, RESIDENT_ADDR, PARM_ADDR)
                    && Grown(old(s.transfers), s.transfers, n + 2))
    ensures AllDmaSafe(s.transfers) && old(s.transfers) <= s.transfers
  {
    hide CanRead, AllCanRead, CompAddr, FileBlock, Paginate, Compact, FileEntries, ChainAt, GoodLink, Represents,
         Booted, OnDisk, RawSum, InstallerForm, InMode, Target, KernelRefs, DmaSafe, WithFile, SectorNumber, MapSectors,
         Distinct, FileReadable, Disjoint, Grown, SameInside, Modern, StartOf, Destination;
    var n, setup := Sectors(kernel.size), kernel.SetupSectors();
    var start, dflcmd, startPage, file;
    installed, start, dflcmd, startPage, file := InstallKernel(host, f, kernel, x, compact);
    r := Failed;
    if !installed { return; }
    ghost var list := KernelSection(host, f, n).list;
    ghost var addrs := Laid(list, setup, compact, host.options.lba32);
    MapSize(host, x, addrs);
    WrittenFileIsOnDisk(s.drives, disk, host, file);
    KernelKept(disk, host, file, f, n);
    assert FileBlocks(s.disk, f, n)[0] == FileBlocks(disk, f, n)[0];
    ReadyToBoot(s.drives, s.mode, s.disk, host, f, n, x, compact);
    if !WantsHigh(kernel.header) && !s.mode.Lba32Mode? {
      ReportedWithoutLba32(s.drives, s.mode, list, setup + SPECIAL_SECTORS + 1, MaxCount(host.options.lba32));
    }
    NoPage();
    r := BootImage(s, start, dflcmd, startPage, lock, patches, addrs, list);
  }

  lemma NoPage()
    ensures Destination(0) == 0
  {
  }

  lemma MapSize(host: HostFile, x: Extras, addrs: seq<SectorAddr>)
    ensures |MapSectors(host, x, addrs)| == 6 + |Paginate(host, addrs, 6)| >= 7
    ensures AllLocated(host, 0, 6) && AllLocated(host, 6, 6 + |Paginate(host, addrs, 6)|)
            ==> AllLocated(host, 0, |MapSectors(host, x, addrs)|)
  {
  }

  // What the installer leaves behind is what the loader needs.
  lemma ReadyToBoot(drives: Drives, m: Mode, disk: Disk, host: HostFile, f: HostFile, n: nat, x: Extras,
                    compact: bool)
    requires n >= 1 && host.options == f.options && m == ModeOf(f.options)
    requires Usable(drives, f, n) && Usable(drives, host, 7) && AllLocated(host, 0, 6)
    requires KernelSection(host, f, n).Entries?
    requires var addrs := Laid(KernelSection(host, f, n).list, SetupCount(FileBlock(disk, f, 0)), compact,
                               host.options.lba32);
             OnDisk(drives, m, disk, host, 0, MapSectors(host, x, addrs))
    ensures var list := KernelSection(host, f, n).list;
            var setup := SetupCount(FileBlock(disk, f, 0));
            var addrs := Laid(list, setup, compact, host.options.lba32);
            && GoodLink(drives, m, AddrOf(host, 6)) && GoodLink(drives, m, AddrOf(host, 0))
            && ChainAt(drives, m, disk, SectorBehind(drives, disk, AddrOf(host, 6)), 0, addrs)
            && AllInstallerForm(drives, list) && AllInMode(m, list) && |list| == n + 2
            && KernelStart(drives, disk, list) == 3 + setup
            && Represents(drives, m, addrs, list, 3 + setup)
            && Targets(drives, list) == KernelRefs(host, f, n)
            && Content(disk, KernelRefs(host, f, n)) == [x.fallback, x.options] + FileBlocks(disk, f, n)
  {
    hide InstallerForm, InMode, Target, CompAddr, SectorNumber, GoodLink, FileBlock, Paginate, Compact, Represents,
         FileEntries, ChainAt;
    var list := KernelSection(host, f, n).list;
    var setup := SetupCount(FileBlock(disk, f, 0));
    var addrs := Laid(list, setup, compact, host.options.lba32);
    var file := MapSectors(host, x, addrs);
    var pages := Paginate(host, addrs, 6);
    SectionTargets(drives, host, f, n);
    KernelContent(drives, disk, host, f, n, x, addrs);
    assert Holds(drives, m, disk, host, 0 + 0, file[0]);
    assert Holds(drives, m, disk, host, 0 + 6, file[6]);
    forall i | 0 <= i < |pages|
      ensures Holds(drives, m, disk, host, 6 + i, pages[i])
    {
      assert file[6 + i] == pages[i] && Holds(drives, m, disk, host, 0 + (6 + i), file[6 + i]);
    }
    if compact {
      CompactedRepresents(drives, m, list, 3 + setup, host.options.lba32);
    } else {
      UncompactedRepresents(drives, m, list, 3 + setup);
    }
    RepresentsNoneNull(drives, m, addrs, list, 3 + setup);
    PagesFormChain(drives, m, disk, host, addrs, 6);
    assert |Targets(drives, list)| == n + 2 && Targets(drives, list)[2] == Target(drives, list[2]);
    assert SectorBehind(drives, disk, list[2]) == Content(disk, KernelRefs(host, f, n))[2];
  }

  lemma RepresentsNoneNull(drives: Drives, m: Mode, addrs: seq<SectorAddr>, list: seq<SectorAddr>, skip: nat)
    requires Represents(drives, m, addrs, list, skip) && AllInstallerForm(drives, list)
    ensures NoneNull(addrs)
  {
    hide DecodeAll;
    forall i | 0 <= i < |addrs|
      ensures !IsNull(addrs[i])
    {
      if |list| <= skip || i < skip {
        assert addrs[i] == list[i] by {
          assert |list| > skip ==> addrs[..skip][i] == list[..skip][i];
        }
        InstallerFormIsNotNull(drives, list[i]);
      } else {
        assert Runnable(drives, addrs[skip..][i - skip]);
      }
    }
  }

  // ---------- the size check ----------

  // check_size accepts a low-loaded section exactly if its length and what the kept high bytes add
  // to it are within the limit.
  lemma SizeCheck(drives: Drives, list: seq<SectorAddr>, setup: nat, compact: bool, lba32: bool)
    requires AllInstallerForm(drives, list)
    ensures var skip := if compact then setup + SPECIAL_SECTORS + 1 else |list|;
            RawSum(Laid(list, setup, compact, lba32)) <= setup + MAX_KERNEL_SECS
            <==> |list| + Surplus(list, skip, |list|) <= setup + MAX_KERNEL_SECS
  {
    hide Surplus, RawSum, Compact;
    if compact {
      ReportedSectors(drives, list, setup + SPECIAL_SECTORS + 1, MaxCount(lba32));
    } else {
      ReportedUncompacted(drives, list);
    }
  }

  // The first n sectors of a file, and of the map file, are on the first 8 GB of their disks.
  ghost predicate Below8Gb(f: HostFile, n: nat) {
    forall k: nat :: k < n ==> SectorNumber(f, k) < TWO_24
  }

  lemma {:induction false} EntriesBelow8Gb(host: HostFile, f: HostFile, n: nat)
    requires FileEntries(f, AddrOf(host, 3), 0, n).Entries? && host.Located(3).Mapped?
    requires Below8Gb(host, 4) && Below8Gb(f, n)
    requires ViaOf(host) == Lba32 && ViaOf(f) == Lba32
    ensures AllBelow8Gb(FileEntries(f, AddrOf(host, 3), 0, n).list)
  {
    hide CompAddr, SectorNumber, IsNoCount, AddrOf;
    if n > 0 {
      EntriesBelow8Gb(host, f, n - 1);
      if f.Located(n - 1).Mapped? {
        EntryBelow8Gb(f, n - 1);
      }
      EntryBelow8Gb(host, 3);
    }
  }

  lemma EntryBelow8Gb(f: HostFile, k: nat)
    requires f.Located(k).Mapped? && SectorNumber(f, k) < TWO_24 && ViaOf(f) == Lba32
    ensures IsNoCount(f.Located(k).addr) && f.Located(k).addr.numSect == 0
    ensures AddrOf(f, k) == f.Located(k).addr
  {
    var sector := SectorNumber(f, k);
    assert sector / 256 / 256 / 256 == 0;
    FlaggedDevice(_ => DriveFields(1, 1, 1, false), f.geo.device, false, sector);
  }

  // In LBA32 mode on the first 8 GB of a disk, without COMPACT, a low-loaded kernel of any size is
  // accepted, although no more than MAX_KERNEL_SECS sectors fit below the boot sector. With
  // COMPACT it is accepted exactly if it exceeds the limit by no more than the number of entries
  // that keep their high byte.
  lemma OversizeAccepted(drives: Drives, host: HostFile, f: HostFile, kernel: Kernel)
    requires kernel.Complete() && !WantsHigh(kernel.header) && host.options == f.options
    requires Usable(drives, host, 6) && Usable(drives, f, Sectors(kernel.size))
    requires Below8Gb(host, 6) && Below8Gb(f, Sectors(kernel.size)) && ViaOf(host) == Lba32 && ViaOf(f) == Lba32
    requires AllLocated(host, 0, 6) && KernelSection(host, f, Sectors(kernel.size)).Entries?
    ensures var list, setup := KernelSection(host, f, Sectors(kernel.size)).list, kernel.SetupSectors();
            && (CanInstall(host, f, kernel, false) <==> AllLocated(host, 6, 6 + |Paginate(host, list, 6)|))
            && var addrs := Laid(list, setup, true, host.options.lba32);
               CanInstall(host, f, kernel, true)
               <==> AllLocated(host, 6, 6 + |Paginate(host, addrs, 6)|)
                    && |list| <= setup + MAX_KERNEL_SECS + Kept(list, setup + SPECIAL_SECTORS + 1, |list|)
  {
    hide CompAddr, SectorNumber, IsNoCount, AddrOf, RawSum, Compact, Paginate, FileEntries, Kept, InstallerForm,
         WantsHigh;
    var n := Sectors(kernel.size);
    var list := KernelSection(host, f, n).list;
    SectionTargets(drives, host, f, n);
    EntriesBelow8Gb(host, f, n);
    EntryBelow8Gb(host, 4);
    EntryBelow8Gb(host, 5);
    assert AllBelow8Gb(list);
    ReportedTooFew(drives, list, kernel.SetupSectors() + SPECIAL_SECTORS + 1, MaxCount(host.options.lba32));
  }
}
