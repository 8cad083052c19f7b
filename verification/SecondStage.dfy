/** Loading a mapped file (second.S): the page walk, the data pointer, and the load loop. */
module SecondStage {
  import opened Bytes
  import opened SectorAddress
  import opened Compaction
  import opened DiskRead
  import opened Memory
  import opened MapPages
  import opened PageChain
  import opened Loader

  // The tail of sread: the data pointer ES:BX after `count` sectors.
  function Advance(es: word, bx: word, count: byte): (word, word) {
    var ax := 2 * count * 0x100;                      // shl ax,8; add ah,ah
    if ax >= 0x1_0000 then ((es + 0x1000) % 0x1_0000, bx)
    else if bx + ax >= 0x1_0000 then ((es + 0x1000) % 0x1_0000, bx + ax - 0x1_0000)
    else (es, bx + ax)
  }

  // ES:BX moves by exactly 512 bytes a sector, modulo the megabyte that real mode can address,
  // for the transfers the map can contain and for no longer ones.
  lemma AdvanceIsExact(es: word, bx: word, count: byte)
    ensures var (es', bx') := Advance(es, bx, count);
            (es' * 16 + bx') % 0x10_0000 == (es * 16 + bx + SECTOR_SIZE * count) % 0x10_0000 <==> count <= 128
  {
  }

  const MAP_OFFSET: word := 0x2000

  // The drive code cread passes to the BIOS.
  function DriveOf(a: SectorAddr): byte {
    if AccessOf(a).Chs? then a.device else DriveCode(a.device)
  }

  lemma InstallerFormIsRunnable(drives: Drives, a: SectorAddr)
    requires InstallerForm(drives, a)
    ensures Runnable(drives, a) && Target(drives, a).drive == DriveOf(a)
  {
  }

  datatype Fetched = Entry(addr: SectorAddr) | Eof

  // How far a load got. Overrun is for setup sectors that have reached the loader itself.
  datatype Loaded = Done | AtEof | Failed | Overrun

  // Where one BIOS transfer of consecutive sectors went.
  datatype Transfer = Transfer(phys: nat, count: nat)

  // An ISA DMA transfer cannot cross a 64 KiB boundary of physical memory.
  predicate DmaSafe(t: Transfer) {
    t.count >= 1 && t.phys / 0x1_0000 == (t.phys + SECTOR_SIZE * t.count - 1) / 0x1_0000
  }

  // The sectors a log of transfers adds up to.
  function Total(ts: seq<Transfer>): nat {
    if ts == [] then 0 else Total(ts[..|ts| - 1]) + ts[|ts| - 1].count
  }

  // The log has only been added to, by transfers of this many sectors in all.
  ghost predicate Grown(before: seq<Transfer>, after: seq<Transfer>, count: nat) {
    before <= after && Total(after) == Total(before) + count
  }

  lemma NothingGrown(before: seq<Transfer>)
    ensures Grown(before, before, 0)
  {
  }

  lemma OneMoreTransfer(before: seq<Transfer>, now: seq<Transfer>, count: nat, t: Transfer)
    requires Grown(before, now, count)
    ensures Grown(before, now + [t], count + t.count) && before <= now + [t]
  {
    assert (now + [t])[..|now|] == now;
  }

  lemma GrownTwice(a: seq<Transfer>, b: seq<Transfer>, c: seq<Transfer>, j: nat, k: nat)
    ensures a <= b && b <= c ==> a <= c
    ensures Grown(a, b, j) ==> a <= b
    ensures Grown(a, b, j) && Grown(b, c, k) ==> Grown(a, c, j + k)
  {
  }

  class SecondStage {
    const drives: Drives
    const disk: Disk
    ghost const mode: Mode
    var page: Block                      // the map page at MAP
    var moff: nat                        // offset of the next entry in it
    var hinib: byte                      // high byte for LBA32 addresses with a count
    var es: word
    var bx: word
    var mem: Cells                       // conventional memory
    var ext: Cells                       // memory above 1 MB
    var destLow: word                    // 24-bit destination address in the GDT
    var destHigh: byte
    ghost var transfers: seq<Transfer>   // where every run of data so far went, in order

    ghost predicate Valid()
      reads this
    {
      HinibFits(mode, hinib) && AllDmaSafe(transfers)
    }

    // The pages still to be walked hold exactly `rest`.
    ghost predicate Ahead(rest: seq<SectorAddr>)
      reads this
    {
      ChainAt(drives, mode, disk, page, moff, rest)
    }

    // lfetch: read a linked map page. cread would leave the link's own high byte behind, so
    // the old one is saved and restored.
    method ReadPage(link: SectorAddr)
      requires Valid() && GoodLink(drives, mode, link)
      modifies this`page, this`moff, this`hinib
      ensures page == SectorBehind(drives, disk, link) && moff == 0 && hinib == old(hinib)
    {
      var saved := hinib;
      var block;
      block, hinib := ReadOne(link, MAP_OFFSET);
      page := block;
      moff := 0;
      hinib := saved;
    }

    // One sector by its uncompacted address.
    method ReadOne(a: SectorAddr, offset: word) returns (block: Block, newHinib: byte)
      requires Valid() && GoodLink(drives, mode, a) && offset + SECTOR_SIZE <= 0x1_0000
      ensures block == SectorBehind(drives, disk, a) && newHinib == NextHinib(a, hinib) && HinibFits(mode, newHinib)
    {
      DecodeInstallerForm(drives, mode, a, hinib);
      InstallerFormIsRunnable(drives, a);
      var ok, calls;
      ok, calls, newHinib := Cread(drives, a, hinib, offset);
      ghost var t := Target(drives, a);
      assert Expand(Request(t, 1)) == [t];
      TiledDelivery(map[], 0, drives(t.drive), t.drive, disk, calls, t.lba, 1, offset);
      StoredCell(map[], offset, SectorsAt(disk, t.drive, t.lba, 1), 0);
      var cells := Deliver(map[], 0, drives(DriveOf(a)), DriveOf(a), disk, calls);
      block := cells[offset];
    }

    // lfetch and noteof: the next address of the section, turning pages as needed.
    method Fetch(ghost rest: seq<SectorAddr>) returns (r: Fetched)
      requires Valid() && Ahead(rest)
      modifies this`page, this`moff, this`hinib
      ensures if rest == [] then r == Eof && Ahead([])
              else r == Entry(rest[0]) && Ahead(rest[1..])
      ensures hinib == old(hinib)
    {
      hide GoodLink, SlotAt, SectorBehind, ChainAt, IsNull;
      while true
        invariant Ahead(rest) && hinib == old(hinib)
        decreases if moff == LINK_OFFSET then 1 else 0
      {
        ChainStep(drives, mode, disk, page, moff, rest);
        var a := SlotAt(page, moff);
        if IsNull(a) {                                  // at EOF
          return Eof;
        }
        if moff + ENTRY_SIZE < 508 {
          moff := moff + ENTRY_SIZE;
          return Entry(a);
        }
        ReadPage(a);                                    // page end
      }
    }

    ghost function Dest(): nat
      reads this
    {
      destHigh * 0x1_0000 + destLow
    }

    // sread: read the run behind an address to ES:BX and move the pointer past it.
    method Sread(a: SectorAddr) returns (ok: bool)
      requires Valid() && Runnable(drives, a) && InMode(mode, a)
      requires bx + SECTOR_SIZE * CountOf(a) <= 0x1_0000 && DmaSafe(Transfer(es * 16 + bx, CountOf(a)))
      modifies this`hinib, this`mem, this`es, this`bx, this`transfers
      ensures Valid() && hinib == NextHinib(a, old(hinib))
      ensures var refs := Expand(Decode(drives, a, old(hinib)));
              var phys := old(es) * 16 + old(bx);
              && (ok <==> AllCanRead(drives, refs))
              && (ok ==> mem == Store(old(mem), phys, Content(disk, refs))
                         && (es, bx) == Advance(old(es), old(bx), CountOf(a)))
              && transfers == old(transfers) + (if ok then [Transfer(phys, CountOf(a))] else [])
    {
      hide AllCanRead, Runnable, Accepted;
      ghost var r := Decode(drives, a, hinib);
      RunnableFits(drives, mode, a, hinib);
      var calls;
      ok, calls, hinib := Cread(drives, a, hinib, bx);
      if ok {
        TiledDelivery(mem, es * 16, drives(r.start.drive), r.start.drive, disk, calls, r.start.lba, r.count, bx);
        ContentOfRun(disk, r);
        mem := Deliver(mem, es * 16, drives(DriveOf(a)), DriveOf(a), disk, calls);
        transfers := transfers + [Transfer(es * 16 + bx, CountOf(a))];
        var (newEs, newBx) := Advance(es, bx, CountOf(a));
        es, bx := newEs, newBx;
      }
    }

    // rdhigh: read to the buffer at SYSSEG:0 and have int 0x15 move the run to the GDT
    // destination, which advances by the same number of bytes.
    method Rdhigh(a: SectorAddr) returns (ok: bool)
      requires Valid() && Runnable(drives, a) && InMode(mode, a) && es == 0
      requires Dest() + SECTOR_SIZE * CountOf(a) <= TWO_24
      modifies this`hinib, this`mem, this`ext, this`es, this`bx, this`transfers, this`destLow, this`destHigh
      ensures Valid() && hinib == NextHinib(a, old(hinib)) && es == 0 && bx == old(bx)
      ensures ok ==> SameOutside(old(mem), mem, 0x1_0000, 0x2_0000)
      ensures var refs := Expand(Decode(drives, a, old(hinib)));
              && (ok <==> AllCanRead(drives, refs))
              && (ok ==> ext == Store(old(ext), old(Dest()), Content(disk, refs))
                         && Dest() == (old(Dest()) + SECTOR_SIZE * CountOf(a)) % TWO_24)
      ensures transfers == old(transfers) + (if ok then [Transfer(0x1_0000, CountOf(a))] else [])
    {
      hide AllCanRead, Store, Decode, NextHinib, CountOf, Runnable, InMode, Advance;
      ghost var refs := Expand(Decode(drives, a, hinib));
      var saved := bx;
      es, bx := SYSSEG, 0;
      RunnableFits(drives, mode, a, hinib);
      ok := Sread(a);
      if ok {
        StorePlaces(old(mem), 0x1_0000, Content(disk, refs));
        MoveUp(CountOf(a), old(mem), Content(disk, refs));
      }
      es, bx := 0, saved;
    }

    // int 0x15, function 0x87: move `count` sectors from the buffer to the GDT destination
    method MoveUp(count: byte, ghost before: Cells, ghost blocks: seq<Block>)
      requires mem == Store(before, 0x1_0000, blocks) && |blocks| == count
      modifies this`ext, this`destLow, this`destHigh
      ensures ext == Store(old(ext), old(Dest()), blocks)
      ensures Dest() == (old(Dest()) + SECTOR_SIZE * count) % TWO_24
    {
      hide Store;
      ReadBack(before, 0x1_0000, blocks);
      ext := Store(ext, destHigh * 0x1_0000 + destLow, Cells512(mem, 0x1_0000, count));
      AdvanceDest(count);
    }

    // Twice the number of words moved.
    method AdvanceDest(count: byte)
      modifies this`destLow, this`destHigh
      ensures Dest() == (old(Dest()) + SECTOR_SIZE * count) % TWO_24
    {
      var cx := count * 0x100;
      AddToDest(cx);
      AddToDest(cx);
    }

    // lfile with ES zero: load the rest of the section above 1 MB, the k-th sector at the
    // destination + 512 * k.
    method LoadHigh(ghost list: seq<SectorAddr>) returns (ok: bool)
      requires Valid() && Ahead(list) && AllRunnable(drives, mode, list) && es == 0
      requires Dest() + SECTOR_SIZE * |DecodeAll(drives, list, hinib)| <= TWO_24
      modifies this`page, this`moff, this`hinib, this`mem, this`ext, this`es, this`bx, this`transfers, this`destLow,
               this`destHigh
      ensures var refs := DecodeAll(drives, list, old(hinib));
              && (ok <==> AllCanRead(drives, refs))
              && (ok ==> ext == Store(old(ext), old(Dest()), Content(disk, refs))
                         && SameOutside(old(mem), mem, 0x1_0000, 0x2_0000)
                         && Grown(old(transfers), transfers, |refs|))
      ensures Valid() && old(transfers) <= transfers
    {
      hide Grown, SameOutside, AllCanRead, Store, Decode, NextHinib, CountOf, Runnable, InMode, ChainAt, Content;
      ghost var refs := DecodeAll(drives, list, hinib);
      ghost var rest, done: seq<SectorRef> := list, [];
      ghost var base := Dest();
      NothingStored(drives, disk, ext, base);
      NothingGrown(transfers);
      StillSame(mem, mem, mem, 0x1_0000, 0x2_0000);
      while true
        invariant Valid() && Ahead(rest) && AllRunnable(drives, mode, rest) && es == 0
        invariant refs == done + DecodeAll(drives, rest, hinib)
        invariant Dest() == (base + SECTOR_SIZE * |done|) % TWO_24
        invariant Grown(old(transfers), transfers, |done|) && old(transfers) <= transfers
        invariant ext == Store(old(ext), base, Content(disk, done))
        invariant SameOutside(old(mem), mem, 0x1_0000, 0x2_0000)
        invariant AllCanRead(drives, done)
        decreases |rest|
      {
        var r := Fetch(rest);
        if r.Eof? {
          assert refs == done;
          return true;
        }
        ghost var h, memBefore := hinib, mem;
        ghost var run := Expand(Decode(drives, r.addr, h));
        NextRun(drives, mode, rest, h, done);
        OneMoreTransfer(old(transfers), transfers, |done|, Transfer(0x1_0000, CountOf(r.addr)));
        ok := Rdhigh(r.addr);
        StillSame(old(mem), memBefore, mem, 0x1_0000, 0x2_0000);
        StoreMore(disk, old(ext), base, done, run);
        CanReadMore(drives, done, run, DecodeAll(drives, rest[1..], hinib));
        if !ok {
          return false;
        }
        done := done + run;
        rest := rest[1..];
      }
    }

    // load1 and loadopt: load one uncompacted entry to ES:BX.
    method LoadOne(ghost rest: seq<SectorAddr>) returns (r: Loaded)
      requires Valid() && Ahead(rest) && (es * 16 + bx) % SECTOR_SIZE == 0 && bx + SECTOR_SIZE <= 0x1_0000
      requires rest != [] ==> InstallerForm(drives, rest[0]) && InMode(mode, rest[0])
      modifies this`page, this`moff, this`hinib, this`mem, this`es, this`bx, this`transfers
      ensures Valid() && transfers == old(transfers) + if r == Done then [Transfer(old(es) * 16 + old(bx), 1)] else []
      ensures rest == [] ==> r == AtEof && mem == old(mem) && es == old(es) && bx == old(bx)
      ensures rest != [] ==> r == if CanRead(drives, Target(drives, rest[0])) then Done else Failed
      ensures r == Done ==>
                && Ahead(rest[1..]) && (es, bx) == Advance(old(es), old(bx), 1)
                && mem == Store(old(mem), old(es) * 16 + old(bx), [SectorBehind(drives, disk, rest[0])])
    {
      hide CanRead, Store, InstallerForm, InMode, ChainAt, Runnable, Decode, NextHinib, Target;
      var f := Fetch(rest);
      if f.Eof? {
        return AtEof;
      }
      SingleRun(drives, mode, disk, rest[0], hinib);
      var ok := Sread(f.addr);
      r := if ok then Done else Failed;
    }

    // lfile with ES:BX at SYSSEG:0: load the rest of the section into low memory. The k-th
    // sector lands at 0x10000 + 512 * k, and no transfer crosses a 64 KiB boundary. It fails
    // exactly if some sector cannot be read.
    method LoadLow(ghost list: seq<SectorAddr>) returns (ok: bool)
      requires Valid() && Ahead(list) && AllRunnable(drives, mode, list)
      requires WithinBlocks(list, 0, 128) && |DecodeAll(drives, list, hinib)| <= MAX_KERNEL_SECS
      requires es == SYSSEG && bx == 0
      modifies this`page, this`moff, this`hinib, this`mem, this`es, this`bx, this`transfers
      ensures var refs := DecodeAll(drives, list, old(hinib));
              && (ok <==> AllCanRead(drives, refs))
              && (ok ==> mem == Store(old(mem), 0x1_0000, Content(disk, refs))
                         && Grown(old(transfers), transfers, |refs|))
      ensures Valid() && old(transfers) <= transfers
    {
      hide Grown, SameOutside, AllCanRead, Store, Decode, NextHinib, CountOf, Runnable, InMode, ChainAt, Content;
      ghost var refs := DecodeAll(drives, list, hinib);
      ghost var rest, done: seq<SectorRef> := list, [];
      NothingStored(drives, disk, mem, 0x1_0000);
      NothingGrown(transfers);
      while true
        invariant Valid() && Ahead(rest) && AllRunnable(drives, mode, rest)
        invariant refs == done + DecodeAll(drives, rest, hinib)
        invariant WithinBlocks(rest, |done|, 128)
        invariant Grown(old(transfers), transfers, |done|) && old(transfers) <= transfers
        invariant es % 0x1000 == 0 && es * 16 + bx == 0x1_0000 + SECTOR_SIZE * |done|
        invariant mem == Store(old(mem), 0x1_0000, Content(disk, done))
        invariant AllCanRead(drives, done)
        decreases |rest|
      {
        var r := Fetch(rest);
        if r.Eof? {
          assert refs == done;
          return true;
        }
        var a := r.addr;
        ghost var h, memBefore := hinib, mem;
        ghost var run := Expand(Decode(drives, a, h));
        NextRun(drives, mode, rest, h, done);
        PointerStep(es, bx, |done|, CountOf(a));
        OneMoreTransfer(old(transfers), transfers, |done|, Transfer(es * 16 + bx, CountOf(a)));
        ok := Sread(a);
        StoreMore(disk, old(mem), 0x1_0000, done, run);
        CanReadMore(drives, done, run, DecodeAll(drives, rest[1..], hinib));
        if !ok {
          return false;
        }
        done := done + run;
        rest := rest[1..];
      }
    }

    // add (si+0x1a),cx; adc byte ptr (si+0x1c),#0
    method AddToDest(cx: word)
      modifies this`destLow, this`destHigh
      ensures Dest() == (old(Dest()) + cx) % TWO_24
    {
      if destLow + cx >= 0x1_0000 {
        destLow, destHigh := destLow + cx - 0x1_0000, (destHigh + 1) % 0x100;
      } else {
        destLow := destLow + cx;
      }
    }
  }

  const MAX_KERNEL_SECS := 1024

  ghost predicate AllDmaSafe(ts: seq<Transfer>) {
    forall i :: 0 <= i < |ts| ==> DmaSafe(ts[i])
  }

  ghost predicate AllRunnable(drives: Drives, m: Mode, list: seq<SectorAddr>) {
    forall i :: 0 <= i < |list| ==> Runnable(drives, list[i]) && InMode(m, list[i])
  }

  lemma NothingStored(drives: Drives, disk: Disk, mem: Cells, addr: nat)
    ensures Store(mem, addr, Content(disk, [])) == mem && AllCanRead(drives, [])
  {
  }

  lemma StoreMore(disk: Disk, mem: Cells, addr: nat, done: seq<SectorRef>, run: seq<SectorRef>)
    ensures Store(mem, addr, Content(disk, done + run))
            == Store(Store(mem, addr, Content(disk, done)), addr + SECTOR_SIZE * |done|, Content(disk, run))
  {
    ContentAppend(disk, done, run);
    StoreAppend(mem, addr, Content(disk, done), Content(disk, run));
  }

  lemma CanReadMore(drives: Drives, done: seq<SectorRef>, run: seq<SectorRef>, others: seq<SectorRef>)
    requires AllCanRead(drives, done)
    ensures if AllCanRead(drives, run) then AllCanRead(drives, done + run)
            else !AllCanRead(drives, done + (run + others))
  {
    if !AllCanRead(drives, run) {
      var i :| 0 <= i < |run| && !CanRead(drives, run[i]);
      assert (done + (run + others))[|done| + i] == run[i];
    }
  }

  lemma SingleRun(drives: Drives, m: Mode, disk: Disk, a: SectorAddr, h: byte)
    requires InstallerForm(drives, a) && InMode(m, a) && HinibFits(m, h)
    ensures Runnable(drives, a) && CountOf(a) == 1
    ensures var refs := Expand(Decode(drives, a, h));
            && (AllCanRead(drives, refs) <==> CanRead(drives, Target(drives, a)))
            && Content(disk, refs) == [SectorBehind(drives, disk, a)]
  {
    hide CanRead, Decode, Target, Runnable, InstallerForm, InMode, CountOf;
    DecodeInstallerForm(drives, m, a, h);
    InstallerFormIsRunnable(drives, a);
    RunnableFits(drives, m, a, h);
    var refs := Expand(Request(Target(drives, a), 1));
    assert refs == [Target(drives, a)];
    assert CanRead(drives, Target(drives, a)) == CanRead(drives, refs[0]);
  }

  // The entry at the head of the rest, taken apart.
  lemma NextRun(drives: Drives, m: Mode, rest: seq<SectorAddr>, h: byte, done: seq<SectorRef>)
    requires rest != [] && AllRunnable(drives, m, rest) && HinibFits(m, h)
    ensures Runnable(drives, rest[0]) && InMode(m, rest[0]) && AllRunnable(drives, m, rest[1..])
    ensures var run := Expand(Decode(drives, rest[0], h));
            var others := DecodeAll(drives, rest[1..], NextHinib(rest[0], h));
            && |run| == CountOf(rest[0])
            && DecodeAll(drives, rest, h) == run + others
            && done + DecodeAll(drives, rest, h) == (done + run) + others
    ensures 1 <= CountOf(rest[0]) <= 128
  {
    hide Decode, NextHinib, CountOf, Runnable;
    RunnableFits(drives, m, rest[0], h);
  }

  // Low memory: the pointer arithmetic of one run.
  lemma PointerStep(es: word, bx: word, at: nat, count: byte)
    requires es % 0x1000 == 0 && es * 16 + bx == 0x1_0000 + SECTOR_SIZE * at && at + count <= MAX_KERNEL_SECS
    requires 1 <= count <= 128 && at / 128 == (at + count - 1) / 128
    ensures bx + SECTOR_SIZE * count <= 0x1_0000
    ensures var (es', bx') := Advance(es, bx, count);
            es' % 0x1000 == 0 && es' * 16 + bx' == 0x1_0000 + SECTOR_SIZE * (at + count)
    ensures DmaSafe(Transfer(es * 16 + bx, count))
  {
    var k, q, r := es / 0x1000, at / 128, at % 128;
    assert es == 0x1000 * k && at == 128 * q + r;
    assert 0x1_0000 * k + bx == 0x1_0000 * (1 + q) + SECTOR_SIZE * r;
    assert k == 1 + q && bx == SECTOR_SIZE * r;
    assert r + count <= 128;
    BlockOf(es * 16 + bx, k, bx);
    BlockOf(es * 16 + bx + SECTOR_SIZE * count - 1, k, bx + SECTOR_SIZE * count - 1);
  }

  lemma BlockOf(phys: nat, k: nat, low: nat)
    requires phys == 0x1_0000 * k + low && low < 0x1_0000
    ensures phys / 0x1_0000 == k
  {
  }

  function Cells512(mem: Cells, addr: nat, n: nat): seq<Block>
    requires forall k :: 0 <= k < n ==> addr + SECTOR_SIZE * k in mem
  {
    seq<Block>(n, k requires 0 <= k < n => mem[addr + SECTOR_SIZE * k])
  }

  lemma ReadBack(mem: Cells, addr: nat, blocks: seq<Block>)
    ensures forall k :: 0 <= k < |blocks| ==> addr + SECTOR_SIZE * k in Store(mem, addr, blocks)
    ensures Cells512(Store(mem, addr, blocks), addr, |blocks|) == blocks
  {
    forall k | 0 <= k < |blocks|
      ensures addr + SECTOR_SIZE * k in Store(mem, addr, blocks)
              && Store(mem, addr, blocks)[addr + SECTOR_SIZE * k] == blocks[k]
    {
      StoredCell(mem, addr, blocks, k);
    }
  }

  lemma RunnableFits(drives: Drives, m: Mode, a: SectorAddr, hinib: byte)
    requires Runnable(drives, a) && InMode(m, a) && HinibFits(m, hinib)
    ensures HinibFits(m, NextHinib(a, hinib))
    ensures Decode(drives, a, hinib).start.drive == DriveOf(a)
    ensures Decode(drives, a, hinib).count == CountOf(a) && 1 <= CountOf(a) <= 128
  {
  }
}
