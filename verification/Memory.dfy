/** Memory as 512-byte cells keyed by address, and what BIOS reads put there. */
module Memory {
  import opened Bytes
  import opened SectorAddress
  import opened DiskRead

  type Cells = map<nat, Block>

  // The content of every sector of every drive.
  type Disk = (byte, int) -> Block

  function Store(mem: Cells, addr: nat, blocks: seq<Block>): Cells
    decreases |blocks|
  {
    if blocks == [] then mem
    else Store(mem[addr := blocks[0]], addr + SECTOR_SIZE, blocks[1..])
  }

  function SectorsAt(disk: Disk, drive: byte, lba: int, count: nat): seq<Block> {
    seq<Block>(count, i => disk(drive, lba + i))
  }

  // The content of the sectors a decoded list denotes.
  function Content(disk: Disk, refs: seq<SectorRef>): (s: seq<Block>)
    ensures |s| == |refs|
  {
    seq<Block>(|refs|, i requires 0 <= i < |refs| => disk(refs[i].drive, refs[i].lba))
  }

  // The effect of a series of BIOS calls with buffer segment base `base`.
  function Deliver(mem: Cells, base: nat, d: Drive, drive: byte, disk: Disk, calls: seq<BiosCall>): Cells
    decreases |calls|
  {
    if calls == [] then mem
    else
      var c := calls[0];
      var blocks := SectorsAt(disk, drive, FirstLba(d, c), c.count);
      Deliver(Store(mem, base + c.offset, blocks), base, d, drive, disk, calls[1..])
  }

  lemma {:induction false} StoreAppend(mem: Cells, addr: nat, blocks: seq<Block>, more: seq<Block>)
    ensures Store(mem, addr, blocks + more) == Store(Store(mem, addr, blocks), addr + SECTOR_SIZE * |blocks|, more)
    decreases |blocks|
  {
    if blocks == [] {
      assert blocks + more == more;
    } else {
      StoreAppend(mem[addr := blocks[0]], addr + SECTOR_SIZE, blocks[1..], more);
      assert (blocks + more)[1..] == blocks[1..] + more;
    }
  }

  // After a store, cell k of the stored range holds block k ...
  lemma {:induction false} StoredCell(mem: Cells, addr: nat, blocks: seq<Block>, k: nat)
    requires k < |blocks|
    ensures addr + SECTOR_SIZE * k in Store(mem, addr, blocks)
    ensures Store(mem, addr, blocks)[addr + SECTOR_SIZE * k] == blocks[k]
    decreases |blocks|
  {
    if k == 0 {
      OtherCell(mem[addr := blocks[0]], addr + SECTOR_SIZE, blocks[1..], addr);
    } else {
      StoredCell(mem[addr := blocks[0]], addr + SECTOR_SIZE, blocks[1..], k - 1);
    }
  }

  // ... and every cell outside the range is as before.
  lemma {:induction false} OtherCell(mem: Cells, addr: nat, blocks: seq<Block>, a: nat)
    requires a < addr || a >= addr + SECTOR_SIZE * |blocks|
    ensures a in Store(mem, addr, blocks) <==> a in mem
    ensures a in mem ==> Store(mem, addr, blocks)[a] == mem[a]
    decreases |blocks|
  {
    if blocks != [] {
      OtherCell(mem[addr := blocks[0]], addr + SECTOR_SIZE, blocks[1..], a);
    }
  }

  // The blocks are in consecutive cells from addr on.
  ghost predicate Placed(mem: Cells, addr: nat, blocks: seq<Block>) {
    forall k :: 0 <= k < |blocks| ==>
      addr + SECTOR_SIZE * k in mem && mem[addr + SECTOR_SIZE * k] == blocks[k]
  }

  // Only cells in lo .. hi may differ.
  ghost predicate SameOutside(mem: Cells, mem': Cells, lo: nat, hi: nat) {
    forall a :: (a < lo || hi <= a) && a in mem ==> a in mem' && mem'[a] == mem[a]
  }

  lemma StillSame(mem: Cells, mem': Cells, mem'': Cells, lo: nat, hi: nat)
    ensures SameOutside(mem, mem, lo, hi)
    ensures SameOutside(mem, mem', lo, hi) && SameOutside(mem', mem'', lo, hi) ==> SameOutside(mem, mem'', lo, hi)
  {
  }

  lemma StorePlaces(mem: Cells, addr: nat, blocks: seq<Block>)
    ensures Placed(Store(mem, addr, blocks), addr, blocks)
    ensures SameOutside(mem, Store(mem, addr, blocks), addr, addr + SECTOR_SIZE * |blocks|)
  {
    forall k | 0 <= k < |blocks|
      ensures addr + SECTOR_SIZE * k in Store(mem, addr, blocks)
              && Store(mem, addr, blocks)[addr + SECTOR_SIZE * k] == blocks[k]
    {
      StoredCell(mem, addr, blocks, k);
    }
    forall a | (a < addr || addr + SECTOR_SIZE * |blocks| <= a) && a in mem
      ensures a in Store(mem, addr, blocks) && Store(mem, addr, blocks)[a] == mem[a]
    {
      OtherCell(mem, addr, blocks, a);
    }
  }

  lemma StaysPlaced(mem: Cells, mem': Cells, lo: nat, hi: nat, addr: nat, blocks: seq<Block>)
    requires Placed(mem, addr, blocks) && SameOutside(mem, mem', lo, hi)
    requires addr + SECTOR_SIZE * |blocks| <= lo || hi <= addr
    ensures Placed(mem', addr, blocks)
  {
    forall k | 0 <= k < |blocks|
      ensures addr + SECTOR_SIZE * k in mem' && mem'[addr + SECTOR_SIZE * k] == blocks[k]
    {
      assert addr + SECTOR_SIZE * k in mem;
    }
  }

  // Calls that tile a run put its sectors into consecutive cells, if the buffer does not leave
  // its 64 KiB segment.
  lemma {:induction false} TiledDelivery(mem: Cells, base: nat, d: Drive, drive: byte, disk: Disk,
                                         calls: seq<BiosCall>, lba: int, count: nat, bx: nat)
    requires Tiles(d, calls, lba, count, bx) && bx + SECTOR_SIZE * count <= 0x1_0000
    ensures Deliver(mem, base, d, drive, disk, calls) == Store(mem, base + bx, SectorsAt(disk, drive, lba, count))
    decreases |calls|
  {
    hide FirstLba;
    if calls == [] {
      assert SectorsAt(disk, drive, lba, 0) == [];
    } else {
      var c := calls[0];
      var first := SectorsAt(disk, drive, lba, c.count);
      var others := SectorsAt(disk, drive, lba + c.count, count - c.count);
      TiledDelivery(Store(mem, base + bx, first), base, d, drive, disk, calls[1..], lba + c.count, count - c.count,
                    bx + SECTOR_SIZE * c.count);
      assert first + others == SectorsAt(disk, drive, lba, count);
      StoreAppend(mem, base + bx, first, others);
    }
  }

  lemma ContentOfRun(disk: Disk, r: Request)
    ensures Content(disk, Expand(r)) == SectorsAt(disk, r.start.drive, r.start.lba, r.count)
  {
  }

  lemma ContentAppend(disk: Disk, refs: seq<SectorRef>, more: seq<SectorRef>)
    ensures Content(disk, refs + more) == Content(disk, refs) + Content(disk, more)
  {
  }
}
