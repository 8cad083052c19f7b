/** The pages of a map section as the loader finds them on disk (load and lfetch in second.S),
    and the proof that what map_end_section writes is such a chain. */
module PageChain {
  import opened Bytes
  import opened SectorAddress
  import opened Geometry
  import opened DiskRead
  import opened Memory
  import opened MapPages

  predicate CanRead(drives: Drives, ref: SectorRef) {
    0 <= ref.lba && Readable(drives(ref.drive), ref.via, ref.lba)
  }

  ghost predicate AllCanRead(drives: Drives, refs: seq<SectorRef>) {
    forall i :: 0 <= i < |refs| ==> CanRead(drives, refs[i])
  }

  // The disk sector an uncompacted address names.
  function SectorBehind(drives: Drives, disk: Disk, a: SectorAddr): Block {
    disk(Target(drives, a).drive, Target(drives, a).lba)
  }

  predicate GoodLink(drives: Drives, m: Mode, a: SectorAddr) {
    InstallerForm(drives, a) && InMode(m, a) && CanRead(drives, Target(drives, a))
  }

  // From offset `moff` of `page` on, the loader finds exactly `list`: the entries in the page's
  // slots, a link in slot 101 if there are more, and a null address at the end.
  ghost predicate ChainAt(drives: Drives, m: Mode, disk: Disk, page: Block, moff: nat, list: seq<SectorAddr>)
    decreases |list|, if moff == LINK_OFFSET then 1 else 0
  {
    && moff <= LINK_OFFSET && moff % ENTRY_SIZE == 0
    && var slot := SlotAt(page, moff);
      if list == [] then IsNull(slot)
      else if moff < LINK_OFFSET then
        slot == list[0] && !IsNull(slot) && ChainAt(drives, m, disk, page, moff + ENTRY_SIZE, list[1..])
      else
        GoodLink(drives, m, slot) && ChainAt(drives, m, disk, SectorBehind(drives, disk, slot), 0, list)
  }

  // One step along a chain.
  lemma ChainStep(drives: Drives, m: Mode, disk: Disk, page: Block, moff: nat, list: seq<SectorAddr>)
    requires ChainAt(drives, m, disk, page, moff, list)
    ensures moff <= LINK_OFFSET
    ensures var slot := SlotAt(page, moff);
            if list == [] then IsNull(slot)
            else if moff + ENTRY_SIZE < 508 then
              slot == list[0] && !IsNull(slot) && ChainAt(drives, m, disk, page, moff + ENTRY_SIZE, list[1..])
            else moff == LINK_OFFSET && GoodLink(drives, m, slot) && !IsNull(slot)
                 && ChainAt(drives, m, disk, SectorBehind(drives, disk, slot), 0, list)
  {
    hide SlotAt, SectorBehind;
  }

  ghost predicate NoneNull(list: seq<SectorAddr>) {
    forall i :: 0 <= i < |list| ==> !IsNull(list[i])
  }

  // The last page, from its slot i on.
  lemma {:induction false} LastPageChain(drives: Drives, m: Mode, disk: Disk, entries: seq<SectorAddr>, i: nat)
    requires i <= |entries| <= PER_PAGE && NoneNull(entries)
    ensures ChainAt(drives, m, disk, PageOf(entries), ENTRY_SIZE * i, entries[i..])
    decreases |entries| - i
  {
    hide PageOf, SlotAt;
    SlotOfPage(entries, i);
    if i < |entries| {
      LastPageChain(drives, m, disk, entries, i + 1);
      assert entries[i..][1..] == entries[i + 1..];
    }
  }

  // A full page with a link, from its slot i on.
  lemma {:induction false} FullPageChain(drives: Drives, m: Mode, disk: Disk, entries: seq<SectorAddr>,
                                         link: SectorAddr, i: nat, rest: seq<SectorAddr>)
    requires i <= |entries| == PER_PAGE && NoneNull(entries) && rest != []
    requires GoodLink(drives, m, link) && ChainAt(drives, m, disk, SectorBehind(drives, disk, link), 0, rest)
    ensures ChainAt(drives, m, disk, PageOf(entries + [link]), ENTRY_SIZE * i, entries[i..] + rest)
    decreases |entries| - i
  {
    hide PageOf, SlotAt, GoodLink, SectorBehind;
    SlotOfPage(entries + [link], i);
    if i < PER_PAGE {
      FullPageChain(drives, m, disk, entries, link, i + 1, rest);
      assert (entries[i..] + rest)[1..] == entries[i + 1..] + rest;
    } else {
      assert entries[i..] + rest == rest;
    }
  }

  // Map file sector k holds the page, can be read, and is addressed as the loader expects.
  predicate Holds(drives: Drives, m: Mode, disk: Disk, f: HostFile, k: nat, page: Block) {
    GoodLink(drives, m, AddrOf(f, k)) && SectorBehind(drives, disk, AddrOf(f, k)) == page
  }

  ghost predicate OnDisk(drives: Drives, m: Mode, disk: Disk, f: HostFile, k: nat, pages: seq<Block>) {
    forall i :: 0 <= i < |pages| ==> Holds(drives, m, disk, f, k + i, pages[i])
  }

  // Paging round trip: from the first page the loader finds exactly the list, of any length.
  lemma {:induction false} PagesFormChain(drives: Drives, m: Mode, disk: Disk, f: HostFile,
                                          list: seq<SectorAddr>, k: nat)
    requires NoneNull(list) && OnDisk(drives, m, disk, f, k, Paginate(f, list, k))
    ensures ChainAt(drives, m, disk, Paginate(f, list, k)[0], 0, list)
    decreases |list|
  {
    hide PageOf, GoodLink, SectorBehind, AddrOf;
    var pages := Paginate(f, list, k);
    if |list| <= PER_PAGE {
      LastPageChain(drives, m, disk, list, 0);
      assert list[0..] == list;
    } else {
      var entries, rest := list[..PER_PAGE], list[PER_PAGE..];
      var others := Paginate(f, rest, k + 1);
      assert pages == [PageOf(entries + [AddrOf(f, k + 1)])] + others;
      forall i | 0 <= i < |others|
        ensures Holds(drives, m, disk, f, k + 1 + i, others[i])
      {
        assert pages[i + 1] == others[i];
      }
      PagesFormChain(drives, m, disk, f, rest, k + 1);
      assert Holds(drives, m, disk, f, k + 1 + 0, others[0]);
      FullPageChain(drives, m, disk, entries, AddrOf(f, k + 1), 0, rest);
      assert entries[0..] + rest == list;
    }
  }
}
