/** The map file (map.c): sectors appended one by one, among them the pages of finished map
    sections. Its own sectors are addressed with geo_comp_addr like any other file's. */
module MapFile {
  import opened Bytes
  import opened SectorAddress
  import opened Geometry
  import opened Compaction
  import opened MapPages
  import opened MapSection

  const DC_MGOFF_LOW := 0x6d
  const DC_MGOFF_HIGH := 0x6b

  function ZeroBlock(): Block { seq(512, _ => 0) }

  function HeaderBlock(): Block {
    ZeroBlock()[0 := DC_MGOFF_LOW][1 := DC_MGOFF_HIGH]
  }

  // What map_end_section adds up: the raw fifth bytes.
  function RawSum(list: seq<SectorAddr>): nat {
    if list == [] then 0 else list[0].numSect + RawSum(list[1..])
  }

  // Sectors from .. to of the map file all have an address.
  ghost predicate AllLocated(f: HostFile, from: nat, to: nat) {
    forall k :: from <= k < to ==> f.Located(k).Mapped?
  }

  class MapFile {
    const host: HostFile
    const created: bool                  // map_create has not given up
    var sectors: seq<Block>
    var zeroAddr: SectorAddr

    // map_create: four sectors, the last of which stands in for holes.
    constructor (host: HostFile)
      ensures this.host == host && (created <==> host.Located(3).Mapped?)
      ensures sectors == [HeaderBlock(), ZeroBlock(), ZeroBlock(), ZeroBlock()]
      ensures zeroAddr == AddrOf(host, 3)
    {
      this.host := host;
      sectors := [HeaderBlock(), ZeroBlock(), ZeroBlock(), ZeroBlock()];
      var r := GeoCompAddr(host.geo, host.options, host.bmap, SECTOR_SIZE * 3);
      created := r.Mapped?;
      zeroAddr := if r.Mapped? then r.addr else NULL_ADDR;
    }

    // map_done: write the descriptor table to sectors 1 and 2, and give their addresses and that
    // of the default command line.
    method Done(descr1: Block, descr2: Block) returns (ok: bool, addrs: seq<SectorAddr>)
      requires |sectors| >= 3
      modifies this`sectors
      ensures sectors == old(sectors)[1 := descr1][2 := descr2]
      ensures ok <==> AllLocated(host, 0, 3)
      ensures addrs == [AddrOf(host, 1), AddrOf(host, 2), AddrOf(host, 0)]
    {
      hide CompAddr;
      sectors := sectors[1 := descr1][2 := descr2];
      var first := GeoCompAddr(host.geo, host.options, host.bmap, SECTOR_SIZE);
      var second := GeoCompAddr(host.geo, host.options, host.bmap, SECTOR_SIZE * 2);
      var dflcmd := GeoCompAddr(host.geo, host.options, host.bmap, 0);
      assert first == host.Located(1) && second == host.Located(2) && dflcmd == host.Located(0);
      ok := first.Mapped? && second.Mapped? && dflcmd.Mapped?;
      addrs := [if first.Mapped? then first.addr else NULL_ADDR, if second.Mapped? then second.addr else NULL_ADDR,
                if dflcmd.Mapped? then dflcmd.addr else NULL_ADDR];
    }

    // map_add_sector: append a sector to the map file and register it in the section.
    method AddSector(section: Section, block: Block) returns (ok: bool)
      requires section.Valid()
      modifies this`sectors, section, section.last
      ensures section.Valid()
      ensures sectors == old(sectors) + [block]
      ensures ok <==> host.Located(|old(sectors)|).Mapped?
      ensures ok ==> section.Contents() == old(section.Contents()) + [AddrOf(host, |old(sectors)|)]
      ensures |section.nodes| >= |old(section.nodes)| && section.nodes[..|old(section.nodes)|] == old(section.nodes)
      ensures forall i :: |old(section.nodes)| <= i < |section.nodes| ==> fresh(section.nodes[i])
    {
      var here := |sectors|;
      sectors := sectors + [block];
      var r := GeoCompAddr(host.geo, host.options, host.bmap, SECTOR_SIZE * here);
      ok := r.Mapped?;
      if ok { section.Register(r.addr); }
    }

    // map_alloc_page: the address of the map file sector `ahead` of the write position.
    method AllocPage(ahead: nat) returns (ok: bool, addr: SectorAddr)
      ensures ok == host.Located(|sectors| + ahead).Mapped? && addr == AddrOf(host, |sectors| + ahead)
    {
      var r := GeoCompAddr(host.geo, host.options, host.bmap, SECTOR_SIZE * (|sectors| + ahead));
      ok := r.Mapped?;
      addr := if ok then r.addr else NULL_ADDR;
    }

    // map_end_section: compact if asked to, then lay the list out in linked pages at the end of
    // the map file. Gives the first page's address and the sum of the count bytes.
    method EndSection(section: Section, dontCompact: nat, compact: bool) returns (ok: bool, addr: SectorAddr, sum: nat)
      requires section.Valid()
      modifies this`sectors, section, section.nodes
      ensures var list := if compact then
                            Compact(old(section.Contents()), dontCompact + 1, MaxCount(host.options.lba32))
                          else old(section.Contents());
              Written(old(sectors), list, ok, addr, sum)
    {
      hide Compact, Paginate, AllLocated, AddrOf, RawSum, AllFrom;
      ok, addr, sum := false, NULL_ADDR, 0;
      if compact {
        var _ := section.CompactInPlace(dontCompact, host.options.lba32);
      }
      if section.head != null {
        ok, addr, sum := WritePages(section);
      }
    }

    // `list` has been written behind the sectors `before`, or one of its pages has no address.
    ghost predicate Written(before: seq<Block>, list: seq<SectorAddr>, ok: bool, addr: SectorAddr, sum: nat)
      reads this
    {
      var k, pages := |before|, Paginate(host, list, |before|);
      && (ok <==> list != [] && AllLocated(host, k, k + |pages|))
      && (ok ==> sectors == before + pages && addr == AddrOf(host, k) && sum == RawSum(list))
    }

    method WritePages(section: Section) returns (ok: bool, addr: SectorAddr, sum: nat)
      requires section.Linked() && section.head != null
      modifies this`sectors
      ensures Written(old(sectors), section.Contents(), ok, addr, sum)
    {
      hide Paginate, RawSum, AddrOf, AllLocated, Progress, Filled;
      ghost var list := section.Contents();
      ghost var before := sectors;
      ghost var done: nat, n: nat := 0, 0;        // first entry of the current page, entries written
      var buffer := new byte[512](_ => 0);
      var offset: nat := 0;
      sum := 0;
      ok, addr := AllocPage(0);
      StartWriting(host, list, before, buffer[..]);
      if !ok { return; }
      var walk := section.head;
      while walk != null
        invariant section.Linked() && section.Contents() == list && fresh(buffer) && buffer.Length == 512
        invariant n <= |list| && walk == if n < |list| then section.nodes[n] else null
        invariant Progress(host, list, before, sectors, done, n) && Filled(buffer[..], offset, list, done, n)
        invariant sum == RawSum(list[..n])
        decreases |list| - n
      {
        ok, offset, done := WriteEntry(buffer, offset, walk.addr, list, before, done, n);
        if !ok { return; }
        sum := sum + walk.addr.numSect;
        walk := walk.next;
        n := n + 1;
      }
      assert list[..n] == list;
      LastPage(host, list, before, sectors, done, buffer[..], offset);
      sectors := sectors + [buffer[..]];
    }

    // One round of the loop in map_end_section: turn the page if it is full, and add an entry.
    method WriteEntry(buffer: array<byte>, offset: nat, addr: SectorAddr, ghost list: seq<SectorAddr>,
                      ghost before: seq<Block>, ghost done: nat, ghost n: nat)
      returns (ok: bool, next: nat, ghost newDone: nat)
      requires Progress(host, list, before, sectors, done, n) && n < |list| && addr == list[n]
      requires buffer.Length == 512 && Filled(buffer[..], offset, list, done, n)
      modifies this`sectors, buffer
      ensures if ok then
                && Progress(host, list, before, sectors, newDone, n + 1)
                && Filled(buffer[..], next, list, newDone, n + 1)
                && RawSum(list[..n + 1]) == RawSum(list[..n]) + addr.numSect
              else !AllLocated(host, |before|, |before| + |Paginate(host, list, |before|)|)
    {
      hide PageOf, Paginate, RawSum, AddrOf, AllLocated, Progress;
      ok, next, newDone := true, offset, done;
      if offset + 2 * ENTRY_SIZE > SECTOR_SIZE {
        ok := TurnPage(buffer, list, before, done, n);
        if !ok { return; }
        next, newDone := 0, n;
      }
      PutEntry(buffer, next, addr, list[newDone..n]);
      assert list[newDone..n] + [list[n]] == list[newDone..n + 1];
      next := next + ENTRY_SIZE;
      OneMore(host, list, before, sectors, newDone, n);
    }

    // The page is full and there is more: link it to the next page, flush it and start over.
    method TurnPage(buffer: array<byte>, ghost list: seq<SectorAddr>, ghost before: seq<Block>, ghost done: nat,
                    ghost n: nat)
      returns (ok: bool)
      requires Progress(host, list, before, sectors, done, n) && n - done == PER_PAGE && n < |list|
      requires buffer.Length == 512 && buffer[..] == PageOf(list[done..n])
      modifies this`sectors, buffer
      ensures if ok then Progress(host, list, before, sectors, n, n) && buffer[..] == PageOf([])
              else !AllLocated(host, |before|, |before| + |Paginate(host, list, |before|)|)
    {
      hide PageOf, Paginate, AddrOf, AllLocated;
      NextPage(host, list, before, sectors, done, n);
      var link;
      ok, link := AllocPage(1);
      if !ok { return; }
      PutEntry(buffer, LINK_OFFSET, link, list[done..n]);
      sectors := sectors + [buffer[..]];
      forall i | 0 <= i < 512 { buffer[i] := 0; }
      EmptyPage(buffer[..]);
    }
  }

  // `now` holds `before` and the full pages up to entry `done`; entries done .. n are on the
  // page being filled.
  ghost predicate Progress(f: HostFile, list: seq<SectorAddr>, before: seq<Block>, now: seq<Block>, done: nat, n: nat) {
    && done <= n <= |list| && done < |list| && n - done <= PER_PAGE
    && before + Paginate(f, list, |before|) == now + Paginate(f, list[done..], |now|)
    && |before| <= |now| && AllLocated(f, |before|, |now| + 1)
  }

  // The page being filled holds entries done .. n of the list, up to `offset`.
  ghost predicate Filled(page: seq<byte>, offset: nat, list: seq<SectorAddr>, done: nat, n: nat) {
    && done <= n <= |list| && n - done <= PER_PAGE
    && offset == ENTRY_SIZE * (n - done) && page == PageOf(list[done..n])
  }

  lemma StartWriting(f: HostFile, list: seq<SectorAddr>, before: seq<Block>, page: seq<byte>)
    requires list != [] && |page| == 512 && forall p :: 0 <= p < 512 ==> page[p] == 0
    ensures RawSum(list[..0]) == 0
    ensures if f.Located(|before|).Mapped? then Progress(f, list, before, before, 0, 0) && Filled(page, 0, list, 0, 0)
            else !AllLocated(f, |before|, |before| + |Paginate(f, list, |before|)|)
  {
    assert list[0..] == list;
    EmptyPage(page);
  }

  lemma NextPage(f: HostFile, list: seq<SectorAddr>, before: seq<Block>, now: seq<Block>, done: nat, n: nat)
    requires Progress(f, list, before, now, done, n) && n - done == PER_PAGE && n < |list|
    ensures if f.Located(|now| + 1).Mapped? then
              Progress(f, list, before, now + [PageOf(list[done..n] + [AddrOf(f, |now| + 1)])], n, n)
            else !AllLocated(f, |before|, |before| + |Paginate(f, list, |before|)|)
  {
    hide PageOf, AddrOf, CompAddr;
    var page := PageOf(list[done..n] + [AddrOf(f, |now| + 1)]);
    assert list[done..][..PER_PAGE] == list[done..n] && list[done..][PER_PAGE..] == list[n..];
    assert Paginate(f, list[done..], |now|) == [page] + Paginate(f, list[n..], |now| + 1);
    assert now + ([page] + Paginate(f, list[n..], |now| + 1)) == (now + [page]) + Paginate(f, list[n..], |now| + 1);
    assert |before + Paginate(f, list, |before|)| >= |now| + 2;
  }

  lemma LastPage(f: HostFile, list: seq<SectorAddr>, before: seq<Block>, now: seq<Block>, done: nat,
                 page: Block, offset: nat)
    requires Progress(f, list, before, now, done, |list|) && Filled(page, offset, list, done, |list|)
    ensures now + [page] == before + Paginate(f, list, |before|)
    ensures AllLocated(f, |before|, |before| + |Paginate(f, list, |before|)|)
  {
    assert list[done..|list|] == list[done..];
    assert |before + Paginate(f, list, |before|)| == |now| + 1;
  }

  lemma EmptyPage(page: seq<byte>)
    requires |page| == 512 && forall p :: 0 <= p < 512 ==> page[p] == 0
    ensures page == PageOf([])
  {
  }

  lemma {:induction false} RawSumAppend(list: seq<SectorAddr>, a: SectorAddr)
    ensures RawSum(list + [a]) == RawSum(list) + a.numSect
  {
    if list == [] {
      assert RawSum([a][1..]) == 0;
    } else {
      RawSumAppend(list[1..], a);
      assert (list + [a])[1..] == list[1..] + [a];
    }
  }

  lemma OneMore(f: HostFile, list: seq<SectorAddr>, before: seq<Block>, now: seq<Block>, done: nat, n: nat)
    requires Progress(f, list, before, now, done, n) && n - done < PER_PAGE && n < |list|
    ensures Progress(f, list, before, now, done, n + 1)
    ensures RawSum(list[..n + 1]) == RawSum(list[..n]) + list[n].numSect
  {
    RawSumAppend(list[..n], list[n]);
    assert list[..n + 1] == list[..n] + [list[n]];
  }

  // memcpy(buffer + offset, &addr, sizeof(SECTOR_ADDR))
  method PutEntry(buffer: array<byte>, offset: nat, addr: SectorAddr, ghost entries: seq<SectorAddr>)
    requires buffer.Length == 512 && |entries| <= PER_PAGE && offset == ENTRY_SIZE * |entries|
    requires buffer[..] == PageOf(entries)
    modifies buffer
    ensures buffer[..] == PageOf(entries + [addr])
  {
    buffer[offset], buffer[offset + 1], buffer[offset + 2] := addr.sector, addr.track, addr.device;
    buffer[offset + 3], buffer[offset + 4] := addr.head, addr.numSect;
    PageWithOneMore(entries, addr, buffer[..]);
  }
}
