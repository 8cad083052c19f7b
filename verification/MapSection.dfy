/** The map section under construction (map.c): a singly linked list of sector addresses,
    appended to by map_register and merged in place by map_compact. */
module MapSection {
  import opened Bytes
  import opened SectorAddress
  import opened Geometry
  import opened Compaction

  class MapEntry {
    var addr: SectorAddr
    var next: MapEntry?

    constructor (addr: SectorAddr)
      ensures this.addr == addr && next == null
    {
      this.addr := addr;
      next := null;
    }
  }

  // The addresses map_add registers for sectors from .. from + n of a file, with `zero` for
  // holes; None if geo_comp_addr gives up on one of them.
  datatype Entries = Entries(list: seq<SectorAddr>) | GaveUp

  function FileEntries(f: HostFile, zero: SectorAddr, from: nat, n: nat): Entries {
    if n == 0 then Entries([])
    else
      match FileEntries(f, zero, from, n - 1)
      case GaveUp => GaveUp
      case Entries(list) =>
        if f.Located(n - 1 + from).Fatal? then GaveUp else Entries(list + [EntryFor(f, zero, n - 1 + from)])
  }

  // One of them.
  function EntryFor(f: HostFile, zero: SectorAddr, k: nat): SectorAddr
    requires !f.Located(k).Fatal?
  {
    if f.Located(k).Mapped? then f.Located(k).addr else zero
  }

  class Section {
    var head: MapEntry?
    var last: MapEntry?
    ghost var nodes: seq<MapEntry>

    // The entries hang together in the order of `nodes`.
    ghost predicate Linked()
      reads this, nodes
    {
      && (forall i, j :: 0 <= i < j < |nodes| ==> nodes[i] != nodes[j])
      && head == (if nodes == [] then null else nodes[0])
      && (forall i {:trigger nodes[i].next} :: 0 <= i < |nodes| - 1 ==> nodes[i].next == nodes[i + 1])
      && (nodes != [] ==> nodes[|nodes| - 1].next == null)
    }

    // map_compact frees entries without looking at `last`, so this holds only before it.
    ghost predicate Valid()
      reads this, nodes
    {
      Linked() && last == if nodes == [] then null else nodes[|nodes| - 1]
    }

    ghost function Contents(): (s: seq<SectorAddr>)
      reads this, nodes
      ensures |s| == |nodes|
    {
      seq(|nodes|, i requires 0 <= i < |nodes| reads this, nodes => nodes[i].addr)
    }

    // map_begin_section
    constructor ()
      ensures Valid() && Contents() == [] && nodes == []
    {
      head, last, nodes := null, null, [];
    }

    // map_register, and map_add_zero for the zero address
    method Register(addr: SectorAddr)
      requires Valid()
      modifies this, last
      ensures Valid() && Contents() == old(Contents()) + [addr]
      ensures |nodes| == |old(nodes)| + 1 && nodes[..|old(nodes)|] == old(nodes) && fresh(nodes[|old(nodes)|])
    {
      var entry := new MapEntry(addr);
      if last != null {
        last.next := entry;
      } else {
        head := entry;
      }
      last := entry;
      nodes := nodes + [entry];
    }

    // The body of the loop in map_add: one sector of the file.
    method AddOne(f: HostFile, zero: SectorAddr, k: nat) returns (ok: bool)
      requires Valid()
      modifies this, last
      ensures Valid() && (ok <==> !f.Located(k).Fatal?)
      ensures ok ==> Contents() == old(Contents()) + [EntryFor(f, zero, k)]
      ensures |nodes| >= |old(nodes)| && nodes[..|old(nodes)|] == old(nodes)
      ensures forall i :: |old(nodes)| <= i < |nodes| ==> fresh(nodes[i])
    {
      hide CompAddr;
      var r := GeoCompAddr(f.geo, f.options, f.bmap, SECTOR_SIZE * k);
      ok := !r.Fatal?;
      if ok {
        Register(if r.Mapped? then r.addr else zero);
      }
    }

    // map_add
    method Add(f: HostFile, zero: SectorAddr, from: nat, n: nat) returns (ok: bool)
      requires Valid()
      modifies this, nodes
      ensures Valid() && |nodes| >= |old(nodes)| && nodes[..|old(nodes)|] == old(nodes)
      ensures forall i :: |old(nodes)| <= i < |nodes| ==> fresh(nodes[i])
      ensures match FileEntries(f, zero, from, n)
              case Entries(list) => ok && Contents() == old(Contents()) + list
              case GaveUp => !ok
    {
      hide CompAddr, EntryFor, Contents;
      ghost var before := nodes;
      var count := 0;
      while count < n
        invariant 0 <= count <= n && Valid()
        invariant |nodes| >= |before| && nodes[..|before|] == before
        invariant forall i :: |before| <= i < |nodes| ==> fresh(nodes[i])
        invariant FileEntries(f, zero, from, count).Entries?
        invariant Contents() == old(Contents()) + FileEntries(f, zero, from, count).list
      {
        ok := AddOne(f, zero, count + from);
        if !ok {
          GaveUpStays(f, zero, from, count + 1, n);
          return;
        }
        count := count + 1;
      }
      ok := true;
    }

    // map_compact: the entry `walk` absorbs its successor or is left behind.
    method CompactInPlace(dontCompact: nat, lba32: bool) returns (removed: nat)
      requires Valid()
      modifies this, nodes
      ensures Linked() && Contents() == Compact(old(Contents()), dontCompact + 1, MaxCount(lba32))
      ensures removed == |old(nodes)| - |nodes|
      ensures AllFrom(nodes, old(nodes))
    {
      hide AllFrom, CompactFrom, Contents;
      OneGone(nodes, nodes, 0);
      removed := 0;
      var walk := head;
      ghost var k := 0;
      var count := 0;
      while walk != null && count <= dontCompact
        invariant count == k <= |nodes| && count <= dontCompact + 1
        invariant walk == if k < |nodes| then nodes[k] else null
        decreases |nodes| - k
        modifies {}
      {
        walk := walk.next;
        k := k + 1;
        count := count + 1;
      }
      if walk != null {
        removed := MergeFrom(walk, k, MaxCount(lba32));
      }
    }

    // The second loop of map_compact, from the first compactable entry on.
    method MergeFrom(start: MapEntry, ghost at: nat, maxcount: nat) returns (removed: nat)
      requires Linked() && at < |nodes| && start == nodes[at] && maxcount <= 128
      modifies this`nodes, nodes
      ensures Linked() && Contents() == old(Remaining(at, 257, 0, 0, maxcount))
      ensures removed == |old(nodes)| - |nodes|
      ensures AllFrom(nodes, old(nodes))
    {
      hide Remaining, Contents, AllFrom;
      OneGone(nodes, nodes, at);
      removed := 0;
      var hinib: int := 257;
      var offset: nat, noffset: nat := 0, 0;
      var walk: MapEntry := start;
      ghost var k: nat := at;
      while walk.next != null
        invariant Linked() && k < |nodes| && walk == nodes[k]
        invariant Remaining(k, hinib, offset, noffset, maxcount) == old(Remaining(at, 257, 0, 0, maxcount))
        invariant removed == |old(nodes)| - |nodes|
        invariant AllFrom(nodes, old(nodes))
        decreases |nodes| - k
      {
        noffset := noffset + SECTOR_SIZE;
        var merged;
        OneGone(nodes, old(nodes), k);
        merged, hinib := Visit(walk, k, hinib, offset, noffset, maxcount);
        if merged {
          removed := removed + 1;
        } else {
          offset := noffset;
          walk := walk.next;
          k := k + 1;
        }
      }
      NothingRemains(k, hinib, offset, noffset, maxcount);
    }

    lemma NothingRemains(k: nat, hinib: int, offset: nat, noffset: nat, max: nat)
      requires |nodes| == k + 1 && max <= 128
      ensures Remaining(k, hinib, offset, noffset, max) == Contents()
    {
    }

    // The list as it will be once the loop has finished, from its state at entry k.
    ghost function Remaining(k: nat, hinib: int, offset: nat, noffset: nat, max: nat): seq<SectorAddr>
      reads this, nodes
      requires k < |nodes| && max <= 128
    {
      Contents()[..k] + CompactFrom(Contents()[k], Contents()[k + 1..], hinib, offset, noffset, max)
    }

    // One round of the loop: merge the successor of `walk` into it, or leave both in place.
    method Visit(walk: MapEntry, ghost k: nat, hinib: int, offset: nat, noffset: nat, maxcount: nat)
      returns (merged: bool, newHinib: int)
      requires Linked() && k + 1 < |nodes| && walk == nodes[k] && maxcount <= 128 && noffset >= SECTOR_SIZE
      modifies this`nodes, nodes[k], nodes[k + 1]
      ensures Linked()
      ensures nodes == if merged then old(nodes)[..k + 1] + old(nodes)[k + 2..] else old(nodes)
      ensures old(Remaining(k, hinib, offset, noffset - SECTOR_SIZE, maxcount))
              == if merged then Remaining(k, newHinib, offset, noffset, maxcount)
                 else Remaining(k + 1, newHinib, noffset, noffset, maxcount)
    {
      ghost var was := Contents();
      ghost var look := LookAhead(was[k], was[k + 1], hinib);
      assert walk.next == nodes[k + 1];
      var adj;
      adj, newHinib := LookAtNext(walk, walk.next, hinib);
      assert Contents() == was[k + 1 := look.next];
      merged := adj && offset / 0x1_0000 == noffset / 0x1_0000 && walk.addr.numSect < maxcount;
      if merged {
        walk.addr := walk.addr.(numSect := walk.addr.numSect + 1);
        assert Contents() == was[k := walk.addr][k + 1 := look.next];
        FreeNext(walk, k);
        Absorbed(was, k, look, walk.addr, offset, noffset, maxcount);
      } else {
        LeftBehind(was, k, look, noffset, maxcount);
      }
    }

    // walk->next = walk->next->next, freeing the entry in between
    method FreeNext(walk: MapEntry, ghost k: nat)
      requires Linked() && k + 1 < |nodes| && walk == nodes[k]
      modifies this`nodes, walk`next
      ensures Linked() && nodes == old(nodes)[..k + 1] + old(nodes)[k + 2..]
      ensures Contents() == old(Contents())[..k + 1] + old(Contents())[k + 2..]
    {
      ghost var was := nodes;
      assert walk.next == was[k + 1];
      walk.next := walk.next.next;
      nodes := nodes[..k + 1] + nodes[k + 2..];
      assert forall i :: 0 <= i < |nodes| ==> nodes[i] == if i <= k then was[i] else was[i + 1];
    }
  }

  ghost predicate AllFrom(nodes: seq<MapEntry>, was: seq<MapEntry>) {
    forall i :: 0 <= i < |nodes| ==> nodes[i] in was
  }

  lemma OneGone(nodes: seq<MapEntry>, was: seq<MapEntry>, k: nat)
    ensures AllFrom(nodes, nodes)
    ensures AllFrom(nodes, was) && k + 1 < |nodes| ==>
              nodes[k] in was && nodes[k + 1] in was && AllFrom(nodes[..k + 1] + nodes[k + 2..], was)
  {
  }

  // The body of map_compact up to the adjacency decision; it may turn the successor of
  // `walk` into an LBA32 address with a count.
  method LookAtNext(walk: MapEntry, next: MapEntry, hinib: int) returns (adj: bool, newHinib: int)
    requires walk != next
    modifies next`addr
    ensures Look(adj, next.addr, newHinib) == LookAhead(walk.addr, old(next.addr), hinib)
  {
    newHinib := hinib;
    adj := ClearNoCount(walk.addr.device) == ClearNoCount(next.addr.device);
    if adj && IsLba32(walk.addr.device) {
      if !NoCount(walk.addr.device) {
        adj := hinib == next.addr.numSect;
        if adj {
          next.addr := next.addr.(numSect := 1, device := ClearNoCount(next.addr.device));
        }
      } else {
        adj := false;
        newHinib := walk.addr.numSect;
        if NoCount(next.addr.device) && next.addr.numSect == newHinib {
          next.addr := next.addr.(numSect := 1, device := ClearNoCount(next.addr.device));
        }
      }
    }
    if adj && (IsLinear(walk.addr.device) || IsLba32(walk.addr.device)) {
      adj := Low24(walk.addr) + walk.addr.numSect == Low24(next.addr);
    } else {
      adj := adj && walk.addr.track == next.addr.track && walk.addr.head == next.addr.head
             && walk.addr.sector + walk.addr.numSect == next.addr.sector;
    }
  }

  lemma LeftBehind(was: seq<SectorAddr>, k: nat, look: Look, here: nat, max: nat)
    requires k + 1 < |was| && max <= 128
    ensures var now := was[k + 1 := look.next];
            now[..k + 1] + CompactFrom(now[k + 1], now[k + 2..], look.hinib, here, here, max)
            == was[..k] + ([was[k]] + CompactFrom(look.next, was[k + 1..][1..], look.hinib, here, here, max))
  {
    var now := was[k + 1 := look.next];
    assert now[k + 2..] == was[k + 1..][1..];
    assert now[..k + 1] == was[..k] + [was[k]];
  }

  lemma Absorbed(was: seq<SectorAddr>, k: nat, look: Look, longer: SectorAddr, offset: nat, here: nat, max: nat)
    requires k + 1 < |was| && max <= 128
    ensures var now := was[k := longer][k + 1 := look.next][..k + 1] + was[k + 2..];
            |now| == |was| - 1
            && now[..k] + CompactFrom(now[k], now[k + 1..], look.hinib, offset, here, max)
               == was[..k] + CompactFrom(longer, was[k + 1..][1..], look.hinib, offset, here, max)
  {
    var now := was[k := longer][k + 1 := look.next][..k + 1] + was[k + 2..];
    assert now[k + 1..] == was[k + 1..][1..];
    assert now[..k] == was[..k];
  }

  lemma GaveUpStays(f: HostFile, zero: SectorAddr, from: nat, k: nat, n: nat)
    requires k <= n && FileEntries(f, zero, from, k).GaveUp?
    ensures FileEntries(f, zero, from, n).GaveUp?
    decreases n
  {
  }
}
