/** The first-stage loader (first.S): it reads the sectors of the second stage from the list of
    addresses map_write stored in the boot sector, one sector at a time, with a decoder that
    carries nothing from one address to the next. */
module FirstStage {
  import opened Bytes
  import opened SectorAddress
  import opened Geometry
  import opened FileSectors
  import opened MapPages
  import opened MapSection
  import opened PageChain

  const MAX_SECONDARY: nat := 10
  const SECONDSEG_ADDR: nat := 0xB000

  // map_write: the list as stored in an array, with a null address behind it if it is to be
  // terminated. A terminated list may have no more than maxLen - 1 entries.
  datatype Stored = Stored(table: seq<SectorAddr>) | TooBig

  method MapWrite(section: Section, maxLen: nat, terminate: bool) returns (r: Stored)
    requires section.Linked()
    ensures var list := section.Contents();
            if list == [] || |list| <= (if terminate then maxLen - 1 else maxLen) then
              r == Stored(list + if terminate then [NULL_ADDR] else [])
            else r == TooBig
  {
    var table: seq<SectorAddr> := [];
    var walk := section.head;
    var left: int := maxLen;
    var least := if terminate then 1 else 0;
    while walk != null
      invariant |table| <= |section.nodes| && table == section.Contents()[..|table|]
      invariant walk == if |table| < |section.nodes| then section.nodes[|table|] else null
      invariant left == maxLen - |table| && (table != [] ==> left >= least)
      decreases |section.nodes| - |table|
    {
      left := left - 1;
      if left < least {
        return TooBig;
      }
      table := table + [walk.addr];
      walk := walk.next;
    }
    r := Stored(if terminate then table + [NULL_ADDR] else table);
  }

  // The decoder of first.S: a linear address has its count byte zeroed, an LBA32 address has
  // its high byte there.
  function FirstDecode(drives: Drives, a: SectorAddr): SectorRef {
    if IsLinear(a.device) || IsLba32(a.device) then
      var high := if IsLba32(a.device) then a.numSect else 0;
      SectorRef(AccessOf(a), DriveCode(a.device), high * TWO_24 + Low24(a))
    else SectorRef(Chs, a.device, ChsToLba(drives(a.device), CylinderOf(a), a.head, a.sector % 64))
  }

  // Both stages read the same sector from an uncompacted address, whatever hinib the second
  // stage carries.
  lemma StagesAgree(drives: Drives, m: Mode, a: SectorAddr, hinib: byte)
    requires InstallerForm(drives, a) && InMode(m, a) && HinibFits(m, hinib)
    ensures FirstDecode(drives, a) == Target(drives, a) == Decode(drives, a, hinib).start
  {
  }

  // sload: read sectors until the null address, each 512 bytes behind the one before. A sector
  // that cannot be read makes the loader start over.
  method LoadSecondary(drives: Drives, table: seq<SectorAddr>) returns (ok: bool, refs: seq<SectorRef>, addrs: seq<nat>)
    requires exists i :: 0 <= i < |table| && IsNull(table[i])
    ensures var n := FirstNull(table);
            && |refs| == |addrs| <= n
            && (ok <==> forall k :: 0 <= k < n ==> CanRead(drives, FirstDecode(drives, table[k])))
            && (if ok then |refs| == n else |refs| < n && !CanRead(drives, FirstDecode(drives, table[|refs|])))
            && forall k :: 0 <= k < |refs| ==> refs[k] == FirstDecode(drives, table[k])
                                               && addrs[k] == SECONDSEG_ADDR + SECTOR_SIZE * k
  {
    hide CanRead, FirstDecode;
    refs, addrs := [], [];
    var si := 0;
    var bx := 0;
    FirstNullIsFirst(table);
    while !IsNull(table[si])
      invariant 0 <= si <= FirstNull(table) && bx == SECTOR_SIZE * si
      invariant |refs| == |addrs| == si
      invariant forall k :: 0 <= k < si ==> refs[k] == FirstDecode(drives, table[k])
                                            && addrs[k] == SECONDSEG_ADDR + SECTOR_SIZE * k
      invariant forall k :: 0 <= k < si ==> CanRead(drives, FirstDecode(drives, table[k]))
      decreases FirstNull(table) - si
    {
      if !CanRead(drives, FirstDecode(drives, table[si])) {
        return false, refs, addrs;
      }
      refs := refs + [FirstDecode(drives, table[si])];
      addrs := addrs + [SECONDSEG_ADDR + bx];
      bx := bx + 2 * 0x100;                               // add bh,#2
      si := si + 1;
    }
    ok := true;
  }

  // The index of the first null address.
  function FirstNull(table: seq<SectorAddr>): (n: nat)
    ensures n <= |table|
  {
    if table == [] || IsNull(table[0]) then 0 else 1 + FirstNull(table[1..])
  }

  lemma {:induction false} FirstNullIsFirst(table: seq<SectorAddr>)
    requires exists i :: 0 <= i < |table| && IsNull(table[i])
    ensures FirstNull(table) < |table| && IsNull(table[FirstNull(table)])
    ensures forall k :: 0 <= k < FirstNull(table) ==> !IsNull(table[k])
  {
    if !IsNull(table[0]) {
      var i :| 0 <= i < |table| && IsNull(table[i]);
      assert IsNull(table[1..][i - 1]);
      FirstNullIsFirst(table[1..]);
    }
  }

  // The boot loader file is mapped before the map file exists, when the address that stands in
  // for holes is still null. The first stage therefore reads exactly the n sectors behind the
  // boot sector if and only if the file has no hole among them.
  lemma {:induction false} FirstStageReadsFile(drives: Drives, f: HostFile, n: nat)
    requires FileEntries(f, NULL_ADDR, 1, n).Entries? && Usable(drives, f, n + 1)
    ensures var list := FileEntries(f, NULL_ADDR, 1, n).list;
            && |list| == n
            && (FirstNull(list + [NULL_ADDR]) == n <==> NoHoles(f, n))
            && (NoHoles(f, n) ==> forall k :: 0 <= k < n ==> FirstDecode(drives, list[k]) == RefOf(f, k + 1))
  {
    hide FirstDecode, IsNull, RefOf, FileEntries, SectorNumber, FirstNull;
    EntriesOfFile(drives, f, n);
    var list := FileEntries(f, NULL_ADDR, 1, n).list;
    var table := list + [NULL_ADDR];
    NullIsNull();
    assert IsNull(table[n]);
    FirstNullIsFirst(table);
    if FirstNull(table) == n {
      forall k: nat | 1 <= k <= n ensures SectorNumber(f, k) >= 0 {
        assert table[k - 1] == list[k - 1];
      }
    } else {
      var k := FirstNull(table);
      assert table[k] == list[k] && SectorNumber(f, k + 1) < 0;
    }
  }

  lemma NullIsNull()
    ensures IsNull(NULL_ADDR)
  {
  }

  ghost predicate NoHoles(f: HostFile, n: nat) {
    forall k: nat :: 1 <= k <= n ==> SectorNumber(f, k) >= 0
  }

  lemma {:induction false} EntriesOfFile(drives: Drives, f: HostFile, n: nat)
    requires FileEntries(f, NULL_ADDR, 1, n).Entries? && Usable(drives, f, n + 1)
    ensures var list := FileEntries(f, NULL_ADDR, 1, n).list;
            && |list| == n
            && forall k :: 0 <= k < n ==>
                 if SectorNumber(f, k + 1) >= 0 then !IsNull(list[k]) && FirstDecode(drives, list[k]) == RefOf(f, k + 1)
                 else IsNull(list[k])
  {
    hide FirstDecode, IsNull, RefOf;
    if n > 0 {
      EntriesOfFile(drives, f, n - 1);
      EntryOfFile(drives, f, n);
    }
  }

  lemma EntryOfFile(drives: Drives, f: HostFile, k: nat)
    requires Usable(drives, f, k + 1)
    ensures match f.Located(k)
            case Mapped(a) => SectorNumber(f, k) >= 0 && !IsNull(a) && FirstDecode(drives, a) == RefOf(f, k)
            case Hole => SectorNumber(f, k) < 0 && IsNull(NULL_ADDR)
            case Fatal => true
  {
    if f.Located(k).Mapped? {
      var a := f.Located(k).addr;
      LocatedTarget(drives, f, k);
      StagesAgree(drives, ModeOf(f.options), a, 0);
      InstallerFormIsNotNull(drives, a);
    }
  }

  // Install a second-stage loader of n sectors behind its boot sector, and boot its first stage.
  // It fits exactly if it has fewer than MAX_SECONDARY sectors. What is then read in full is the
  // loader as it is on disk exactly if it has no hole; and without holes it is read in full
  // exactly if each of its sectors can be read.
  method InstallAndLoadSecondary(drives: Drives, f: HostFile, n: nat)
    returns (fits: bool, ok: bool, refs: seq<SectorRef>)
    requires Usable(drives, f, n + 1)
    ensures fits <==> FileEntries(f, NULL_ADDR, 1, n).Entries? && n < MAX_SECONDARY
    ensures fits && ok ==> (NoHoles(f, n) <==> refs == seq(n, k requires 0 <= k < n => RefOf(f, k + 1)))
    ensures fits && NoHoles(f, n) ==> (ok <==> forall k :: 1 <= k <= n ==> CanRead(drives, RefOf(f, k)))
  {
    hide FileEntries, FirstDecode, RefOf, FirstNull, IsNull, CompAddr, CanRead, Usable, NoHoles;
    ok, refs := false, [];
    var section := new Section();
    fits := section.Add(f, NULL_ADDR, 1, n);
    if !fits { return; }
    FirstStageReadsFile(drives, f, n);
    var r := MapWrite(section, MAX_SECONDARY, true);
    fits := r.Stored?;
    if !fits { return; }
    NullIsNull();
    assert IsNull(r.table[n]);
    var addrs;
    ok, refs, addrs := LoadSecondary(drives, r.table);
    ghost var list := FileEntries(f, NULL_ADDR, 1, n).list;
    assert r.table == list + [NULL_ADDR];
    if NoHoles(f, n) {
      forall k | 0 <= k < n ensures FirstDecode(drives, r.table[k]) == RefOf(f, k + 1) {
        assert r.table[k] == list[k];
      }
      EachSector(drives, f, n, r.table);
    }
  }

  lemma EachSector(drives: Drives, f: HostFile, n: nat, table: seq<SectorAddr>)
    requires n <= |table| && forall k :: 0 <= k < n ==> FirstDecode(drives, table[k]) == RefOf(f, k + 1)
    ensures (forall k :: 0 <= k < n ==> CanRead(drives, FirstDecode(drives, table[k])))
            <==> forall k :: 1 <= k <= n ==> CanRead(drives, RefOf(f, k))
  {
    hide CanRead, FirstDecode, RefOf;
    if forall k :: 0 <= k < n ==> CanRead(drives, FirstDecode(drives, table[k])) {
      forall k | 1 <= k <= n
        ensures CanRead(drives, RefOf(f, k))
      {
        assert CanRead(drives, FirstDecode(drives, table[k - 1]));
      }
    }
  }
}
