/** Sector addresses: how the installer writes them (geometry.c) and how the boot
    loaders read them back (second.S, first.S).

    A sector address is five bytes. It names a sector by cylinder, head and sector
    number (CHS), by a 24-bit linear number, or by a 32-bit number (LBA32). The fifth
    byte is a sector count, except in an LBA32 address marked NOCOUNT, where it is the
    high byte of the sector number; an LBA32 address with a count borrows its high byte
    from the latest NOCOUNT address, which the loader keeps in the variable hinib. */
module SectorAddress {
  import opened Bytes

  const LINEAR_FLAG: int := 0x40
  const LBA32_FLAG: int := 0x20
  const LBA32_NOCOUNT: int := 0x10
  const BIOS_MAX_CYLS: int := 1024
  const TWO_24: int := 0x100_0000

  datatype SectorAddr = SectorAddr(sector: byte, track: byte, device: byte, head: byte, numSect: byte)

  // ---------- the device byte ----------

  predicate IsLinear(device: byte) { device / 0x40 % 2 == 1 }

  predicate IsLba32(device: byte) { device / 0x20 % 2 == 1 }

  predicate NoCount(device: byte) { device / 0x10 % 2 == 1 }

  // device & ~LBA32_NOCOUNT
  function ClearNoCount(device: byte): byte {
    if NoCount(device) then device - LBA32_NOCOUNT else device
  }

  // device & 0x8F
  function DriveCode(device: byte): byte {
    device / 0x80 * 0x80 + device % 0x10
  }

  // ---------- drives as the BIOS sees them ----------

  datatype DriveFields = DriveFields(heads: nat, spt: nat, cylinders: nat, edd: bool)

  predicate ValidDrive(d: DriveFields) {
    1 <= d.heads <= 256 && 1 <= d.spt <= 63 && 1 <= d.cylinders <= BIOS_MAX_CYLS
  }

  type Drive = d: DriveFields | ValidDrive(d) witness DriveFields(1, 1, 1, false)

  type Drives = byte -> Drive

  function ChsToLba(d: Drive, cylinder: int, head: int, sec: int): int {
    (cylinder * d.heads + head) * d.spt + sec - 1
  }

  // ---------- what an address denotes ----------

  // The way a sector is reached; it decides which BIOS service reads it.
  datatype Access = Chs | Linear | Lba32

  datatype SectorRef = SectorRef(via: Access, drive: byte, lba: int)

  function AccessOf(a: SectorAddr): Access {
    if IsLinear(a.device) then Linear else if IsLba32(a.device) then Lba32 else Chs
  }

  function Low24(a: SectorAddr): nat {
    a.head * 0x1_0000 + a.track * 0x100 + a.sector
  }

  function CylinderOf(a: SectorAddr): nat {
    a.sector / 64 * 256 + a.track
  }

  // A run of consecutive sectors, read in one go.
  datatype Request = Request(start: SectorRef, count: nat)

  // cread and use_linear: the run an address asks for, given the current hinib.
  function Decode(drives: Drives, a: SectorAddr, hinib: byte): Request {
    if AccessOf(a).Chs? then
      var lba := ChsToLba(drives(a.device), CylinderOf(a), a.head, a.sector % 64);
      Request(SectorRef(Chs, a.device, lba), a.numSect)
    else if NoCount(a.device) then
      Request(SectorRef(AccessOf(a), DriveCode(a.device), a.numSect * TWO_24 + Low24(a)), 1)
    else
      Request(SectorRef(AccessOf(a), DriveCode(a.device), hinib * TWO_24 + Low24(a)), a.numSect)
  }

  // use_linear: hinib after an address has been decoded.
  function NextHinib(a: SectorAddr, hinib: byte): byte {
    if !AccessOf(a).Chs? && NoCount(a.device) then a.numSect else hinib
  }

  function Expand(r: Request): (s: seq<SectorRef>)
    ensures |s| == r.count
  {
    seq(r.count, i => r.start.(lba := r.start.lba + i))
  }

  // All sectors a list of addresses denotes, in reading order.
  function DecodeAll(drives: Drives, list: seq<SectorAddr>, hinib: byte): seq<SectorRef> {
    if list == [] then []
    else Expand(Decode(drives, list[0], hinib)) + DecodeAll(drives, list[1..], NextHinib(list[0], hinib))
  }

  function HinibAfter(list: seq<SectorAddr>, hinib: byte): byte {
    if list == [] then hinib else HinibAfter(list[1..], NextHinib(list[0], hinib))
  }

  lemma DecodeAllCons(drives: Drives, a: SectorAddr, rest: seq<SectorAddr>, hinib: byte)
    ensures DecodeAll(drives, [a] + rest, hinib)
            == Expand(Decode(drives, a, hinib)) + DecodeAll(drives, rest, NextHinib(a, hinib))
    ensures HinibAfter([a] + rest, hinib) == HinibAfter(rest, NextHinib(a, hinib))
  {
    assert ([a] + rest)[1..] == rest;
  }

  lemma {:induction false} DecodeAllAppend(drives: Drives, list: seq<SectorAddr>, more: seq<SectorAddr>, hinib: byte)
    ensures DecodeAll(drives, list + more, hinib)
            == DecodeAll(drives, list, hinib) + DecodeAll(drives, more, HinibAfter(list, hinib))
    ensures HinibAfter(list + more, hinib) == HinibAfter(more, HinibAfter(list, hinib))
  {
    hide Decode, NextHinib, Expand;
    if list == [] {
      assert list + more == more;
    } else {
      DecodeAllAppend(drives, list[1..], more, NextHinib(list[0], hinib));
      assert list + more == [list[0]] + (list[1..] + more);
      DecodeAllCons(drives, list[0], list[1..] + more, hinib);
    }
  }

  // ---------- installer form: one sector per address, no inherited high byte ----------

  predicate InstallerForm(drives: Drives, a: SectorAddr) {
    match AccessOf(a)
    case Chs =>
      && a.numSect == 1
      && !NoCount(a.device)
      && a.head < drives(a.device).heads
      && 1 <= a.sector % 64 <= drives(a.device).spt
    case Linear =>
      a.device >= 0x80 && a.numSect == 1 && !NoCount(a.device) && !IsLba32(a.device)
    case Lba32 =>
      a.device >= 0x80 && NoCount(a.device)
  }

  // The sector an installer-form address denotes, whatever was decoded before it.
  function Target(drives: Drives, a: SectorAddr): SectorRef {
    match AccessOf(a)
    case Chs => SectorRef(Chs, a.device, ChsToLba(drives(a.device), CylinderOf(a), a.head, a.sector % 64))
    case Linear => SectorRef(Linear, DriveCode(a.device), Low24(a))
    case Lba32 => SectorRef(Lba32, DriveCode(a.device), a.numSect * TWO_24 + Low24(a))
  }

  ghost predicate AllInstallerForm(drives: Drives, list: seq<SectorAddr>) {
    forall i :: 0 <= i < |list| ==> InstallerForm(drives, list[i])
  }

  function Targets(drives: Drives, list: seq<SectorAddr>): seq<SectorRef> {
    seq(|list|, i requires 0 <= i < |list| => Target(drives, list[i]))
  }

  // The address that ends a list.
  predicate IsNull(a: SectorAddr) {
    a.sector == 0 && a.track == 0 && a.device == 0 && a.head == 0
  }

  // ---------- installer options ----------

  // LINEAR and LBA32 are global and mutually exclusive; floppies use CHS under any option.
  datatype Mode = ChsMode | LinearMode | Lba32Mode

  predicate InMode(m: Mode, a: SectorAddr) {
    match AccessOf(a)
    case Chs => true
    case Linear => m.LinearMode?
    case Lba32 => m.Lba32Mode?
  }

  ghost predicate AllInMode(m: Mode, list: seq<SectorAddr>) {
    forall i :: 0 <= i < |list| ==> InMode(m, list[i])
  }

  // A linear address is decoded with the current hinib, which no linear map ever sets.
  predicate HinibFits(m: Mode, hinib: byte) {
    m.LinearMode? ==> hinib == 0
  }

  lemma InstallerFormIsNotNull(drives: Drives, a: SectorAddr)
    requires InstallerForm(drives, a)
    ensures !IsNull(a)
  {
  }

  lemma DecodeInstallerForm(drives: Drives, m: Mode, a: SectorAddr, hinib: byte)
    requires InstallerForm(drives, a) && InMode(m, a) && HinibFits(m, hinib)
    ensures Decode(drives, a, hinib) == Request(Target(drives, a), 1)
    ensures HinibFits(m, NextHinib(a, hinib))
  {
  }

  // Decoding an uncompacted list gives one sector per address, whatever hinib was.
  lemma {:induction false} DecodeAllInstallerForm(drives: Drives, m: Mode, list: seq<SectorAddr>, hinib: byte)
    requires AllInstallerForm(drives, list) && AllInMode(m, list) && HinibFits(m, hinib)
    ensures DecodeAll(drives, list, hinib) == Targets(drives, list)
  {
    if list == [] {
    } else {
      DecodeInstallerForm(drives, m, list[0], hinib);
      DecodeAllInstallerForm(drives, m, list[1..], NextHinib(list[0], hinib));
      assert Targets(drives, list) == [Target(drives, list[0])] + Targets(drives, list[1..]);
      assert Expand(Request(Target(drives, list[0]), 1)) == [Target(drives, list[0])];
    }
  }
}
