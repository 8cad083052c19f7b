/** geo_comp_addr (geometry.c): from a byte offset in a file to the address of the disk
    sector that holds it. */
module Geometry {
  import opened Bytes
  import opened SectorAddress

  // The GEOMETRY structure, once geo_open has filled it in. spb is sectors per block.
  datatype GeoFields = GeoFields(device: byte, heads: nat, cylinders: int, sectors: nat, start: nat, spb: nat,
                                 file: bool, boot: bool)

  // The bounds geo_get enforces; and that the BIOS device code leaves the flag bits clear, which is
  // taken for granted.
  predicate Checked(g: GeoFields) {
    && g.device % 0x80 < 0x10
    && 1 <= g.heads <= 256 && 1 <= g.sectors <= 63
    && 1 <= g.spb
  }

  type Geo = g: GeoFields | Checked(g) witness GeoFields(0x80, 1, 1, 1, 0, 1, false, false)

  // The FIBMAP ioctl: file block to disk block, 0 for a hole.
  type BlockMap = nat -> nat

  datatype Options = Options(linear: bool, lba32: bool)

  function ModeOf(o: Options): Mode {
    if o.linear then LinearMode else if o.lba32 then Lba32Mode else ChsMode
  }

  datatype Outcome = Mapped(addr: SectorAddr) | Hole | Fatal

  function SectorInBlock(g: Geo, block: nat, offset: nat): nat
  {
    block * g.spb + Rem(offset / SECTOR_SIZE, g.spb) + g.start
  }

  // The absolute disk sector behind a file offset, or -1 for a hole.
  function DiskSector(g: Geo, bmap: BlockMap, offset: nat): int
  {
    var fileBlock := Quot(offset, g.spb) / SECTOR_SIZE;
    var block := if g.file then bmap(fileBlock) else fileBlock;
    if g.file && block == 0 then -1
    else SectorInBlock(g, block, offset)
  }

  predicate UsesFlags(g: Geo, o: Options) {
    g.device >= 0x80 && (o.linear || o.lba32)
  }

  // The three coordinates of a sector on a drive with the given geometry.
  function CylinderNr(g: Geo, sector: nat): nat
  {
    Quot(Quot(sector, g.sectors), g.heads)
  }

  function HeadNr(g: Geo, sector: nat): byte
  {
    Rem(Quot(sector, g.sectors), g.heads)
  }

  function SectorNr(g: Geo, sector: nat): (sec: nat)
    ensures 1 <= sec <= g.sectors
  {
    Rem(sector, g.sectors) + 1
  }

  // When geo_comp_addr gives up on a sector.
  predicate OutOfReach(g: Geo, o: Options, sector: nat)
  {
    if UsesFlags(g, o) then o.linear && sector >= TWO_24
    else
      CylinderNr(g, sector) >= BIOS_MAX_CYLS || (g.cylinders != -1 && CylinderNr(g, sector) >= g.cylinders)
  }

  // A linear or LBA32 address: the sector number, low byte first, high byte in the count.
  function FlaggedBytes(device: byte, linear: bool, sector: nat): SectorAddr
    requires 0x80 <= device < 0x90
  {
    SectorAddr(sector % 256, sector / 256 % 256,
               device + (if linear then LINEAR_FLAG else LBA32_FLAG + LBA32_NOCOUNT),
               sector / 256 / 256 % 256,
               if linear then 1 else sector / 256 / 256 / 256 % 256)
  }

  // A CHS address: the two high cylinder bits share the sector byte.
  function ChsBytes(device: byte, cyl: nat, head: byte, sec: nat): SectorAddr
    requires cyl < BIOS_MAX_CYLS && 1 <= sec <= 63
  {
    SectorAddr(sec + cyl / 256 * 64, cyl % 256, device, head, 1)
  }

  // The five bytes geo_comp_addr stores for a sector.
  function AddressBytes(g: Geo, o: Options, sector: nat): SectorAddr
    requires !OutOfReach(g, o, sector)
  {
    if UsesFlags(g, o) then FlaggedBytes(g.device, o.linear, sector)
    else ChsBytes(g.device, CylinderNr(g, sector), HeadNr(g, sector), SectorNr(g, sector))
  }

  function CompAddr(g: Geo, o: Options, bmap: BlockMap, offset: nat): Outcome
  {
    if (o.linear && o.lba32) || (g.boot && offset >= SECTOR_SIZE) then Fatal
    else
      var sector := DiskSector(g, bmap, offset);
      if sector < 0 then Hole
      else if OutOfReach(g, o, sector) then Fatal
      else Mapped(AddressBytes(g, o, sector))
  }

  // A file the installer has opened: its sectors are addressed one by one.
  datatype HostFile = HostFile(geo: Geo, options: Options, bmap: BlockMap) {
    // geo_comp_addr for sector k of the file
    function Located(k: nat): Outcome {
      CompAddr(geo, options, bmap, SECTOR_SIZE * k)
    }
  }

  // The reassignments of the C body: `sector` is divided down in place.
  method GeoCompAddr(g: Geo, o: Options, bmap: BlockMap, offset: nat) returns (r: Outcome)
    ensures r == CompAddr(g, o, bmap, offset)
  {
    if o.linear && o.lba32 { return Fatal; }
    if g.boot && offset >= SECTOR_SIZE { return Fatal; }
    var block := Quot(offset, g.spb) / SECTOR_SIZE;
    if g.file {
      block := bmap(block);
      if block == 0 { return Hole; }
    }
    var sector := SectorInBlock(g, block, offset);
    if g.device >= 0x80 && (o.linear || o.lba32) {
      if o.linear && sector / 256 / 256 / 256 != 0 { return Fatal; }
      r := Mapped(FlaggedBytes(g.device, o.linear, sector));
    } else {
      var sec := Rem(sector, g.sectors) + 1;
      sector := Quot(sector, g.sectors);
      var head := Rem(sector, g.heads);
      sector := Quot(sector, g.heads);
      if sector >= BIOS_MAX_CYLS { return Fatal; }
      if g.cylinders != -1 && sector >= g.cylinders { return Fatal; }
      r := Mapped(ChsBytes(g.device, sector, head, sec));
    }
  }

  // The BIOS reports the geometry the installer computed with. Only CHS addresses depend on it.
  predicate Agrees(drives: Drives, g: Geo) {
    drives(g.device).heads == g.heads && drives(g.device).spt == g.sectors
  }

  lemma SplitIntoChs(g: Geo, sector: nat)
    ensures HeadNr(g, sector) < g.heads
    ensures (CylinderNr(g, sector) * g.heads + HeadNr(g, sector)) * g.sectors + SectorNr(g, sector) - 1 == sector
  {
    assert Quot(sector, g.sectors) == CylinderNr(g, sector) * g.heads + HeadNr(g, sector);
  }

  lemma FourBytes(n: nat)
    ensures n / 256 / 256 / 256 % 256 * TWO_24 + n / 256 / 256 % 256 * 0x1_0000 + n / 256 % 256 * 0x100 + n % 256
            == n % 0x1_0000_0000
  {
    var q1 := n / 256;
    var q2 := q1 / 256;
    var q3 := q2 / 256;
    assert n == q3 / 256 * 0x1_0000_0000
                + (q3 % 256 * TWO_24 + q2 % 256 * 0x1_0000 + q1 % 256 * 0x100 + n % 256);
  }

  lemma FlaggedDevice(drives: Drives, device: byte, linear: bool, sector: nat)
    requires 0x80 <= device < 0x90
    ensures var a := FlaggedBytes(device, linear, sector);
            && InstallerForm(drives, a) && AccessOf(a) == (if linear then Linear else Lba32)
            && DriveCode(a.device) == device
  {
  }

  lemma FlaggedRoundTrip(drives: Drives, device: byte, linear: bool, sector: nat)
    requires 0x80 <= device < 0x90
    requires linear ==> sector < TWO_24
    ensures var a := FlaggedBytes(device, linear, sector);
            InstallerForm(drives, a) && AccessOf(a) == (if linear then Linear else Lba32)
            && Target(drives, a) == SectorRef(if linear then Linear else Lba32, device, sector % 0x1_0000_0000)
  {
    FlaggedDevice(drives, device, linear, sector);
    FourBytes(sector);
    assert linear ==> sector / 256 / 256 / 256 == 0;
  }

  lemma ChsRoundTrip(drives: Drives, device: byte, cyl: nat, head: byte, sec: nat)
    requires device % 0x80 < 0x10
    requires cyl < BIOS_MAX_CYLS && 1 <= sec <= drives(device).spt <= 63 && head < drives(device).heads
    ensures var a := ChsBytes(device, cyl, head, sec);
            InstallerForm(drives, a) && AccessOf(a) == Chs
            && Target(drives, a) == SectorRef(Chs, device, ChsToLba(drives(device), cyl, head, sec))
  {
    var a := ChsBytes(device, cyl, head, sec);
    assert a.sector / 64 == cyl / 256 && a.sector % 64 == sec;
    assert CylinderOf(a) == cyl;
  }

  // Address round trip: decoding what geo_comp_addr stored gives back the sector, for every
  // sector within reach. An LBA32 address keeps the sector number modulo 2^32.
  lemma AddressRoundTrip(drives: Drives, g: Geo, o: Options, sector: nat)
    requires UsesFlags(g, o) || Agrees(drives, g)
    requires !(o.linear && o.lba32)
    requires !OutOfReach(g, o, sector)
    ensures var a := AddressBytes(g, o, sector);
            && InstallerForm(drives, a)
            && InMode(ModeOf(o), a)
            && Target(drives, a).drive == g.device
            && Target(drives, a).lba == (if UsesFlags(g, o) && o.lba32 then sector % 0x1_0000_0000 else sector)
            && Target(drives, a).via == if !UsesFlags(g, o) then Chs else if o.linear then Linear else Lba32
  {
    hide FlaggedBytes, ChsBytes, AccessOf, InstallerForm, Target, CylinderNr, HeadNr, SectorNr;
    if UsesFlags(g, o) {
      FlaggedRoundTrip(drives, g.device, o.linear, sector);
    } else {
      SplitIntoChs(g, sector);
      ChsRoundTrip(drives, g.device, CylinderNr(g, sector), HeadNr(g, sector), SectorNr(g, sector));
    }
  }
}
