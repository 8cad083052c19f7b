/** Which disk sectors a file occupies, and that its addresses name them. */
module FileSectors {
  import opened Bytes
  import opened SectorAddress
  import opened Geometry

  function SectorNumber(f: HostFile, k: nat): int {
    DiskSector(f.geo, f.bmap, SECTOR_SIZE * k)
  }

  function ViaOf(f: HostFile): Access {
    if !UsesFlags(f.geo, f.options) then Chs else if f.options.linear then Linear else Lba32
  }

  // Sector k of a file, which is not a hole.
  function RefOf(f: HostFile, k: nat): SectorRef {
    SectorRef(ViaOf(f), f.geo.device, SectorNumber(f, k))
  }

  // The installer's sector numbers are C ints.
  ghost predicate FitsInt(f: HostFile, n: nat) {
    forall k: nat :: k < n ==> SectorNumber(f, k) < 0x8000_0000
  }

  // For the first n sectors of a file: sector numbers fit, and if the file is addressed by CHS,
  // the loader's BIOS and the installer agree on the drive's geometry.
  ghost predicate Usable(drives: Drives, f: HostFile, n: nat) {
    (UsesFlags(f.geo, f.options) || Agrees(drives, f.geo)) && FitsInt(f, n) && !(f.options.linear && f.options.lba32)
  }

  lemma LocatedTarget(drives: Drives, f: HostFile, k: nat)
    requires Usable(drives, f, k + 1) && f.Located(k).Mapped?
    ensures var a := f.Located(k).addr;
            InstallerForm(drives, a) && InMode(ModeOf(f.options), a) && Target(drives, a) == RefOf(f, k)
  {
    hide InstallerForm, InMode, Target, AddressBytes, OutOfReach, DiskSector;
    AddressRoundTrip(drives, f.geo, f.options, SectorNumber(f, k));
  }

  // ---------- which sector that is ----------

  // Dividing a byte offset by the sectors per block first, and by 512 then, gives the file block.
  lemma SectorOfFile(f: HostFile, k: nat)
    ensures f.geo.file ==>
              var block := f.bmap(k / f.geo.spb);
              SectorNumber(f, k) == if block == 0 then -1 else block * f.geo.spb + k % f.geo.spb + f.geo.start
    ensures !f.geo.file ==> SectorNumber(f, k) == k + f.geo.start
  {
    var spb := f.geo.spb;
    QuotTwice(SECTOR_SIZE * k, spb, SECTOR_SIZE);
    QuotTwice(SECTOR_SIZE * k, SECTOR_SIZE, spb);
    assert Quot(SECTOR_SIZE * k, SECTOR_SIZE) == k;
    assert k == Quot(k, spb) * spb + Rem(k, spb);
  }

  // Sector k of a file is a hole exactly if FIBMAP has no block for it; any other sector that is
  // addressed is sector k % spb of that block, counted from the start of the partition, and that is
  // where the loader finds it. Of an LBA32 address the 33rd bit and those above are lost.
  lemma FileSectorIsFound(drives: Drives, f: HostFile, k: nat)
    requires (f.geo.device >= 0x80 && (f.options.linear || f.options.lba32)) || Agrees(drives, f.geo)
    ensures f.Located(k).Hole? <==> !(f.options.linear && f.options.lba32) && !(f.geo.boot && k >= 1)
                                    && f.geo.file && f.bmap(k / f.geo.spb) == 0
    ensures f.Located(k).Mapped? ==>
              var lba := if f.geo.file then f.bmap(k / f.geo.spb) * f.geo.spb + k % f.geo.spb + f.geo.start
                         else k + f.geo.start;
              var found := Target(drives, f.Located(k).addr);
              && found.drive == f.geo.device
              && found.lba == if f.geo.device >= 0x80 && f.options.lba32 then lba % 0x1_0000_0000 else lba
  {
    hide Target, AddressBytes, OutOfReach, DiskSector;
    SectorOfFile(f, k);
    if f.Located(k).Mapped? {
      AddressRoundTrip(drives, f.geo, f.options, SectorNumber(f, k));
    }
  }

  // A cylinder number is too high exactly if the sector lies behind that many cylinders.
  lemma BeyondCylinder(g: Geo, sector: nat, cylinders: int)
    ensures CylinderNr(g, sector) >= cylinders <==> sector >= cylinders * (g.sectors * g.heads)
  {
    var size := g.sectors * g.heads;
    QuotTwice(sector, g.sectors, g.heads);
    var c, r := Quot(sector, size), Rem(sector, size);
    hide Quot, Rem;
    if cylinders <= 0 {
      assert cylinders * size <= 0;
    } else if c >= cylinders {
      MulMonotonic(cylinders, c, size);
    } else {
      MulMonotonic(c + 1, cylinders, size);
    }
  }

  // The installer gives up on a sector exactly if LINEAR and LBA32 are both set, if it is not the
  // first of a boot sector's file, or if its form of address cannot name it: CHS ends with 1024
  // cylinders or the disk, LINEAR with 2^24 sectors; LBA32 has no limit.
  lemma GivenUp(f: HostFile, k: nat)
    ensures var g, o := f.geo, f.options;
            var lba := if g.file then f.bmap(k / g.spb) * g.spb + k % g.spb + g.start else k + g.start;
            f.Located(k).Fatal? <==>
              || (o.linear && o.lba32)
              || (g.boot && k >= 1)
              || (!(g.file && f.bmap(k / g.spb) == 0)
                  && if g.device >= 0x80 && (o.linear || o.lba32) then o.linear && lba >= 0x100_0000
                     else lba >= 1024 * (g.sectors * g.heads)
                          || (g.cylinders != -1 && lba >= g.cylinders * (g.sectors * g.heads)))
  {
    hide AddressBytes, DiskSector, CylinderNr;
    SectorOfFile(f, k);
    if SectorNumber(f, k) >= 0 {
      BeyondCylinder(f.geo, SectorNumber(f, k), BIOS_MAX_CYLS);
      BeyondCylinder(f.geo, SectorNumber(f, k), f.geo.cylinders);
    }
  }
}
