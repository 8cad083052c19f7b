/** Writing a file's sectors to disk: what ends up behind its addresses, and what stays. */
module DiskWrite {
  import opened Bytes
  import opened SectorAddress
  import opened Geometry
  import opened FileSectors
  import opened Memory
  import opened MapFile
  import opened PageChain

  function Updated(disk: Disk, drive: byte, lba: int, block: Block): Disk {
    (d: byte, l: int) => if d == drive && l == lba then block else disk(d, l)
  }

  // The disk after the sectors of a file from k on have been written.
  function WithFile(disk: Disk, f: HostFile, k: nat, blocks: seq<Block>): Disk
    decreases |blocks|
  {
    if blocks == [] then disk
    else WithFile(Updated(disk, f.geo.device, SectorNumber(f, k), blocks[0]), f, k + 1, blocks[1..])
  }

  // The first n sectors of a file are on different sectors of its disk.
  ghost predicate Distinct(f: HostFile, n: nat) {
    forall i: nat, j: nat :: i < j < n ==> SectorNumber(f, i) != SectorNumber(f, j)
  }

  // Two files share no sector.
  ghost predicate Disjoint(f: HostFile, n: nat, g: HostFile, m: nat) {
    f.geo.device == g.geo.device ==>
      forall i: nat, j: nat :: i < n && j < m ==> SectorNumber(f, i) != SectorNumber(g, j)
  }

  lemma {:induction false} OtherSector(disk: Disk, f: HostFile, k: nat, blocks: seq<Block>, drive: byte, lba: int)
    requires forall i: nat :: k <= i < k + |blocks| && drive == f.geo.device ==> lba != SectorNumber(f, i)
    ensures WithFile(disk, f, k, blocks)(drive, lba) == disk(drive, lba)
    decreases |blocks|
  {
    hide SectorNumber;
    if blocks != [] {
      assert drive == f.geo.device ==> lba != SectorNumber(f, k);
      OtherSector(Updated(disk, f.geo.device, SectorNumber(f, k), blocks[0]), f, k + 1, blocks[1..], drive, lba);
    }
  }

  lemma {:induction false} WrittenSector(disk: Disk, f: HostFile, k: nat, blocks: seq<Block>, i: nat)
    requires i < |blocks| && Distinct(f, k + |blocks|)
    ensures WithFile(disk, f, k, blocks)(f.geo.device, SectorNumber(f, k + i)) == blocks[i]
    decreases |blocks|
  {
    hide SectorNumber;
    var next := Updated(disk, f.geo.device, SectorNumber(f, k), blocks[0]);
    if i == 0 {
      OtherSector(next, f, k + 1, blocks[1..], f.geo.device, SectorNumber(f, k));
    } else {
      WrittenSector(next, f, k + 1, blocks[1..], i - 1);
    }
  }

  ghost predicate FileReadable(drives: Drives, f: HostFile, n: nat) {
    forall k: nat :: k < n ==> CanRead(drives, RefOf(f, k))
  }

  // A file written to its sectors is found behind its addresses.
  lemma WrittenFileIsOnDisk(drives: Drives, disk: Disk, f: HostFile, blocks: seq<Block>)
    requires Usable(drives, f, |blocks|) && AllLocated(f, 0, |blocks|)
    requires Distinct(f, |blocks|) && FileReadable(drives, f, |blocks|)
    ensures OnDisk(drives, ModeOf(f.options), WithFile(disk, f, 0, blocks), f, 0, blocks)
  {
    hide WithFile, CanRead, InstallerForm, InMode, Target, SectorNumber, CompAddr;
    forall i | 0 <= i < |blocks|
      ensures Holds(drives, ModeOf(f.options), WithFile(disk, f, 0, blocks), f, 0 + i, blocks[i])
    {
      LocatedTarget(drives, f, i);
      WrittenSector(disk, f, 0, blocks, i);
      assert CanRead(drives, RefOf(f, i));
    }
  }
}
