/** The second-stage loader (second.S): decoding addresses with the carried high byte, walking
    the pages of a map section, and moving the data pointer. */
module Loader {
  import opened Bytes
  import opened SectorAddress
  import opened Compaction
  import opened DiskRead
  import opened PageChain

  const SYSSEG: word := 0x1000

  // An address the loader can decode: a run on one track, or one the EDD call can move.
  ghost predicate Runnable(drives: Drives, a: SectorAddr) {
    && WalkOk(drives, a, 0, 0)
    && 1 <= CountOf(a) <= if AccessOf(a).Lba32? then 127 else 128
  }

  // The cylinder number of a CHS address comes back from the sector number.
  lemma CylinderFromLba(d: Drive, cyl: nat, head: nat, sec: nat, lba: int)
    requires head < d.heads && 1 <= sec <= d.spt && lba == ChsToLba(d, cyl, head, sec)
    ensures 0 <= lba && CylinderOfLba(d, lba) == cyl
  {
    hide Quot;
    var row := head * d.spt;
    var rem := row + sec - 1;
    MulMonotonic(head + 1, d.heads, d.spt);
    Regroup(cyl, d.heads, head, d.spt);
    assert rem < d.heads * d.spt;
    QuotientIsUnique(lba, d.heads * d.spt, cyl, rem);
  }

  lemma Regroup(cyl: nat, heads: nat, head: nat, spt: nat)
    ensures (cyl * heads + head) * spt == cyl * (heads * spt) + head * spt
  {
  }

  // A CHS run is on one cylinder, so it can be read as a whole or not at all.
  lemma TrackReadable(d: Drive, cyl: nat, head: nat, sec: nat, count: nat)
    requires head < d.heads && 1 <= sec && 1 <= count && sec + count <= d.spt + 1
    ensures var lba := ChsToLba(d, cyl, head, sec);
            0 <= lba && (RunReadable(d, Chs, lba, count) <==> cyl < d.cylinders)
  {
    var lba := ChsToLba(d, cyl, head, sec);
    CylinderFromLba(d, cyl, head, sec, lba);
    assert Readable(d, Chs, lba) <==> cyl < d.cylinders;
    forall s | lba <= s < lba + count
      ensures Readable(d, Chs, s) <==> cyl < d.cylinders
    {
      CylinderFromLba(d, cyl, head, sec + (s - lba), s);
    }
  }

  lemma RunCanBeRead(drives: Drives, r: Request)
    ensures 0 <= r.start.lba ==>
            (AllCanRead(drives, Expand(r))
            <==> RunReadable(drives(r.start.drive), r.start.via, r.start.lba, r.count))
  {
    var d, refs := drives(r.start.drive), Expand(r);
    if 0 <= r.start.lba && AllCanRead(drives, refs) {
      forall s | r.start.lba <= s < r.start.lba + r.count
        ensures Readable(d, r.start.via, s)
      {
        assert CanRead(drives, refs[s - r.start.lba]);
      }
    }
  }

  // cread, with use_linear: one address is read to offset `offset` of the buffer segment.
  method Cread(drives: Drives, a: SectorAddr, hinib: byte, offset: word)
    returns (ok: bool, calls: seq<BiosCall>, newHinib: byte)
    requires Runnable(drives, a)
    ensures newHinib == NextHinib(a, hinib)
    ensures var r := Decode(drives, a, hinib);
            && 0 <= r.start.lba && r.count == CountOf(a)
            && (ok <==> AllCanRead(drives, Expand(r)))
            && (ok ==> Tiles(drives(r.start.drive), calls, r.start.lba, r.count, offset))
  {
    hide RunReadable, AllCanRead;
    newHinib := hinib;
    RunCanBeRead(drives, Decode(drives, a, hinib));
    if !IsLinear(a.device) && !IsLba32(a.device) {
      var d := drives(a.device);
      var cyl, sec := a.sector / 64 * 256 + a.track, a.sector % 64;
      ok := cyl < d.cylinders;
      calls := [ChsCall(cyl, a.head, sec, a.numSect, offset)];
      TrackReadable(d, cyl, a.head, sec, a.numSect);
      assert Tiles(d, calls[1..], ChsToLba(d, cyl, a.head, sec) + a.numSect, 0, offset + SECTOR_SIZE * a.numSect);
    } else {
      var high, count := hinib, a.numSect;
      if NoCount(a.device) {
        high, newHinib, count := a.numSect, a.numSect, 1;
      }
      ok, calls := LbaRead(drives(DriveCode(a.device)), IsLinear(a.device), high * TWO_24 + Low24(a), count, offset);
    }
  }
}
