/** lba_read (read.S): reading a run of sectors by number, in one EDD call where the BIOS
    offers that, or else track by track in CHS calls. */
module DiskRead {
  import opened Bytes
  import opened SectorAddress

  // One int 0x13 read, and the buffer offset (BX) it goes to.
  datatype BiosCall =
    | ChsCall(cylinder: nat, head: nat, sec: nat, count: nat, offset: word)
    | EddCall(lba: nat, count: nat, offset: word)

  // The drive accepts the call: a CHS call stays on one existing track, sectors counting from
  // 1; an EDD call moves at most 127 blocks (EDD specification, disk address packet).
  predicate Accepted(d: Drive, c: BiosCall) {
    match c
    case ChsCall(cyl, head, sec, count, _) =>
      cyl < d.cylinders && head < d.heads && 1 <= sec && 1 <= count && sec + count - 1 <= d.spt
    case EddCall(_, count, _) => d.edd && 1 <= count <= 127
  }

  function FirstLba(d: Drive, c: BiosCall): int {
    match c
    case ChsCall(cyl, head, sec, _, _) => ChsToLba(d, cyl, head, sec)
    case EddCall(lba, _, _) => lba
  }

  // The calls read sectors lba .. lba + count, in order and without gaps or overlaps, into
  // consecutive 512-byte cells from offset bx on.
  ghost predicate Tiles(d: Drive, calls: seq<BiosCall>, lba: int, count: int, bx: int) {
    if calls == [] then count == 0
    else
      var c := calls[0];
      && Accepted(d, c) && FirstLba(d, c) == lba && c.count <= count && c.offset == bx % 0x1_0000
      && Tiles(d, calls[1..], lba + c.count, count - c.count, bx + SECTOR_SIZE * c.count)
  }

  lemma {:induction false} TilesAppend(d: Drive, calls: seq<BiosCall>, c: BiosCall, lba: int, count: int, bx: int)
    requires Tiles(d, calls, lba, count, bx)
    requires Accepted(d, c) && FirstLba(d, c) == lba + count && c.offset == (bx + SECTOR_SIZE * count) % 0x1_0000
    ensures Tiles(d, calls + [c], lba, count + c.count, bx)
  {
    hide Accepted, FirstLba;
    if calls == [] {
      assert Tiles(d, [c][1..], lba + c.count, 0, bx + SECTOR_SIZE * c.count);
      assert [c][0] == c && calls + [c] == [c];
    } else {
      var k := calls[0].count;
      TilesAppend(d, calls[1..], c, lba + k, count - k, bx + SECTOR_SIZE * k);
      assert (calls + [c])[1..] == calls[1..] + [c];
    }
  }

  // The cylinder that holds a sector.
  function CylinderOfLba(d: Drive, lba: nat): nat
  {
    Quot(lba, d.heads * d.spt)
  }

  // Can the CHS path reach a sector? The head count is kept in eight bits, so a drive with 256
  // heads looks as if it had none and is refused.
  predicate ChsReaches(d: Drive, lba: nat)
  {
    d.heads <= 255 && CylinderOfLba(d, lba) < d.cylinders
  }

  ghost predicate RunReachable(d: Drive, lba: nat, count: nat)
  {
    forall s :: lba <= s < lba + count ==> ChsReaches(d, s)
  }

  // The number of leading sectors of a run that the CHS path can reach.
  function ReachableSectors(d: Drive, lba: nat, count: nat): nat
  {
    var limit := d.cylinders * (d.heads * d.spt);
    if d.heads == 256 || lba >= limit then 0
    else if lba + count <= limit then count
    else limit - lba
  }

  // No drive has more than about 2^24 sectors that CHS can name.
  lemma DriveLimit(d: Drive)
    ensures d.cylinders * (d.heads * d.spt) < 0x100_0000
  {
    MulMonotonic(d.heads, 256, d.spt);
    MulMonotonic(d.cylinders, 1024, d.heads * d.spt);
  }

  // A sector lies below the end of the drive exactly when its cylinder exists.
  lemma CylinderExists(d: Drive, lba: nat)
    ensures CylinderOfLba(d, lba) < d.cylinders <==> lba < d.cylinders * (d.heads * d.spt)
  {
    var hs, q := d.heads * d.spt, CylinderOfLba(d, lba);
    if q < d.cylinders {
      MulMonotonic(q + 1, d.cylinders, hs);
    } else {
      MulMonotonic(d.cylinders, q, hs);
    }
  }

  // Head and sector from the remainder of the division by heads * sectors per track.
  lemma ChsOfLba(d: Drive, lba: nat, cyl: nat, rem: nat, head: nat, low: nat)
    requires lba == cyl * (d.heads * d.spt) + rem && rem < d.heads * d.spt
    requires rem == head * d.spt + low && low < d.spt
    ensures head < d.heads
    ensures ChsToLba(d, cyl, head, low + 1) == lba
    ensures lba - low + d.spt <= (cyl + 1) * (d.heads * d.spt)
  {
    if head >= d.heads {
      MulMonotonic(d.heads, head, d.spt);
    }
    MulMonotonic(head + 1, d.heads, d.spt);
    assert cyl * (d.heads * d.spt) == cyl * d.heads * d.spt;
  }

  // What is left of a cylinder has a high byte below the number of sectors per track.
  lemma HighByteBelow(rem: word, heads: byte, spt: byte)
    requires rem < heads * spt
    ensures rem / 0x100 < spt
  {
    MulMonotonic(heads, 0x100, spt);
  }

  // lba_more_small: ask for the geometry, split DI:CX into cylinder, head and sector, and read
  // up to the end of that track. All registers hold what they are given: neither division overflows.
  method ReadOnTrack(d: Drive, di: word, cx: word, remaining: byte, bx: word) returns (ok: bool, call: BiosCall)
    requires 1 <= remaining
    ensures var lba := di * 0x1_0000 + cx;
            && (ok <==> ChsReaches(d, lba))
            && (ok ==> Accepted(d, call) && FirstLba(d, call) == lba && call.offset == bx
                       && 1 <= call.count <= remaining && call.count <= 63
                       && lba + call.count <= d.cylinders * (d.heads * d.spt))
  {
    call := EddCall(0, 0, bx);
    ghost var lba := di * 0x1_0000 + cx;
    CylinderExists(d, lba);
    var dh: byte, cl: byte, maxCyl: word := d.heads - 1, d.spt, d.cylinders - 1;
    var al: byte := (dh + 1) % 0x100;                   // inc al
    MulMonotonic(al, 0xff, cl);
    var si: word := al * cl;                            // mul cl
    if di >= si {                                       // would overflow the division
      if d.heads <= 255 {
        MulMonotonic(d.cylinders, 0x1_0000, d.heads * d.spt);
      }
      return false, call;
    }
    assert al == d.heads;
    var cyl, rem := DivWord(di, cx, si);                // div si
    if cyl > maxCyl {
      return false, call;
    }
    HighByteBelow(rem, al, cl);
    var head, low := DivByte(rem, cl);                  // div cl
    ChsOfLba(d, lba, cyl, rem, head, low);
    MulMonotonic(cyl + 1, d.cylinders, d.heads * d.spt);
    var left: byte := cl - low;                         // sectors to the end of the track
    var n := if remaining < left then remaining else left;
    call := ChsCall(cyl, head, low + 1, n, bx);
    ok := true;
  }

  lemma WrapAdd(x: nat, y: nat)
    requires y < 0x1_0000
    ensures (x % 0x1_0000 + y) % 0x1_0000 == (x + y) % 0x1_0000
  {
    var q := x / 0x1_0000;
    assert x + y == q * 0x1_0000 + (x % 0x1_0000 + y);
  }

  // The CHS path of lba_read. It stops at the first sector it cannot reach.
  method ReadTracks(d: Drive, lba: nat, count: byte, bx: word) returns (ok: bool, calls: seq<BiosCall>)
    requires 1 <= count && lba < 0x1_0000_0000
    ensures ok <==> RunReachable(d, lba, count)
    ensures Tiles(d, calls, lba, ReachableSectors(d, lba, count), bx)
  {
    hide Accepted, FirstLba;
    DriveLimit(d);
    calls := [];
    ghost var limit := d.cylinders * (d.heads * d.spt);
    ghost var done: nat := 0;
    var di: word, cx: word := lba / 0x1_0000, lba % 0x1_0000;
    var offset: word := bx;
    var remaining: byte := count;
    while true
      invariant 1 <= remaining && done + remaining == count
      invariant di * 0x1_0000 + cx == lba + done
      invariant Tiles(d, calls, lba, done, bx) && offset == (bx + SECTOR_SIZE * done) % 0x1_0000
      invariant done > 0 ==> lba + done <= limit && d.heads <= 255
      decreases remaining
    {
      var call;
      ok, call := ReadOnTrack(d, di, cx, remaining, offset);
      CylinderExists(d, lba + done);
      if !ok {
        break;
      }
      TilesAppend(d, calls, call, lba, done, bx);
      calls := calls + [call];
      WrapAdd(bx + SECTOR_SIZE * done, SECTOR_SIZE * call.count);
      done := done + call.count;
      if cx + call.count >= 0x1_0000 {                   // add cx,bx; adc di,#0
        cx, di := cx + call.count - 0x1_0000, di + 1;
      } else {
        cx := cx + call.count;
      }
      offset := (offset + SECTOR_SIZE * call.count) % 0x1_0000;
      remaining := remaining - call.count;
      if remaining == 0 {
        break;
      }
    }
    if ok {
      forall s: nat | lba <= s < lba + count ensures ChsReaches(d, s) {
        CylinderExists(d, s);
      }
    }
  }

  // Whether the loader can read a sector at all: CHS addresses name their cylinder outright,
  // linear ones always go through the CHS path, LBA32 ones only without EDD.
  predicate Readable(d: Drive, via: Access, lba: nat)
  {
    match via
    case Chs => CylinderOfLba(d, lba) < d.cylinders
    case Linear => ChsReaches(d, lba)
    case Lba32 => d.edd || ChsReaches(d, lba)
  }

  ghost predicate RunReadable(d: Drive, via: Access, lba: nat, count: nat)
  {
    forall s :: lba <= s < lba + count ==> Readable(d, via, s)
  }

  // lba_read: EDD if it is available, the address is not LINEAR and the count is no more than 127,
  // the CHS path otherwise.
  method LbaRead(d: Drive, linear: bool, lba: nat, count: byte, bx: word) returns (ok: bool, calls: seq<BiosCall>)
    requires 1 <= count && lba < 0x1_0000_0000
    ensures ok <==> RunReadable(d, if linear || count > 127 then Linear else Lba32, lba, count)
    ensures ok ==> Tiles(d, calls, lba, count, bx)
  {
    hide ChsReaches;
    if linear || count > 127 || !d.edd {
      ok, calls := ReadTracks(d, lba, count, bx);
      SamePath(d, linear || count > 127, lba, count);
      if ok {
        AllReachable(d, lba, count);
      }
    } else {
      ok, calls := true, [EddCall(lba, count, bx)];
      assert Tiles(d, calls[1..], lba + count, 0, bx + SECTOR_SIZE * count);
    }
  }

  lemma SamePath(d: Drive, linear: bool, lba: nat, count: nat)
    requires (linear || !d.edd)
    ensures RunReachable(d, lba, count) <==> RunReadable(d, if linear then Linear else Lba32, lba, count)
  {
    var via := if linear then Linear else Lba32;
    assert forall s: nat :: Readable(d, via, s) == ChsReaches(d, s);
  }

  lemma AllReachable(d: Drive, lba: nat, count: nat)
    requires 1 <= count && RunReachable(d, lba, count)
    ensures ReachableSectors(d, lba, count) == count
  {
    assert ChsReaches(d, lba) && ChsReaches(d, lba + count - 1);
    CylinderExists(d, lba + count - 1);
  }
}
