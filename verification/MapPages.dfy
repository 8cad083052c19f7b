/** The layout of a map section on disk (map_end_section in map.c): pages of up to 101
    five-byte addresses, each full page linked to the next by a 102nd address. */
module MapPages {
  import opened Bytes
  import opened SectorAddress
  import opened Geometry

  const ENTRY_SIZE: nat := 5
  const PER_PAGE: nat := 101
  const LINK_OFFSET: nat := 505

  const NULL_ADDR := SectorAddr(0, 0, 0, 0, 0)

  function EntryBytes(a: SectorAddr): (s: seq<byte>)
    ensures |s| == ENTRY_SIZE
  {
    [a.sector, a.track, a.device, a.head, a.numSect]
  }

  // The bytes of a page holding `entries`; unused slots are zero.
  function PageOf(entries: seq<SectorAddr>): Block
    requires |entries| <= PER_PAGE + 1
  {
    seq(512, p requires 0 <= p < 512 =>
      if p < ENTRY_SIZE * |entries| then EntryBytes(entries[p / ENTRY_SIZE])[p % ENTRY_SIZE] else 0)
  }

  // The address a loader finds at a byte offset of a page.
  function SlotAt(page: Block, offset: nat): SectorAddr
    requires offset <= LINK_OFFSET
  {
    SectorAddr(page[offset], page[offset + 1], page[offset + 2], page[offset + 3], page[offset + 4])
  }

  // The address of sector k of the map file; map_end_section gives up if there is none.
  function AddrOf(f: HostFile, k: nat): SectorAddr {
    match f.Located(k)
    case Mapped(addr) => addr
    case _ => NULL_ADDR
  }

  // The pages of a section that occupy map file `f` from sector k on.
  function Paginate(f: HostFile, list: seq<SectorAddr>, k: nat): (pages: seq<Block>)
    ensures |pages| >= 1
  {
    if |list| <= PER_PAGE then [PageOf(list)]
    else [PageOf(list[..PER_PAGE] + [AddrOf(f, k + 1)])] + Paginate(f, list[PER_PAGE..], k + 1)
  }

  lemma SlotOfPage(entries: seq<SectorAddr>, i: nat)
    requires |entries| <= PER_PAGE + 1 && i <= PER_PAGE
    ensures SlotAt(PageOf(entries), ENTRY_SIZE * i) == if i < |entries| then entries[i] else NULL_ADDR
  {
    if i < |entries| {
      forall j | 0 <= j < ENTRY_SIZE
        ensures PageOf(entries)[ENTRY_SIZE * i + j] == EntryBytes(entries[i])[j]
      {
        assert (ENTRY_SIZE * i + j) / ENTRY_SIZE == i && (ENTRY_SIZE * i + j) % ENTRY_SIZE == j;
      }
      var p, e := PageOf(entries), EntryBytes(entries[i]);
      assert p[ENTRY_SIZE * i + 0] == e[0] && p[ENTRY_SIZE * i + 1] == e[1] && p[ENTRY_SIZE * i + 2] == e[2];
      assert p[ENTRY_SIZE * i + 3] == e[3] && p[ENTRY_SIZE * i + 4] == e[4];
    }
  }

  // memcpy of one entry behind the others
  lemma PageWithOneMore(entries: seq<SectorAddr>, a: SectorAddr, page: Block)
    requires |entries| <= PER_PAGE
    requires var o := ENTRY_SIZE * |entries|;
             page == PageOf(entries)[o := a.sector][o + 1 := a.track][o + 2 := a.device][o + 3 := a.head]
                                    [o + 4 := a.numSect]
    ensures page == PageOf(entries + [a])
  {
    var more := entries + [a];
    forall p | 0 <= p < 512
      ensures page[p] == PageOf(more)[p]
    {
      if ENTRY_SIZE * |entries| <= p < ENTRY_SIZE * |more| {
        assert p / ENTRY_SIZE == |entries| && p % ENTRY_SIZE == p - ENTRY_SIZE * |entries|;
      } else if p < ENTRY_SIZE * |entries| {
        assert p / ENTRY_SIZE < |entries|;
      }
    }
  }

  // Where the bytes of the entries are, and that an address ends a list exactly if its first four
  // bytes are zero.
  lemma PageBytes(entries: seq<SectorAddr>, i: nat)
    requires |entries| <= 102 && i < |entries|
    ensures var p, a := PageOf(entries), entries[i];
            && p[5 * i] == a.sector && p[5 * i + 1] == a.track && p[5 * i + 2] == a.device
            && p[5 * i + 3] == a.head && p[5 * i + 4] == a.numSect
            && (IsNull(a) <==> p[5 * i] == 0 && p[5 * i + 1] == 0 && p[5 * i + 2] == 0 && p[5 * i + 3] == 0)
    ensures forall q :: 5 * |entries| <= q < 512 ==> PageOf(entries)[q] == 0
  {
    SlotOfPage(entries, i);
    assert SlotAt(PageOf(entries), 5 * i) == entries[i];
  }
}
