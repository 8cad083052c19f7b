/** The setup header at the start of a kernel's second sector: what the installer reads there, and
    what becomes of the load address it finds (boot_image in boot.c, doboot in second.S). */
module KernelHeader {
  import opened Bytes

  const HEADER_SIZE: nat := 40           // sizeof(SETUP_HDR)
  const NEW_HDR_VERSION: word := 0x200
  const LFLAG_HIGH: byte := 1
  const PAGE_SIZE: nat := 4096

  function Word(block: Block, at: nat): word
    requires at < 511
  {
    var low: word, high: word := block[at], block[at + 1];
    low + 0x100 * high
  }

  // "HdrS"
  const NEW_HDR_SIG: seq<byte> := [0x48, 0x64, 0x72, 0x53]

  predicate Modern(header: Block) {
    header[2..6] == NEW_HDR_SIG && Word(header, 6) >= NEW_HDR_VERSION
  }

  // The kernel asks to be loaded above 1 MB.
  predicate WantsHigh(header: Block) {
    Modern(header) && header[17] % 2 == LFLAG_HIGH
  }

  // hdr.start
  function StartOf(header: Block): nat {
    Word(header, 20) + 0x1_0000 * Word(header, 22)
  }

  // start_page, a word in the image descriptor; 0 for a kernel loaded low.
  function StartPage(header: Block): word {
    if WantsHigh(header) then StartOf(header) / PAGE_SIZE % 0x1_0000 else 0
  }

  // The 24-bit destination the loader makes of it: a word of 256-byte units.
  function Destination(startPage: word): (dest: nat)
    ensures dest < 0x100_0000
  {
    startPage * 16 % 0x1_0000 * 0x100
  }

  // The same, byte by byte: the signature, the version in bytes 6 and 7, the lowest bit of the flags
  // in byte 17, and the start in bytes 20 to 23, the lowest first.
  lemma HeaderBytes(header: Block)
    ensures var b: seq<int> := header[20..24];
            StartOf(header) == b[0] + 0x100 * b[1] + 0x1_0000 * b[2] + 0x100_0000 * b[3]
    ensures Modern(header) <==> Signed(header) && header[7] >= 2
    ensures WantsHigh(header) <==> Signed(header) && header[7] >= 2 && header[17] % 2 == 1
    ensures StartOf(header) % PAGE_SIZE == 0 <==> header[20] == 0 && header[21] % 16 == 0
  {
    assert header[2..6] == [header[2], header[3], header[4], header[5]];
  }

  predicate Signed(header: Block) {
    header[2] == 'H' as int && header[3] == 'd' as int && header[4] == 'r' as int && header[5] == 'S' as int
  }

  // It is the page asked for exactly below 16 MB; the upper bits of others are lost.
  lemma DestinationIsPage(startPage: word)
    ensures Destination(startPage) == startPage * PAGE_SIZE <==> startPage < 0x1000
  {
  }

  // boot_image accepts any page-aligned start. The kernel goes there, above the low memory, exactly
  // if that is below 16 MB (and not zero, which reads as "load low").
  lemma DestinationIsStart(header: Block)
    requires WantsHigh(header) && StartOf(header) % PAGE_SIZE == 0
    ensures Destination(StartPage(header)) == StartOf(header) % 0x100_0000
    ensures Destination(StartPage(header)) == StartOf(header) != 0 <==> 0 < StartOf(header) < 0x100_0000
  {
    var page := StartOf(header) / PAGE_SIZE;
    assert page * PAGE_SIZE == StartOf(header);
    Shifted(page);
  }

  lemma Remainder(n: nat, d: nat, q: nat, r: nat)
    requires n == q * d + r && r < d
    ensures n % d == r
  {
    QuotientIsUnique(n, d, q, r);
  }

  lemma Shifted(page: nat)
    ensures page % 0x1_0000 * 16 % 0x1_0000 * 0x100 == page * PAGE_SIZE % 0x100_0000
  {
    var q, r := Quot(page, 0x1000), Rem(page, 0x1000);
    var p, s := Quot(q, 16), Rem(q, 16);
    hide Quot, Rem;
    Remainder(page, 0x1_0000, p, s * 0x1000 + r);
    Remainder((s * 0x1000 + r) * 16, 0x1_0000, s, r * 16);
    Remainder(page * PAGE_SIZE, 0x100_0000, q, r * PAGE_SIZE);
  }
}
