/** What the loader writes into a kernel's boot sector and setup header once they are in memory
    (doboot in second.S): where the command line is, the video mode, and for modern kernels the
    loader's version, the heap and the initial RAM disk. */
module HeaderPatches {
  import opened Bytes
  import opened CStrings
  import opened KernelHeader

  const CL_MAGIC_ADDR := 0x20
  const CL_MAGIC: word := 0xA33F
  const CL_OFFSET := 0x22
  const PARMLINE: word := 0xB000         // built with LARGE_EBDA
  const VSS_NUM := 497
  const VGA_MODE := 506

  const LOADER_VERSION: byte := 1
  const SLA_SIZE: word := 0x9E00
  const LFLAG_USE_HEAP: byte := 0x80

  const CLEARED: Block := seq(512, _ => 0)

  // The parameter line construction area, 1 kB.
  type ParmLine = s: seq<Block> | |s| == 2 witness [CLEARED, CLEARED]

  // The command line for the kernel; the video mode to set, if any; whether the kernel is modern;
  // where the initial RAM disk has been loaded, in units of 256 bytes, 0 for none, and its size.
  datatype Patches = Patches(line: ParmLine, vga: Option<word>, modern: bool, ramDisk: word, ramSizeLow: word,
                             ramSizeHigh: word)

  function PutWord(block: Block, at: nat, w: word): Block
    requires at < 511
  {
    block[at := w % 0x100][at + 1 := w / 0x100]
  }

  function BootSector(block: Block, x: Patches): Block {
    var told := PutWord(PutWord(block, CL_MAGIC_ADDR, CL_MAGIC), CL_OFFSET, PARMLINE);
    if x.vga.Some? then PutWord(told, VGA_MODE, x.vga.value) else told
  }

  function SetupHeader(block: Block, x: Patches): Block {
    if !x.modern then block
    else
      var versioned: Block := block[16 := LOADER_VERSION];
      var heap: Block :=
        if Word(block, 6) <= NEW_HDR_VERSION then versioned
        else
          var flags: byte := if versioned[17] < LFLAG_USE_HEAP then versioned[17] + LFLAG_USE_HEAP else versioned[17];
          PutWord(versioned, 36, SLA_SIZE)[17 := flags];
      if x.ramDisk == 0 then heap
      else
        var low, high := x.ramDisk % 0x100, x.ramDisk / 0x100;
        PutWord(PutWord(PutWord(PutWord(heap, 24, low * 0x100), 26, high), 28, x.ramSizeLow), 30, x.ramSizeHigh)
  }

  // The patches leave alone what the loader still needs, and everything outside their fields.
  lemma PatchedFields(block: Block, x: Patches, p: nat)
    requires p < 512
    ensures BootSector(block, x)[VSS_NUM] == block[VSS_NUM]
    ensures !(0x20 <= p < 0x24) && !(506 <= p < 508) ==> BootSector(block, x)[p] == block[p]
    ensures p != 16 && p != 17 && !(24 <= p < 32) && !(36 <= p < 38) ==> SetupHeader(block, x)[p] == block[p]
  {
  }

  // The fields read back.
  lemma FieldsReadBack(block: Block, x: Patches)
    ensures Word(BootSector(block, x), CL_MAGIC_ADDR) == CL_MAGIC
    ensures Word(BootSector(block, x), CL_OFFSET) == PARMLINE
    ensures x.vga.Some? ==> Word(BootSector(block, x), VGA_MODE) == x.vga.value
    ensures x.modern && x.ramDisk != 0 ==>
              var header := SetupHeader(block, x);
              && Word(header, 24) + 0x1_0000 * Word(header, 26) == 0x100 * x.ramDisk
              && Word(header, 28) == x.ramSizeLow && Word(header, 30) == x.ramSizeHigh
    ensures x.modern && Word(block, 6) > NEW_HDR_VERSION ==>
              Word(SetupHeader(block, x), 36) == SLA_SIZE && SetupHeader(block, x)[17] >= LFLAG_USE_HEAP
  {
  }

  // The kernel's setup header is newer than 2.0, and so has room for the heap.
  predicate HasHeap(block: Block) {
    block[7] > 2 || (block[7] == 2 && block[6] > 0)
  }

  // Byte by byte. An old kernel's header is left as it is. In a modern one the loader type is 1;
  // the flags keep their low seven bits, and "can use heap" is set for versions above 2.0 only,
  // along with the heap's end; the address and size of the RAM disk are filled in if there is one.
  lemma SetupHeaderBytes(block: Block, x: Patches, p: nat)
    requires p < 512
    ensures !x.modern ==> SetupHeader(block, x) == block
    ensures x.modern ==> var b := SetupHeader(block, x);
              && b[16] == 1
              && b[17] % 0x80 == block[17] % 0x80
              && (b[17] >= 0x80 <==> HasHeap(block) || block[17] >= 0x80)
              && (if HasHeap(block) then b[36] == 0x00 && b[37] == 0x9E else b[36..38] == block[36..38])
              && (if x.ramDisk == 0 then b[24..32] == block[24..32]
                  else
                    && b[24] == 0 && b[25] == x.ramDisk % 0x100 && b[26] == x.ramDisk / 0x100 && b[27] == 0
                    && b[28] == x.ramSizeLow % 0x100 && b[29] == x.ramSizeLow / 0x100
                    && b[30] == x.ramSizeHigh % 0x100 && b[31] == x.ramSizeHigh / 0x100)
              && (!(16 <= p < 18) && !(24 <= p < 32) && !(36 <= p < 38) ==> b[p] == block[p])
  {
  }

  // The boot sector is told the command line by its magic number and offset, and the video mode
  // only if there is one to be set.
  lemma BootSectorBytes(block: Block, x: Patches, p: nat)
    requires p < 512
    ensures var b := BootSector(block, x);
            && b[0x20] == 0x3F && b[0x21] == 0xA3 && b[0x22] == 0x00 && b[0x23] == 0xB0
            && (if x.vga.Some? then b[506] == x.vga.value % 0x100 && b[507] == x.vga.value / 0x100
                else b[506..508] == block[506..508])
            && (!(0x20 <= p < 0x24) && !(506 <= p < 508) ==> b[p] == block[p])
  {
  }
}
