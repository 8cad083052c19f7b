# A model of the LILO boot loader

This project models the parts of LILO 21.4-4 that turn files into a program for the boot loader and the
boot loader that runs it, and proves that together they do what they are for: a booted machine has exactly
the installed file in memory.

## What is modelled

**From a file to a map.** The installer asks the file system for each sector of a file and writes it down as
a five-byte address (`Geometry`): by cylinder, head and sector, by a 24-bit linear number, or by a 32-bit
number whose high byte takes the place of the sector count. Addresses are collected in a linked list
(`MapSection`), merged into runs in place (`Compaction`, `Maximality`), and laid out as linked pages of a map
file (`MapPages`, `MapFile`). `SectorAddress` says what an address denotes to the loader, which carries a
high byte (`hinib`) from one address to the next. `FileSectors` says which sectors a file occupies.

**From the map to memory.** The loader walks the pages (`PageChain`, `SecondStage`), decodes addresses
(`Loader`), reads runs by EDD or track by track (`DiskRead`), and moves its data pointer in low memory or the
24-bit destination above 1 MB. `BootKernel` is the load order of a kernel image, `Memory` the disk and the
memory. `DiskWrite` is the map file written to disk. `EndToEnd` puts installer and loader together.
`FirstStage` does the same for the first-stage loader, `Runs` tells the compactor's runs from
the original section; with it `SectorSum` is about the sector count the installer reports, `RangeImage` and
`RangeForms` about kernels on raw disk ranges. `KernelHeader` is what the installer
reads from a kernel's header, `HeaderPatches` what the loader writes into it.

**Around it.** `ChangeRules` is the vetting of partition table change rules and the chain loader's cache;
`PasswordPrompt` the password matcher; `ImageTable` the table of labels and its look-up; `ConfigTokens`,
`BareTokens` and `ConfigReader` the configuration file reader, and `ConfigLayout` the files it reads
back; `DecimalPrinter` the number printer of the disk utility; `Checksum` the descriptor checksum.

Code that works step by step is modelled by classes and loops, each proved against functions on values; the
lemmas are about those functions. Words and bytes are bounded integers with their wrap-around written out.
The configuration is the default one: long EBDA layout, case-insensitive labels, variable setup size,
partition table rewriting, and the first stage built to read single sectors.

## What came out false

- The sector count returned by `map_end_section` adds up address bytes in LBA32 maps
  (`SectorSum.ReportedSectors`), so the size check of boot.c:30-34 is only reliable without LBA32
  (`SectorSum.ReportedWithoutLba32`) and accepts oversize kernels with it (`EndToEnd.OversizeAccepted`).
  The end-to-end theorem asks for the size limit itself in that one case.
- The setup sector count of a kernel is taken as it is, up to 255. More than 79 setup sectors run over the first stage,
  the loader's stack and the parameter line, one after the other (`BootKernel.SetupSparesLoader`; the 87th sector holds
  the top of the stack), and from 128 on even ES has moved when the header is patched (`BootKernel.SetupSegment`). What
  the loader does after that is not told by its code; `EndToEnd.InstallAndBoot` reports it as `Overrun`, exactly then.
- Of a high load address only 24 bits survive, so a kernel that asks for 16 MB or more is accepted and goes elsewhere,
  or low if the 24 bits are zero (`KernelHeader.DestinationIsStart`).
- The CHS path refuses drives with 256 heads, because the head count wraps to zero in eight bits
  (`DiskRead.ReadTracks`). The installer allows them (geometry.c:473-475).
- For raw ranges the number of uncompacted entries is a constant. A merged transfer can cross a 64 KiB
  boundary, and with more than 58 setup sectors the loader takes merged runs for single sectors
  (`RangeImage.RangeLoads`; in figures, `RangeForms`).
- The second-stage file is mapped before the map file exists, so a hole in it ends its sector list early
  (`FirstStage.FirstStageReadsFile`). It may have nine sectors, not the ten of `MAX_SECONDARY`.
- A change rule for BIOS drive 0 is accepted at installation and ends the list at boot
  (`ChangeRules.AllRulesCount`, which says when nothing is lost by that).
- A quoted `"="` in the configuration file is not told apart from the sign (`ConfigLayout.ConfigRoundTrip`).
- A variable without braces, as in `image=$KERNEL`, is refused at the end of a line (`BareTokens.VariableIsRead`).
- Labels with blanks can hide each other (`ImageTable.AmbiguousLabels`).

One observation where nothing is broken: `map_compact` leaves one entry more alone than its argument says (map.h:47
only promises that many). It is this extra entry that makes the compacted map fit the loader, which reads fallback,
options, boot and setup sectors singly.

## Model

| member | source | states |
|---|---|---|
| EndToEnd.InstallAndBoot | lilo-21.4.4-master/second.S:1054-1380 | End to end: a kernel file of any length, fragmentation and holes is mapped, compacted or not, in CHS, LINEAR or LBA32 form, the map file is written to disk, and the kernel is booted from there. Installation succeeds exactly if the file is long enough, every sector has an address, and the kernel is page-aligned or passes the size check. The boot then fails exactly if some sector it reads cannot be read; it runs over itself exactly if more than 79 setup sectors are taken; and otherwise memory holds the options, the command line, the boot sector and the setup sectors with their headers patched, and the kernel proper of that file in order, holes as zeros, with first stage and stack as they were. The runs of data transferred add up to all these sectors, and none crosses a 64 KiB boundary. |
| EndToEnd.SizeCheck | lilo-21.4.4-master/boot.c:30-34 | The size check passes exactly if the length of the section, plus the high bytes of the entries that keep theirs, minus their number, is within the limit. |
| EndToEnd.OversizeAccepted | lilo-21.4.4-master/boot.c:62-65 | By LBA32 on the first 8 GB of a disk a low-loaded kernel of any size is accepted if it is not compacted; if it is, exactly those that exceed the limit by no more than the number of entries that keep their high byte. |
| EndToEnd.InstallKernel | lilo-21.4.4-master/boot.c:37-72 | Mapping a kernel succeeds if and only if its header can be read, all its sectors and all map sectors used can be addressed, and its start is page-aligned if it wants to be high, or else the reported size is accepted (in bytes: AcceptedByHeader); then start_page is as its header says, and the map file holds exactly the header, the descriptors, the zero sector, the two special sectors and the pages of the (compacted) list. |
| EndToEnd.AcceptedByHeader | lilo-21.4.4-master/boot.c:50-69 | Told by the bytes of the file: a kernel of at least 552 bytes signed HdrS, of version 2.0 or later and with bit 0 of byte 17 set is accepted, if all can be mapped, exactly if its start in bytes 20 to 23 is a multiple of 4096, and start_page is that start divided by 4096, modulo 65536; any other exactly if its reported size is at most 1024 more than its setup sectors (byte 497, or 4), and start_page is 0. |
| EndToEnd.StoredRuns | lilo-21.4.4-master/map.c:168-226 | Of an installed kernel the runs behind the setup sectors have up to 127 sectors in LBA32 mode and 128 otherwise, cross no 64 KiB boundary, and could not be longer. |
| EndToEnd.MapFileStarts | lilo-21.4.4-master/map.c:71-100 | The installed map file begins with the mark 6d 6b, the two descriptor sectors, a sector of zeros, the fallback command line and the options. |
| KernelHeader.DestinationIsStart | lilo-21.4.4-master/boot.c:64-70 | A page-aligned kernel that wants to be high is sent to its start exactly if that is below 16 MB and not zero; the loader sees the start modulo 16 MB. |
| KernelHeader.DestinationIsPage | lilo-21.4.4-master/second.S:1070-1078 | The shifted word is the page asked for exactly for pages below 4096. |
| KernelHeader.HeaderBytes | lilo-21.4.4-master/boot.c:55-69 | Which bytes of the header are signature, version, flag and start, the lowest byte first. |
| EndToEnd.KernelKept | lilo-21.4.4-master/map.c:126-137 | Writing the map file leaves the kernel file as it was. |
| EndToEnd.ReadyToBoot | lilo-21.4.4-master/bsect.c:276-366 | What the installer leaves on disk meets all that the loader relies on: a chain of pages that holds the list, single entries up to the setup sectors, and behind them runs that denote the same sectors. |
| EndToEnd.BeginKernel | lilo-21.4.4-master/bsect.c:362-364 | The fallback and the options sector become entries 0 and 1 of the section. |
| EndToEnd.FileEntriesTargets | lilo-21.4.4-master/map.c:146-159 | The addresses registered for a file name its sectors one by one and in order, and the zero sector for each hole. |
| EndToEnd.KernelContent | lilo-21.4.4-master/map.c:71-85 | With the map file on disk, the sectors the addresses name hold the two special sectors and the file, zeros for holes. |
| EndToEnd.FileContent | lilo-21.4.4-master/geometry.c:573-580 | What is meant by the content of a file: sector k is 512 zeros if FIBMAP has no block for it, and otherwise sector k % spb of that block, counted from the start of the partition. |
| Geometry.AddressRoundTrip | lilo-21.4.4-master/geometry.c:566-616 | Decoding the address stored for a sector gives back that sector, for every sector within the limits of its form (LBA32: modulo 2^32), and the address is in installer form. Only a CHS address depends on what geometry the BIOS reports. |
| Geometry.GeoCompAddr | lilo-21.4.4-master/geometry.c:566-616 | The in-place divisions of the original compute cylinder, head and sector, or the linear bytes, of the specification, of which FileSectors.FileSectorIsFound and FileSectors.GivenUp say what sector it names and when it gives up. |
| Geometry.ChsRoundTrip | lilo-21.4.4-master/geometry.c:595-613 | The two cylinder bits packed into the sector byte come apart again. |
| Geometry.FlaggedRoundTrip | lilo-21.4.4-master/geometry.c:582-594 | A LINEAR or LBA32 address gives back the sector number, with the high byte in the place of the count. |
| FileSectors.LocatedTarget | lilo-21.4.4-master/geometry.c:566-616 | Every address handed out for a sector of a file names that sector to the loader. |
| FileSectors.FileSectorIsFound | lilo-21.4.4-master/geometry.c:573-594 | Sector k of a mounted file is a hole exactly if FIBMAP gives no block for file block k / spb (and there is no other fault); if it has an address, the loader decodes that to sector k % spb of the block, plus the start of the partition (LBA32: modulo 2^32); sector k of a device is sector k from its start. |
| FileSectors.GivenUp | lilo-21.4.4-master/geometry.c:569-606 | The installer gives up exactly if LINEAR and LBA32 are both set, beyond the first sector of a boot sector file, on 2^24 sectors or more in LINEAR mode, and by CHS behind 1024 cylinders or the end of the disk. |
| SectorAddress.InstallerFormIsNotNull | lilo-21.4.4-master/second.S:1416-1427 | No address the installer hands out looks like the end of a list. |
| SectorAddress.DecodeAllInstallerForm | lilo-21.4.4-master/second.S:1917-1942 | Without compaction a list decodes to one sector per address, whatever high byte the loader starts with. |
| SectorAddress.DecodeAllAppend | lilo-21.4.4-master/second.S:1917-1942 | Decoding is sequential: the second part of a list is decoded with the high byte the first part leaves. |
| Compaction.CompactPreservesMeaning | lilo-21.4.4-master/map.c:168-226 | For every installer-form list and every initial high byte the loader reads the same sectors from the compacted list as from the original. |
| Compaction.CompactFromPreservesMeaning | lilo-21.4.4-master/map.c:182-222 | The same for the loop from any state: an LBA32 entry with a dropped high byte is only ever followed by the loader with that byte in hinib. |
| Compaction.MergedRun | lilo-21.4.4-master/map.c:186-216 | Where an entry absorbs its successor, the loader reads its run with exactly the successor's sector added. |
| Compaction.MergedTrack | lilo-21.4.4-master/map.c:205-210 | CHS entries are joined only within one track of one cylinder, though cylinder bits share the sector byte. |
| Compaction.SuccessorKept | lilo-21.4.4-master/map.c:187-204 | Where entries are not joined, the successor denotes the same single sector although its high byte may have been replaced by a count. |
| Compaction.CompactWithinBlocks | lilo-21.4.4-master/map.c:173-216 | No run is longer than 127 (LBA32) or 128 sectors or crosses a 64 KiB block counted from the first compactable sector. |
| Maximality.CompactIsMaximal | lilo-21.4.4-master/map.c:182-222 | Past the skipped entries no two neighbours could still be joined: they are not consecutive, not on one track, in different blocks, or the first is full or carries its own high byte. |
| Maximality.ContinuationIsAdjacent | lilo-21.4.4-master/map.c:184-210 | Any two runs that are consecutive for the loader are recognised as adjacent by the comparison of address bytes. |
| MapSection.Section.Register | lilo-21.4.4-master/map.c:113-123 | Appends an entry to the linked list. |
| MapSection.Section.Add | lilo-21.4.4-master/map.c:146-165 | Appends one entry per file sector, the zero address for holes; gives up exactly if an address is out of reach. |
| MapSection.Section.CompactInPlace | lilo-21.4.4-master/map.c:168-226 | The in-place pass over the linked list leaves exactly the compacted list and reports how many entries it freed. One more entry is skipped than its argument says. |
| MapSection.Section.Visit | lilo-21.4.4-master/map.c:182-222 | One round keeps the final result: what is done plus what the rest of the loop will make of the remainder. |
| MapSection.Section.FreeNext | lilo-21.4.4-master/map.c:216-221 | Unlinking the successor removes exactly that entry. |
| MapSection.LookAtNext | lilo-21.4.4-master/map.c:183-210 | The adjacency decision and the conversion of an LBA32 successor, in place. |
| Runs.RunsAreAsTold | lilo-21.4.4-master/map.c:173-222 | A run begins with an entry of the original section exactly if it does not join the one before (another drive, track, sector number or high byte, or that one keeps its own), is the first of a block, or that run is full. |
| Runs.AdjacentIsJoined | lilo-21.4.4-master/map.c:184-210 | The comparison with the merged run decides what the two original neighbours alone decide. |
| Runs.NextRound | lilo-21.4.4-master/map.c:182-222 | The loop keeps knowing its run: where it began, how long it is and which high byte stands for it. |
| SectorSum.ReportedSectors | lilo-21.4.4-master/map.c:270-286 | The number reported for a section is its length, plus the high bytes of the entries that keep theirs, minus the number of those entries; so it is right exactly if these are equal. Which entries keep theirs is told from the section as registered. |
| SectorSum.ReportedUncompacted | lilo-21.4.4-master/map.c:270-286 | Without compaction all entries keep theirs. |
| SectorSum.ReportedWithoutLba32 | lilo-21.4.4-master/map.c:270-286 | In CHS and LINEAR maps the reported number is always the number of sectors mapped. |
| SectorSum.ReportedTooFew | lilo-21.4.4-master/map.c:279 | On the first 8 GB of a disk an LBA32 section of any length is reported as empty if it is not compacted, and as too short if it is. |
| RangeImage.RangeLoads | lilo-21.4.4-master/boot.c:92-124 | A compacted raw range, by any form of address and with any number of setup sectors, loads right (what is taken for one sector is one, and no transfer of the kernel proper crosses a 64 KiB boundary) if and only if a run begins with each entry behind an entry taken for one sector, and with each that lands on a boundary. |
| RangeImage.RangeRepresents | lilo-21.4.4-master/boot.c:118-119 | A range that loads right and has at most 58 setup sectors represents its sectors as well as a mapped file does. |
| RangeImage.BootRange | lilo-21.4.4-master/second.S:1054-1380 | Booting such a range fails exactly if some sector cannot be read, and otherwise leaves the whole image in low memory. |
| RangeImage.SafeIffRunsBegin | lilo-21.4.4-master/second.S:1598-1618 | The transfers of a load are safe exactly if each sector on a boundary begins a run. |
| RangeImage.SinglesIffRunsBegin | lilo-21.4.4-master/second.S:1305-1311 | Entries are single sectors exactly if a run begins behind each. |
| RangeForms.RangeSection | lilo-21.4.4-master/boot.c:98-118 | The section of a range consists of consecutive disk sectors. |
| RangeForms.LinearRangeLoads | lilo-21.4.4-master/boot.c:118-119 | By LINEAR addresses a range of n sectors loads right exactly if n <= 60, or there are 58 setup sectors, or fewer and n <= 129 + setup. |
| RangeForms.Lba32RangeLoads | lilo-21.4.4-master/boot.c:118-119 | By LBA32 addresses: exactly if each entry that has to begin a run is first in its block, stands alone as the first compactable or first of a new high byte, follows one of these, or comes after a full run of 127. |
| RangeForms.Lba32Figures | lilo-21.4.4-master/boot.c:118-119 | Where all sectors share their high byte this is: as by LINEAR addresses, and with 59 setup sectors and n <= 188, and with more and n <= 61. |
| RangeForms.ChsRangeLoads | lilo-21.4.4-master/boot.c:118-119 | By CHS addresses: exactly if the entries that have to begin a run are first on their track or in their block. |
| MapFile.MapFile.constructor | lilo-21.4.4-master/map.c:71-85 | The map file starts with the default command line header and three zero sectors, the last of which stands in for holes. |
| MapFile.MapFile.AddSector | lilo-21.4.4-master/map.c:126-137 | A sector is appended to the map file and its address to the section. |
| MapFile.MapFile.EndSection | lilo-21.4.4-master/map.c:241-286 | Writes the (compacted) list as linked pages at the end of the map file, or fails exactly if a page has no address or the list is empty. |
| MapFile.MapFile.WriteEntry | lilo-21.4.4-master/map.c:256-282 | A full page is linked to the next one and flushed before the next entry is stored. |
| MapFile.MapFile.TurnPage | lilo-21.4.4-master/map.c:260-275 | The link of a full page is the address of the page that follows it in the file. |
| MapFile.MapFile.Done | lilo-21.4.4-master/map.c:88-110 | The descriptor sectors replace sectors 1 and 2 and nothing else; fails exactly if one of the three fixed sectors has no address. |
| DiskWrite.WrittenFileIsOnDisk | lilo-21.4.4-master/map.c:126-137 | What has been written to the sectors of the map file is what the loader reads through their addresses, if the file's sectors are distinct. |
| PageChain.PagesFormChain | lilo-21.4.4-master/map.c:241-286 | Paging round trip: for every list length the loader finds on the pages exactly the list, a link in slot 101 of each full page with more to come, and the end. |
| PageChain.FullPageChain | lilo-21.4.4-master/second.S:1428-1446 | On a full page the writer's and the reader's offset arithmetic agree on which slot is the link. |
| MapPages.SlotOfPage | lilo-21.4.4-master/map.c:276-279 | Entry i of a page is found at byte 5i, and a null address behind the last one. |
| MapPages.PageBytes | lilo-21.4.4-master/map.c:267-278 | Entry i of a page occupies bytes 5i to 5i + 4 in the order sector, track, device, head, count; the rest is zero; an address ends a list exactly if its first four bytes are zero. |
| DiskRead.ReadTracks | lilo-21.4.4-master/read.S:102-222 | Splitting by tracks reads exactly the sectors of the run, in order, to consecutive offsets, each call on one track; it succeeds if and only if every sector's cylinder exists and the drive has fewer than 256 heads, and otherwise has read exactly the sectors before the first unreachable one. |
| DiskRead.ReadOnTrack | lilo-21.4.4-master/read.S:104-182 | One round: every register holds its value and neither division overflows, the call starts at the wanted sector and ends no later than its track. |
| Bytes.DivWord | lilo-21.4.4-master/read.S:143-145 | Quotient and remainder of a division of DX:AX by a word, allowed only where they fit. |
| Bytes.DivByte | lilo-21.4.4-master/read.S:149-152 | Quotient and remainder of a division of AX by a byte, allowed only where they fit. |
| DiskRead.LbaRead | lilo-21.4.4-master/read.S:19-222 | EDD for at most 127 sectors where available and not LINEAR, tracks otherwise; either delivers the run or fails exactly if a sector is unreachable by it. |
| Memory.TiledDelivery | lilo-21.4.4-master/read.S:164-194 | BIOS calls that cover a run put its sectors into consecutive memory if the buffer stays in its segment. |
| Loader.Cread | lilo-21.4.4-master/second.S:1917-1942 | Reading one address reads the run it denotes with the current high byte, or fails exactly if one of its sectors is unreachable. |
| SecondStage.AdvanceIsExact | lilo-21.4.4-master/second.S:1598-1618 | ES:BX moves by 512 bytes a sector if and only if the count is at most 128. |
| SecondStage.SecondStage.Fetch | lilo-21.4.4-master/second.S:1410-1446 | The next address of the section, turning pages; hinib survives each page read. |
| SecondStage.SecondStage.Sread | lilo-21.4.4-master/second.S:1585-1618 | The run's sectors land at ES:BX, which then points behind them, and just this transfer is added to the log. |
| SecondStage.SecondStage.Rdhigh | lilo-21.4.4-master/second.S:1513-1576 | The run's sectors land at the 24-bit destination above 1 MB, which advances by as many bytes; of low memory only the transfer buffer changes. |
| SecondStage.SecondStage.AddToDest | lilo-21.4.4-master/second.S:1564-1571 | Word addition and byte carry advance the 24-bit destination exactly. |
| SecondStage.SecondStage.LoadLow | lilo-21.4.4-master/second.S:1381-1393 | Over a whole load the k-th sector lands at 0x10000 + 512k, the transfers made add up to all sectors, and none crosses a 64 KiB boundary; fails exactly if a sector is unreachable. |
| SecondStage.SecondStage.LoadHigh | lilo-21.4.4-master/second.S:1389-1393 | Over a whole load above 1 MB, up to the end of the 24-bit range, the k-th sector lands at the destination + 512k. |
| SecondStage.SecondStage.LoadOne | lilo-21.4.4-master/second.S:1395-1408 | One uncompacted entry is one sector in memory. |
| SecondStage.PointerStep | lilo-21.4.4-master/second.S:1598-1618 | Runs that respect the blocks of the compactor never make the buffer leave its segment or cross a DMA boundary. |
| BootKernel.CompactedRepresents | lilo-21.4.4-master/second.S:1101-1311 | The compactor skips exactly the entries the loader takes one by one, and the rest denotes the same sectors whatever the reads of the default command line have left in hinib. |
| BootKernel.UncompactedRepresents | lilo-21.4.4-master/map.c:251 | The same without compaction. |
| BootKernel.LoadSpecials | lilo-21.4.4-master/second.S:1092-1200 | Fallback and options sector are read in this order; that the command line is read and perhaps written back in between changes nothing of it. Then the parameter line is in place. |
| BootKernel.LoadHeader | lilo-21.4.4-master/second.S:1092-1290 | Behind them the boot sector is read and told where the command line is; meeting the end or an unreadable sector is reported exactly. |
| BootKernel.LoadSetup | lilo-21.4.4-master/second.S:1285-1311 | The setup sectors lie behind the boot sector in order; a section that ends early starts the system with what there is; it fails exactly if one of the sectors taken cannot be read, and the 80th sector taken reaches the loader. |
| BootKernel.SetupSparesLoader | lilo-21.4.4-master/lilo.h:186-196 | Loading setup sectors leaves first stage, stack and parameter line as they are, whatever they hold, if and only if there are at most 79. |
| BootKernel.SetupSegment | lilo-21.4.4-master/second.S:1598-1618 | ES, by which the header is patched, is still the setup segment exactly with fewer than 128 setup sectors. |
| BootKernel.LoadRest | lilo-21.4.4-master/second.S:1360-1393 | The kernel proper is in order in low or high memory and nothing loaded before is overwritten. |
| BootKernel.LoadAndPatchSetup | lilo-21.4.4-master/second.S:1285-1363 | The setup sectors are in place and the header is patched by way of ES, if they were all there; otherwise the system is started at once; or the loader has been run over. |
| BootKernel.LoadFront | lilo-21.4.4-master/second.S:1092-1363 | Special sectors, parameter line, boot sector and setup sectors are in place, or exactly one of the reasons why not is reported. |
| BootKernel.BootImage | lilo-21.4.4-master/second.S:1054-1380 | Fails exactly if some sector it reads is unreachable, runs over itself exactly if the section has more than 79 setup sectors, and otherwise leaves the whole memory image, patched headers included, and the loader's own area as it was. A kernel is loaded high only if it is modern and has a destination. |
| BootKernel.BootedCells | lilo-21.4.4-master/lilo.h:182-194 | Where the sectors of a booted image are: the options at 0xD600, the boot sector at 0x90000, setup sector k at 0x90200 + 512k, as many as byte 497 says (or 4), the kernel proper from 0x10000 or its destination, the parameter line at 0x9B000. |
| HeaderPatches.FieldsReadBack | lilo-21.4.4-master/second.S:1214-1240 | The fields written into boot sector and setup header hold the command line offset, the video mode, the heap and the RAM disk. |
| HeaderPatches.PatchedFields | lilo-21.4.4-master/second.S:1337-1363 | Nothing else is changed, in particular not the setup sector count. |
| HeaderPatches.SetupHeaderBytes | lilo-21.4.4-master/second.S:1337-1361 | Byte by byte: an old kernel is left alone; in a modern one byte 16 becomes 1; byte 17 keeps its low seven bits and gains bit 7 exactly above version 2.0; bytes 36 and 37 change only then; bytes 24 to 31 only with a RAM disk; nothing else changes. |
| HeaderPatches.BootSectorBytes | lilo-21.4.4-master/second.S:1214-1240 | Byte by byte: the magic number and the offset of the command line, the video mode only if there is one, and nothing else. |
| FirstStage.StagesAgree | lilo-21.4.4-master/first.S:203-275 | The stateless decoder of the first stage and the stateful one of the second read the same sector from every uncompacted address. |
| FirstStage.MapWrite | lilo-21.4.4-master/map.c:289-304 | A list is stored with its end mark; a terminated list must be shorter than the limit. |
| FirstStage.LoadSecondary | lilo-21.4.4-master/first.S:187-275 | Sectors are read up to the first null address, each 512 bytes behind the one before; the loader starts over exactly if one cannot be read, with those before it read. |
| FirstStage.FirstStageReadsFile | lilo-21.4.4-master/map.c:146-165 | The stored list is read to its end if and only if the second-stage file has no hole: at that time the stand-in for holes is still the null address. |
| FirstStage.InstallAndLoadSecondary | lilo-21.4.4-master/bsect.c:112-124 | Installed and booted, the second stage fits if and only if it has fewer than 10 sectors; what is read in full is the stage on disk if and only if it has no hole, and without holes it is read in full exactly if each sector can be read. |
| ChangeRules.RuleTable.AddRule | lilo-21.4.4-master/partition.c:206-228 | A rule is added exactly if there is room and no earlier rule is equal or puts what it wants at the same place; the first clash decides the message. |
| ChangeRules.RuleTable.ChangePartition | lilo-21.4.4-master/partition.c:260-317 | The rules for one partition are added in order, all within the partition table; it gives up exactly if activation and deactivation are both wanted or the rules cannot all be vetted. Whatever the disks hold and whatever rules there were, the rules then also turn byte 0x1be + 16(p-1) of that drive from 0x00 to 0x80 or from 0x80 to 0x00, and the type byte four behind it from the one type to the other; every other byte of every drive is as without them. |
| ChangeRules.ChainLoader.ApplyRules | lilo-21.4.4-master/chain.S:69-127 | Through the one-sector write-back cache, whose dirty mark is never cleared, the disks end up as if every rule up to the first for drive 0 had been applied straight to its disk. It fails only if a drive cannot be read or written, and even then leaves the disks as some of the first rules do. |
| ChangeRules.ChainLoader.Load | lilo-21.4.4-master/chain.S:74-96 | Changing the cached drive loses nothing: the disks as seen through the cache stay the same. |
| ChangeRules.ChainLoader.Flush | lilo-21.4.4-master/chain.S:108-117 | After a flush the disks are what the cache showed. |
| ChangeRules.ChainLoader.ApplyRule | lilo-21.4.4-master/chain.S:97-106 | A rule rewrites one byte of its drive's sector, if that byte is the expected one. |
| ChangeRules.FirstRuleWins | lilo-21.4.4-master/partition.c:206-228 | For any accepted rule list and any tables, each table byte changes at most once, to what the first rule that expected its original value sets. |
| ChangeRules.UnvettedRulesCascade | lilo-21.4.4-master/partition.c:220-225 | Without that vetting a second rule would change the byte again. |
| ChangeRules.RestUntouched | lilo-21.4.4-master/chain.S:98-105 | Bytes outside the partition table never change. |
| ChangeRules.AllRulesCount | lilo-21.4.4-master/chain.S:70-73 | All accepted rules take effect on all disks if and only if each rule from the first for BIOS drive 0 on sets what it expects or comes after a rule that expects the same. |
| PasswordPrompt.CheckPassword | lilo-21.4.4-master/second.S:833-887 | The pointer and the error counter give the verdict of a plain line editor: the counter is the typed length minus the longest common prefix with the password. A time-out rejects. |
| PasswordPrompt.AcceptedIffEqual | lilo-21.4.4-master/second.S:833-887 | For every key sequence CR is accepted if and only if the edited line is the password and the line never had 256 wrong characters. |
| PasswordPrompt.KeysOfEditor | lilo-21.4.4-master/second.S:841-858 | What the keys do: printable characters are appended, 8 and 127 take back the last one, 21 and 24 all of them, and no other key changes the line. |
| PasswordPrompt.PasswordAccepted | lilo-21.4.4-master/second.S:833-887 | Typing the password and nothing else is accepted. |
| PasswordPrompt.OneCharLess | lilo-21.4.4-master/second.S:873-882 | Backspace shortens the matched prefix only if nothing wrong has been typed. |
| PasswordPrompt.OneMoreChar | lilo-21.4.4-master/second.S:856-866 | A character extends the matched prefix only if nothing wrong is outstanding and it is the next one. |
| DecimalPrinter.Dprint | lilo-21.4.4-master/disk.S:595-635 | For every 64-bit number the text is a comma-grouped decimal without leading zeros that spells that number. |
| DecimalPrinter.IntDiv | lilo-21.4.4-master/disk.S:675-704 | Word-wise division satisfies dividend = quotient * divisor + remainder, also in place; the zero flag says that the quotient is zero. |
| DecimalPrinter.Dec3 | lilo-21.4.4-master/disk.S:709-731 | Prints a number below 1000 with exactly three digits, or without leading zeros. |
| DecimalPrinter.PushGroups | lilo-21.4.4-master/disk.S:610-619 | The remainders pushed, read back in base 1000, are the number, the first one not zero; eight groups suffice. |
| ConfigLayout.ConfigRoundTrip | lilo-21.4.4-master/cfg.c:257-356 | A configuration file written in any layout - names and values each with or without quotes, any white space and comments before names and around =, the last line perhaps a comment without an end - gives back its entries in order if and only if every name and value can be quoted and is not =. |
| ConfigLayout.WordAhead | lilo-21.4.4-master/cfg.c:257-326 | Past any white space and comments a word written either way is read back, and what follows is still to come. |
| ConfigLayout.NameIsMissing | lilo-21.4.4-master/cfg.c:347 | A = without a name is refused. |
| ConfigLayout.ValueIsMissing | lilo-21.4.4-master/cfg.c:353 | A = at the end of the file is refused. |
| ConfigLayout.SignIsRepeated | lilo-21.4.4-master/cfg.c:354 | A second = is refused. |
| BareTokens.OrdinaryWord | lilo-21.4.4-master/cfg.c:304-325 | A word of fewer than 200 characters, none of them blank, tab, newline, #, =, quote, backslash, dollar or NUL, that is followed by one of the first five or by the end of the file is a token as it stands, and the terminator is still to be read; a longer word is refused. |
| BareTokens.BareRoundTrip | lilo-21.4.4-master/cfg.c:304-325 | Any text written without quotes, with special characters behind backslashes, is read back without its newlines and with blanks for tabs, up to a NUL, or refused if that has 200 characters or more; its terminator is still to be read. |
| BareTokens.BarePart | lilo-21.4.4-master/cfg.c:304-325 | The same anywhere within a token. |
| BareTokens.GapSkipped | lilo-21.4.4-master/cfg.c:268-276 | White space and comments, whatever they hold, make no difference. |
| BareTokens.LastRemark | lilo-21.4.4-master/cfg.c:273-274 | A comment that ends with the file ends it. |
| BareTokens.LinesAreJoined | lilo-21.4.4-master/cfg.c:288-298 | In a quoted string a backslash at the end of a line, and the blanks and tabs the next line begins with, read as one blank. |
| BareTokens.VariableIsRead | lilo-21.4.4-master/cfg.c:223-246 | A reference $NAME or ${NAME} reads as the value from the environment followed by what comes behind it; it is refused exactly if the variable is not set, the name has more than 200 characters, or, without braces, a control character or the end of the file follows. |
| BareTokens.TokenWithVariable | lilo-21.4.4-master/cfg.c:201-325 | Within a token, quoted or not, the value takes the place of the reference, if it holds no character that has a meaning there; an unknown variable fails the token. |
| BareTokens.BadBackslash | lilo-21.4.4-master/cfg.c:288-290 | In a quoted string a backslash before anything but a quote, a backslash, a newline or a dollar sign is refused. |
| BareTokens.BadEnd | lilo-21.4.4-master/cfg.c:281-309 | The end of the file is refused in a quoted string and behind a backslash. |
| ConfigReader.ItemsArePlain | lilo-21.4.4-master/cfg.c:335-356 | cfg_next returns nothing but such names and values, whatever the file holds. |
| ConfigReader.Reader.ReadItem | lilo-21.4.4-master/cfg.c:335-356 | The reader with its pushed-back token and item returns the item the specification pairs up, and is left where that ends. |
| ConfigReader.Reader.ReadToken | lilo-21.4.4-master/cfg.c:257-326 | The token loops return the token, the end or the failure specified, and leave the reader behind it; the lemmas of BareTokens and ConfigTokens say which tokens these are. |
| ConfigReader.Reader.ReadQuoted | lilo-21.4.4-master/cfg.c:278-303 | The loop over a quoted string, with continuation lines. |
| ConfigReader.Reader.ReadBare | lilo-21.4.4-master/cfg.c:304-325 | The loop over an unquoted token; its terminator is pushed back. |
| ConfigReader.Reader.ReadChar | lilo-21.4.4-master/cfg.c:201-247 | Pushed-back characters, variable values, "\$" and variable references, in this order. |
| ConfigReader.Reader.VariableName | lilo-21.4.4-master/cfg.c:224-243 | The loop that collects a variable name, with or without braces. |
| ConfigReader.Reader.StartToken | lilo-21.4.4-master/cfg.c:268-276 | White space and comments are skipped. |
| ConfigReader.Reader.ReturnItem | lilo-21.4.4-master/cfg.c:359-363 | The next call of cfg_next returns just this item, whatever else is pushed back, and leaves the reader as it was before. |
| ConfigTokens.TokenRoundTrip | lilo-21.4.4-master/cfg.c:278-303 | A string in double quotes with quote, backslash and dollar escaped is read back as itself, ending at the closing quote, if and only if it is shorter than MAX_TOKEN and holds no newline, tab or NUL; with a NUL it is cut there, otherwise reading fails. |
| ConfigTokens.QuotedRoundTrip | lilo-21.4.4-master/cfg.c:201-303 | The same from the middle of a string: what next and cfg_get_token each undo of the backslashes adds up. |
| ConfigTokens.TokensAreQuotable | lilo-21.4.4-master/cfg.c:257-326 | No token, quoted or not, contains a newline, tab or NUL or reaches MAX_TOKEN. |
| ImageTable.ImageTable.GetImage | lilo-21.4.4-master/bsect.c:226-270 | A label is refused exactly if it is too long, equals an earlier one up to case, clashes with a single-key label, or the table is full; otherwise it goes to the next slot, the default to slot 0. Distinctness, single-key exclusiveness and the place of the default are kept. |
| ImageTable.ImageTable.Search | lilo-21.4.4-master/bsect.c:236-254 | The search loop finds the first slot in the way, including the empty one behind the last image. |
| ImageTable.SameUpToCase | lilo-21.4.4-master/second.S:1651-1656 | Two labels count as the same exactly if they agree letter by letter, a to z in either case. |
| ImageTable.ImageTable.TableIsSound | lilo-21.4.4-master/bsect.c:226-270 | Whatever has been defined, labels are pairwise distinct up to case and single keys are unshared. |
| ImageTable.FindImage | lilo-21.4.4-master/second.S:739-768 | The look-up returns the first label that matches the typed line. |
| ImageTable.Compare | lilo-21.4.4-master/second.S:742-764 | The character loop decides whether the label is followed by a blank or the end of the line. |
| ImageTable.FindKey | lilo-21.4.4-master/second.S:636-650 | The scan for the first typed character returns the first single-key image it starts. |
| ImageTable.OnlyMatch | lilo-21.4.4-master/second.S:739-768 | With labels free of blanks, a typed line matches a label if and only if its first word is that label up to case, and no other label matches. |
| ImageTable.AmbiguousLabels | lilo-21.4.4-master/second.S:742-764 | Two labels can match the same line if and only if they are equal up to case or one continues the other after a blank. |
| ImageTable.SingleKeyIsUnambiguous | lilo-21.4.4-master/second.S:636-650 | A single key starts one image, no other label begins with it, and typing it as a command means the same image. |
| Checksum.Store | lilo-21.4.4-master/map.c:93-95 | The word stored makes the table sound and changes nothing else. |
| Checksum.Verify | lilo-21.4.4-master/second.S:293-301 | The XOR over all 512 words is zero if and only if the stored word is the checksum of the others. |
| Checksum.SingleChangeIsFound | lilo-21.4.4-master/lilo.c:213-216 | In a sound table no single word can change without being noticed. |
| Checksum.DoubleChange | lilo-21.4.4-master/lilo.c:213-216 | Two changes go unnoticed if and only if they flip the same bits. |

## Left out

- EndToEnd.InstallAndBoot: covers one kernel in a fresh map file; further images, initial RAM disks and the message
  file are mapped and loaded by the same routines. In LBA32 mode it takes the limit of 1024 low-loaded sectors as an
  assumption, because the installer's own check does not ensure it.
- EndToEnd.InstallAndBoot: takes for granted that sector numbers fit a C int, that the map file's own sectors are readable,
  that files do not share sectors, and, for files addressed by CHS, that installer and BIOS agree on the geometry.
- EndToEnd.InstallAndBoot: a kernel is taken to fit where it goes, unless the installer has checked that.
- BootKernel.BootImage: the parameter line is any 1024 bytes; how it is made of the command line and the options is not
  modelled. Writing the default command line back changes only hinib here. The stack is an area to be spared, its
  contents are not modelled.
- SecondStage.SecondStage.Rdhigh: the move by int 0x15 succeeds; a failure, which makes the loader start over, is not
  modelled.
- SecondStage.SecondStage.ReadPage: the page buffer is kept apart from the memory cells, and a page is taken to be readable.
- DiskRead.LbaRead: BIOS reads of existing sectors succeed; the retry loops (five tries in read.S, a second one in
  second.S) and controller resets are not modelled.
- Memory.TiledDelivery: memory is a map of 512-byte cells; partial overlaps of sectors do not occur and cannot be expressed.
- MapFile.MapFile.EndSection: file I/O is an append to a sequence of sectors, and its errors are not modelled. The entries
  are not freed.
- Geometry.GeoCompAddr: FIBMAP is an arbitrary function from block to block with 0 for a hole, and a file
  offset is a natural number, where C has an int. Device probing, disk tables and geo_open are left out; their results
  are the fields of the geometry. That a BIOS device code has its flag bits clear is an assumption: a code such as
  0xA0 from a disk section is accepted by the original and would read as an LBA32 address.
- ChangeRules.RuleTable.AddRule: rules are records rather than packed words, as with a 32-bit long, so that comparing
  the set byte by a shift is exact.
- ChangeRules.ChainLoader.ApplyRules: whether a partition sector can be read or written depends on the drive alone.
- FirstStage.LoadSecondary: one attempt; starting over after a failed read is not repeated.
- RangeForms.Lba32Figures: ranges that cross a multiple of 2^24 sectors are in RangeForms.Lba32RangeLoads only.
- ConfigReader.Reader.ReadToken: line counting, messages and memory management are left out, cfg_error is an outcome, and
  environment values are unsigned bytes.
- ConfigLayout.ConfigRoundTrip: the layouts have no variables and no continuation lines; what those read as is in
  BareTokens.TokenWithVariable and BareTokens.LinesAreJoined.
- BareTokens.TokenWithVariable: of a value with white space, quotes or backslashes, which the token reader goes on to
  interpret, there is only BareTokens.VariableIsRead.
- ImageTable.ImageTable.GetImage: of a descriptor only the label and the single-key flag are kept.
- ImageTable.FindImage: command line options (vga=, mem=, lock, kbd=) are removed before and are not modelled.
- Checksum.Store: the 1024 bytes are 512 words; writing them to the map file is not modelled.
- do_map_drive, the int 0x13 drive mapper of chain.S, cfg_set and cfg_parse: short searches of small tables, of little consequence for the rest.
- part_verify and geo_find: repair and look-up by heuristics without a clean total specification.
- Disk array and temporary-device handling, message display, keyboard translation, serial port and video code.
- The OS and Apps directories of the repository, which are sketches that do not compile.
