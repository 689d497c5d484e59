# kboot86: a verified model

kboot86 loads an ELF kernel for x86: it sets up paging, reads a FAT16 partition through an
ATA driver, copies the image into place, and offers a small shell at a text console. This
project models its stateful cores in Dafny and proves what they keep, step by step and over
whole runs.

`dafny verify dfyconfig.toml` checks the whole project.

| file | models |
|---|---|
| Words, Arith, Strings, Numerals | fixed-width words, quotients, C strings, digits and their value |
| Mmu, Hardware | entry formats, the two-level walk, a machine whose TLB may change between any two stores |
| PagingModel, Paging | `mm/paging.c`, `mm/page_dir.c`, `mm/page_tables.c`: on values, and statement by statement |
| Elf32 | `lib/elf32.c` |
| TimerModel, Timers | `lib/timer_list.c`, `lib/timer.c`: on values, and on linked nodes with interrupts |
| Disk | `drivers/ata.c`, `drivers/hdd.c`, `utils/mk.inc_hdd.c` |
| Fat16Model, ShortName, Fat16 | `drivers/fat16.c`: the plain layout against the loader's numbering, file names, and the loader itself |
| Frame | `kernel/lib/frame.c` |
| Printer, Format | `lib/kstdio.c` |
| Tokens, Lexer, Scanner, Parser | `sh/token.c`, `sh/lexer.c` on values and as it runs, `sh/parser.c` |
| Console | `drivers/vga.c`, `drivers/console.c` |

Code that changes state is a class or a method with a loop, proved against functions on
values; the properties are lemmas about these functions and invariants of the methods.

## How things are modelled

- **Paging.** Loader code reaches the tables at their link addresses, so with paging on every
  store to them needs the table's own page to translate to itself. `Fill` lets the hardware
  drop cached translations and cache valid ones after every store. The stores that fill in an
  entry are separate steps, `bzero` as four single bytes. `KeepsTables` is what a caller must
  see to, and `TablesStayIffKept` shows it to be exact. The five tables and the directory are
  placed by the linker: distinct frames, not frame 0, in available memory.
- **Segments.** The loader writes read-only pages too, since it runs in supervisor mode and
  leaves write protection (CR0.WP) off. The laid-out image (`LaidOut`) has file sizes at most
  memory sizes, and segments that cover neither each other, the tables, nor the bytes in the image
  that segments are copied from. The program headers are values here; `ImageBytesKept` says when
  the headers in memory stay as they are.
- **Timers.** `Interrupts` stands before and after statements and may run the clock handler
  any number of times while the interrupt flag is set. Statements that touch only an unlisted
  timer's own fields are not separated: the handler looks at listed timers only.
- **FAT.** The shared sector buffer is one array, overwritten by directory, table and data reads.
  The plain layout is that of volumes with 512-byte sectors; the loader reads the sector size from
  the boot sector and never uses it.
- **Strings.** A C string is a sequence without NUL; reading behind its end is refused.
  `Overruns` is the outcome of a scan that would run past the line.
- **Arguments of a format.** The k-th argument is a word and the string at that address.
- **Characters and numbers.** What formats, tokens, keys, file names, boot sectors and headers mean is
  also stated in characters, codes and byte positions (`NumberDirective`, `WordIsLexed`, `TypedIs`,
  `FilenameIff`, `VolumeIs`, `AcceptedIff`, `HeaderLimits`), apart from the definitions that model and
  program share.
- **Frames.** The bits of a bitmap word are its binary digits.
- **Console.** Keys arrive between the characters that the program writes, while the keyboard
  interrupt is enabled. The one restriction on them is the exact one for staying on the screen
  (`Fits`, `ErasingStaysIff`): no erase or kill goes further back than the home position. A session
  is careful if the keys that arrive while the line is displayed again are `Harmless`, the exact
  condition for keeping room (`KeyKeepsRoomIff`). In a careful session every key fits whenever no
  display is outstanding (`EveryKeyFits`).

## Where the code does less than it says

- The alignment test masks ten bits (`include/mm_common.h:18-21`): it accepts multiples of
  1 KiB. Pages are therefore named by `addr / 4096`, segments that the loader accepts may end
  up off their addresses (`MisaimedIsAccepted`, exact condition in `PlacedIffAims`), and
  `frame_dealloc` accepts addresses inside a frame.
- The range check of `paging_map` wraps for physical addresses from 0xfffff000 on
  (`MapStaysAvailableIff`).
- `page_tables_get_paddr` answers 1 for a slot without a table, where its caller tests for 0;
  the alignment test catches it.
- A tick ends with the first timer that expires, so timers behind it run late (`Lateness`,
  `LatenessBound`, `SecondIsBlocked`). Starting or resuming a listed timer makes the list cyclic
  (`Link`, `Relink`).
- The FAT loader adds the literal 8 where it means the size of the root directory, and the first
  cluster's number can wrap (`LoadsRightIff`, `FourClustersMisread`, `WrapMisread`); five of the eight end-of-chain marks wrap around
  (`EndMarks`).
- File names are compared without the last characters of basename and extension
  (`NamedIsExactIff`, `LastCharacterIgnored`).
- Sectors from cylinder 1024 on are refused, and the last of 256 sectors per track is requested as
  sector 0 (`ReadLbaExact`, `UnreadableSectors`).
- A `*` in a format is not skipped (`StarIsNotSkipped`, `PrecisionStarIsNotSkipped`).
- An unterminated string, or an unknown word without a space behind it, is scanned past the
  end of the line (`OverrunsIff`, `OpenLines`).
- The octal setter wraps for eleven digits of which the first is above 3 (`OctalFitsIff`,
  `ElevenOctalDigitsWrap`); behind the scanner it cannot (`CapFits`).
- Erase after the screen was cleared moves the cursor off the screen (`EraseAfterClearLeaves`). A
  key during the redisplay leaves too little room for later erases exactly when it is not harmless
  (`KeyKeepsRoomIff`, `DisplayAfterKeyIsAmpleIff`, `ClearDuringRedisplayLosesRoom`,
  `EraseDuringRedisplay`).

## Model

| member | source | states |
|---|---|---|
| `Mmu.EncodeFields` | mm/page_tables.c:8-23 | the word the hardware finds in memory for an entry has exactly the entry's present bit, write bit and frame, whatever the other fields hold |
| `Mmu.WalkIs` | mm/paging.c:127-148 | the hardware's walk in bits of the address: directory entry, then table entry; both must be present, and both writable for a writable page |
| `PagingModel.WalkBelowWindow` | mm/page_tables.c:36-50 | under the table invariant the two-level walk of a page below the window hits exactly the live entry of its slot, with that entry's frame and write bit |
| `PagingModel.WalkInWindow` | mm/page_dir.c:86-93 | through the self-mapped slot the walk of a window page ends at the directory entry of the page's low ten bits |
| `PagingModel.SlotInjective` | mm/page_tables.c:36-50 | two pages of implemented tables never share a table entry |
| `PagingModel.AcceptedIff` | mm/paging.c:87-103 | in addresses: map takes exactly multiples of 1 KiB, to a frame below 15 MiB or in the wrapped last page, for a page in the first 16 MiB or in the 4 MiB from 3 GiB on |
| `PagingModel.UnmapFailsIff` | mm/paging.c:63-85 | unmap refuses exactly addresses that are no multiple of 1 KiB, and the window |
| `PagingModel.EntryWords` | mm/page_tables.c:101-107 | the 32-bit words put into directory and tables: present, supervisor, not cached, writable as asked for |
| `PagingModel.TablePlaces` | mm/page_tables.c:36-85 | slots 0 to 3 have the first four tables, slot 768 the fifth, every other slot none |
| `PagingModel.MapKeepsInv` | mm/paging.c:87-123 | map never leaves a directory slot absent over a live entry and never loses the self map |
| `PagingModel.UnmapKeepsInv` | mm/paging.c:63-85 | nor does unmap |
| `PagingModel.MapChangesOnePage` | mm/paging.c:87-123 | an accepted map gives the addressed page its frame and write bit; every other page, also those of a table it has just installed, translates as before; a refused one changes nothing |
| `PagingModel.UnmapChangesOnePage` | mm/paging.c:63-85 | unmap takes away the addressed page's translation and no other |
| `PagingModel.ApplyRefines` | mm/paging.c:63-123 | one call refines one step of a partial map from pages to frames |
| `PagingModel.RunRefines` | mm/paging.c:63-123 | every run of map and unmap refines the run of the partial map |
| `PagingModel.WindowLoad` | mm/paging.c:127-148 | a load through the window reads the addressed word of the table its slot points at, and faults exactly when the slot is absent |
| `PagingModel.WindowShowsWalk` | mm/paging.c:127-148 | neither load of the software translation faults, and the last word read is the one the hardware walk ends at |
| `PagingModel.SoftwareEqualsHardware` | mm/paging.c:127-148 | for every 32-bit address, in the window too, the software translation is the hardware's, and 0 when there is none |
| `Hardware.Machine.LoadIsWalk` | mm/paging.c:127-148 | a load by any cached translation reads the word the walk leads to, when the TLB is coherent |
| `Paging.SoftwareTranslate` | mm/paging.c:127-148 | statement by statement, whatever cached translations its loads use: none faults, and the answer is the hardware's, 0 when there is none |
| `PagingModel.InstallKeepsHits` | mm/page_dir.c:49-66 | the stores that give an absent slot its page table take no translation away, one store at a time |
| `PagingModel.TableStoreChangesOnePage` | mm/page_tables.c:87-110 | a single store to a live table's entry changes the walk of its page only |
| `Hardware.InstallKeepsSettled` | mm/page_dir.c:57-63 | with the TLB free to cache and drop translations after each store, every cached translation stays current while a slot is filled in |
| `Hardware.TableStoreKeepsUpdating` | mm/page_tables.c:101-107 | while an entry is filled in field by field at most its own page's cached translation is stale, and not even that one for the pages of the tables |
| `Hardware.Machine.StoreTable` | mm/page_tables.c:101-107 | a store to a table needs the table's own page to translate to itself in the walk and in the TLB; it changes that entry alone |
| `Hardware.AnyMayBecome` | mm/paging.c:50-61 | between two stores any cached translations may go and any valid ones may come |
| `Hardware.Machine.ReloadCr3` | mm/paging.c:50-61 | whatever was cached, after the reload only current translations are |
| `PageDir.EntryIsPresent` | mm/page_dir.c:68-74 | the present bit of the slot, false for a number that is no slot |
| `PageDir.SetEntry` | mm/page_dir.c:49-66 | a number that is no slot and an unaligned address are refused without change; with paging on the slot stays absent until the last of the seven field stores, and the machine is settled after every one of them |
| `PageTables.SetEntry` | mm/page_tables.c:87-110 | both refusals leave tables and TLB alone; otherwise exactly the page's entry becomes the new one, through states in which only that page's translation may be stale |
| `PageTables.FieldStores` | mm/page_tables.c:101-107 | what the entry is after each field assignment: an entry that was present never stops being so, and every state has the new frame |
| `PageTables.ClearEntry` | mm/page_tables.c:114-127 | an unimplemented table is refused without change; otherwise the entry ends up zero, byte by byte |
| `Paging.TablesStayIffKept` | mm/paging.c:63-123 | the loader can still reach its tables after a call if and only if the call does not move or unmap one of their pages |
| `Paging.Map` | mm/paging.c:87-123 | statement by statement, with the TLB changing in between: success exactly when accepted, the new tables are those of the value model, a failure changes nothing, and on return every cached translation agrees with the tables |
| `Paging.InstallTable` | mm/paging.c:105-115 | an absent slot gets its own table; an unimplemented one is refused, by the alignment test on the address 1 |
| `Paging.PageTablesGetPaddr` | mm/page_tables.c:73-85 | never 0; a multiple of 1 KiB exactly for a slot with a table, and then the place in memory of the entries of exactly that slot's pages, which no other slot's table shares |
| `Paging.Unmap` | mm/paging.c:63-85 | an absent slot succeeds without change, a present slot without a table fails; on return every cached translation agrees with the tables |
| `Paging.ClearAll` | mm/page_dir.c:95-104 | the directory and all five tables are zero |
| `Paging.ClearIsEmpty` | mm/page_tables.c:57-71 | zeroed tables satisfy the invariant and stand for the empty map |
| `Paging.AutomapRefines` | mm/page_dir.c:86-93 | the self map adds the window and changes no page below it |
| `Paging.SetupIdentity` | mm/paging.c:23-33 | exactly the 3840 pages of available memory are mapped to themselves, and no request is refused |
| `Paging.IdentityIs` | mm/paging.c:23-33 | addresses below 15 MiB are mapped to themselves, writable, and no others |
| `Paging.Init` | mm/paging.c:35-48 | from any state initialisation succeeds, with the identity map and the self map in place |
| `Paging.Enable` | mm/_paging.S:3-7 | paging may be switched on once the tables' own pages are mapped to themselves |
| `Paging.Drive` | mm/paging.c:63-148 | after any run of calls that leave the tables' pages alone: the tables stand for the partial map's run, the software translation is the hardware's at every address, the TLB is coherent |
| `Paging.BootAndDrive` | main.c:51-57 | the same from power-on, with page 0 unmapped |
| `Paging.MapStaysAvailableIff` | mm/paging.c:95-97 | map keeps every frame inside available memory if and only if it does not accept an address of the last page of the address space, where the 32-bit range check wraps |
| `Paging.RangeCheck` | mm/paging.c:95-97 | among the addresses the check lets through, the ones out of available memory are exactly those from 0xfffff000 on |
| `Paging.WrapIsAccepted` | mm/paging.c:95-97 | an input for which the check wraps |
| `Elf32.TransIsTranslate` | mm/paging.c:127-148 | translation by the partial map is the hardware translation of the tables that stand for it |
| `Elf32.EnterPage` | lib/elf32.c:294-299 | the request made when the destination pointer enters a page re-establishes the lockstep of virtual and physical address one byte on |
| `Elf32.RequestedPages` | lib/elf32.c:293-314 | whatever a segment's addresses, requests made in the loops' order, if accepted, map exactly the pages it enters, each to the frame of the physical address in step |
| `Elf32.ByteTranslates` | lib/elf32.c:273-317 | once the page of byte j has been entered, byte j translates to the segment's physical address plus j |
| `Elf32.PlacedIffAims` | lib/elf32.c:239-317 | after the requests for a segment, whatever its addresses, all bytes are where the header says if and only if both addresses are page aligned or the first page already led there |
| `Elf32.MisaimedIsAccepted` | lib/elf32.c:239-270 | a segment that the checks accept and whose bytes cannot be where its header says |
| `Elf32.SupportedIff` | lib/elf32.c:144-198 | exactly 32-bit little-endian executables for the 80386 with header entries of 32 and 40 bytes |
| `Elf32.SegmentFlags` | lib/elf32.c:104-120 | type 1 is loaded, flag bit 1 is write permission |
| `Elf32.HeaderLimits` | lib/elf32.c:223-270 | both addresses are multiples of 1 KiB, the segment ends below 15 MiB and below 0xffc00000 |
| `Elf32.HeaderCheckIff` | lib/elf32.c:223-270 | the header check refuses nothing that map takes page by page, but for a segment that ends exactly at 15 MiB |
| `Elf32.MapOnEntry` | lib/elf32.c:294-299 | a page is mapped exactly when the pointer is at its start; a refusal means the segment has an unacceptable page |
| `Elf32.GetByte` | lib/elf32.c:301-302 | the byte read is the image's, although pages have been mapped and bytes written since |
| `Elf32.PutByte` | lib/elf32.c:301-313 | the byte written lands at the physical address in step with the destination pointer, and nowhere else |
| `Elf32.CopyLoop` | lib/elf32.c:293-303 | the first loop puts the file's bytes in place, or fails on an unacceptable page |
| `Elf32.ZeroLoop` | lib/elf32.c:305-314 | the second loop puts zeros behind them up to the memory size |
| `Elf32.MapProgseg` | lib/elf32.c:273-317 | a segment is accepted exactly when its header passes and map takes every page it enters; then all bytes read back, the pages entered have its write permission, and no other page and no other byte has changed |
| `Elf32.LoadedTranslates` | lib/elf32.c:273-317 | in the hardware walk byte k of a loaded segment is at its physical address plus k, and holds the file's byte or zero |
| `Elf32.LoadedIsPermitted` | lib/elf32.c:294-299 | in the hardware walk the pages entered may be written exactly if the segment's flags say so |
| `Elf32.LoadedFromMemory` | lib/elf32.c:273-317 | when memory was mapped to itself, the bytes at the segment's physical address are those at the image's, then zeros |
| `Elf32.ProgsegsGetMemsz` | lib/elf32.c:206-221 | the sum of the loadable segments' memory sizes, in 32 bits |
| `Elf32.SourceKept` | lib/elf32.c:321-355 | what a segment is copied from is still what the image held before the first segment was loaded |
| `Elf32.ImageBytesKept` | lib/elf32.c:346-352 | image bytes that no segment covers, such as the program headers that are read again for every segment, read as they did at the start |
| `Elf32.StaysLoaded` | lib/elf32.c:321-355 | a loaded segment stays loaded while disjoint ones are loaded |
| `Elf32.NextSegment` | lib/elf32.c:321-355 | the invariant of the loop over program headers: the segments so far read back, the rest of memory and of the map is as before |
| `Elf32.MapAll` | lib/elf32.c:321-355 | all loadable segments are in place, or one of them was unacceptable |
| `Elf32.Map` | lib/elf32.c:321-355 | the entry point is returned exactly for a supported image of at most 1 MiB with acceptable segments; every segment then reads back as its file bytes followed by zeros, and nothing outside the segments has changed |
| `Elf32.OneSegmentIff` | lib/elf32.c:321-355 | an image with one segment from 1 MiB on at 3 GiB is accepted if and only if it is supported and takes up 1 MiB at most |
| `Elf32.OneSegmentIsLaidOut` | lib/elf32.c:321-355 | such an image, above 2 MiB with the tables out of the way, meets what Map asks of its callers |
| `TimerModel.ReplayKeepsWf` | lib/timer_list.c:19-81 | in every legal run of starts, stops, resumes, restarts and ticks the list has no duplicates and every listed counter is positive |
| `TimerModel.ApplyKeepsWf` | lib/timer_list.c:19-81 | one event keeps that |
| `Timers.TimerList.Link` | lib/timer_list.c:31-34 | the link assignments make a list if and only if the timer was not listed; for a listed one they close a cycle |
| `Timers.TimerList.Relink` | lib/timer.c:15-22 | the same for the assignments of timer_start, which clears the timer's links first |
| `Timers.NoChainAround` | lib/timer_list.c:31-34 | links that lead from a timer through a list back to it belong to no finite, acyclic list |
| `TimerModel.TickOnTimer` | lib/timer_list.c:73-81 | one tick counts a listed timer down and removes it at zero, unless a timer ahead of it expires; then it only moves up |
| `TimerModel.TickReachesAllIff` | lib/timer_list.c:73-81 | a tick reaches every listed timer if and only if none but the last one expires |
| `TimerModel.SecondIsBlocked` | lib/timer_list.c:73-81 | two timers due at the same tick: it does not reach the second |
| `TimerModel.Lateness` | lib/timer_list.c:73-81 | over every run that leaves it alone, a listed timer's counter is what it started with minus the ticks in which nothing ahead of it expired, and it leaves the list when these use the counter up |
| `TimerModel.NeverEarlyAndOnTime` | lib/timer_list.c:73-81 | a timer never triggers before its time, and exactly on time if nothing ahead of it expires |
| `TimerModel.LatenessBound` | lib/timer_list.c:73-81 | the ticks by which it is late are at most the timers ahead of it at the start plus those added since |
| `TimerModel.LatenessSinceArmed` | lib/timer_list.c:73-81 | exact lateness since a start or restart: from the event after which the timer counts from c, over any run that leaves it alone |
| `TimerModel.TicksOnUnlisted` | lib/timer_list.c:73-81 | ticks list nobody and leave unlisted timers' counters alone |
| `TimerModel.ArmedThenAdded` | lib/timer.c:15-22 | a timer armed while unlisted counts from its new value however many ticks pass before it is listed |
| `Timers.Bypassed` | lib/timer_list.c:54-61 | links that go around one node are a doubly linked list without it |
| `Timers.TimerList.Bypass` | lib/timer_list.c:54-61 | the three link assignments take a listed timer out, and change nothing for one that an interrupt has already removed |
| `Timers.TimerList.Unlink` | lib/timer_list.c:53-66 | the list afterwards is the list without the timer, in the same order; counters and the other timers' flags are untouched |
| `Timers.TimerList.Update` | lib/timer_list.c:73-81 | the pass does what the value model's tick does: it ends with the first timer that expires, since its removal clears the link to follow |
| `Timers.TimerList.Interrupts` | lib/timer_list.c:72-81 | any number of ticks, none while interrupts are disabled, appends ticks to the history and keeps the list settled, even in the middle of an operation on an unlisted timer |
| `Timers.TimerList.AddTimer` | lib/timer_list.c:19-42 | ticks, then the timer at the head (not at all if its counter is 0), then ticks; the interrupt flag is as before |
| `Timers.TimerList.RemoveTimer` | lib/timer_list.c:44-70 | whether or not a tick removes it between the test and the disabling of interrupts, the timer ends up unlisted with null links, once removed, and the interrupt flag is as before |
| `Timers.TimerList.DropMasked` | lib/timer_list.c:51-67 | the guarded part on a timer that a tick has just removed leaves the list unchanged |
| `Timers.TimerList.Start` | lib/timer.c:15-22 | an unlisted timer counts from the timeout, listed exactly once unless that is 0, with ticks anywhere in between |
| `Timers.TimerList.Restart` | lib/timer.c:45-71 | however the ticks fall, the last action of its own leaves the timer counting from its initial value, listed exactly once unless that is 0; the interrupt flag is as before |
| `Timers.TimerList.RestartMasked` | lib/timer.c:61-70 | the critical section leaves the timer counting from its initial value, also when a tick removed it since the first test |
| `Timers.TimerList.Resume` | lib/timer.c:39-43 | an unlisted timer counts on from where it stopped |
| `Timers.TimerList.IsTriggered` | lib/timer.c:73-76 | a timer reads as triggered exactly when the history says its counter is 0, and then it is not listed |
| `Timers.TimerList.Drive` | lib/timer.c:15-71 | any sequence of calls, new timers among them, ticks anywhere, where a start or resume that would come to a listed timer is not made: a finite acyclic list, prev inverse to next, in_list exactly membership, listed counters positive, unlisted timers with null links, all as the history says; other timers see ticks only |
| `Timers.TimerList.StartAndDrive` | lib/timer.c:15-71 | a timer is started and any calls then concern other timers: its counter is the timeout minus the ticks in which nothing ahead of it expired, and it is listed exactly as long as these are fewer |
| `Disk.SplitFits` | drivers/ata.c:458-472 | the quotients fit together again to the sector number, in range, and no subtraction wraps |
| `Disk.LbaHasPlace` | drivers/ata.c:458-472 | every sector number below the capacity goes to an in-range place, its own in the drive's order |
| `Disk.PlaceHasLba` | drivers/ata.c:458-472 | every in-range place is reached, by its own number: the other half of the bijection |
| `Disk.ReadLbaExact` | drivers/ata.c:417-483 | for every drive: reading by number reads the image in order, and fails exactly from the capacity on and for places from cylinder 1024, head 16 or sector 256 of a track on |
| `Disk.AddressableReadsAll` | drivers/ata.c:417-483 | with at most 1024 cylinders, 16 heads and 255 sectors per track everything below the capacity is read |
| `Disk.UnreadableSectors` | drivers/ata.c:420-437 | on a drive with more than 1024 cylinders and on one with 256 sectors per track, a sector below the capacity that cannot be read |
| `Disk.ReadPartitionExact` | drivers/hdd.c:22-60 | for every drive and partition: sector r of the partition is sector start + r, modulo the word size, of the drive, and fails exactly outside the partition, outside the capacity or at an unnameable place |
| `Disk.PartitionReadsAll` | drivers/hdd.c:22-60 | a partition within an addressable drive reads as its stretch of the image |
| `IncImage.Generator.WriteSector` | utils/mk.inc_hdd.c:61-72 | one more sector, continuing the count |
| `IncImage.Generator.UpdateSector` | utils/mk.inc_hdd.c:61-65 | the 128 words of sector n, counted on modulo the word size |
| `IncImage.Generator.ExpandImage` | utils/mk.inc_hdd.c:74-82 | for every geometry the image has one sector for each place, and word j of sector n is 128 n + j |
| `IncImage.DriverReadsCounter` | drivers/ata.c:474-483 | on every drive that holds that image, the driver reads word j of sector n as 128 n + j, exactly for the sectors that can be named |
| `Fat16Model.LoaderFollowsChain` | drivers/fat16.c:456-468 | with eight root clusters the loader's clusters are the plain chain's, shifted by eight, along the whole chain |
| `Fat16Model.VolumeIs` | drivers/fat16.c:338-383 | the volume's five numbers are read from bytes 13, 14 and 15, 16, 17 and 18, 22 and 23, low bytes first |
| `Fat16Model.FatEntryIs` | drivers/fat16.c:106-132 | entry n of the table is the two bytes 2 n behind the reserved sectors, and is a cluster of a file exactly from 2 to 0xfff6 |
| `Fat16Model.DataFollowsRoot` | drivers/fat16.c:397-402 | the root directory follows the tables, takes up whole sectors, and the clusters follow it from number 2 on |
| `Fat16Model.RootEntryIs` | drivers/fat16.c:229-256 | entry n of the root directory is the 32 bytes 32 n behind the tables |
| `Fat16Model.PassedOverIff` | drivers/fat16.c:259-282 | the scan goes on behind entries that begin with 0xe5, parts of long names and other names, and returns a match that is none of these |
| `Fat16Model.LongNameIff` | drivers/fat16.c:144-154 | an entry is part of a long name exactly if read-only, hidden, system and label are all set |
| `Fat16Model.PlainByteIs` | drivers/fat16.c:456-476 | byte r of a file's k-th cluster is byte r of that cluster on the volume |
| `Fat16Model.OnwardIs` | drivers/fat16.c:463-467 | a table entry of 0 or 0xffff ends the load, any other is followed eight clusters on, wrapping from 0xfff8 on |
| `Fat16.EntryFieldsAre` | drivers/fat16.c:446-453 | the first cluster is in bytes 26 and 27, the size in bytes 28 to 31, low bytes first; the smaller of size and buffer is wanted |
| `Fat16Model.LoadsRightIff` | drivers/fat16.c:434-479 | the loader reads the sectors of the plain layout for all clusters up to k if and only if the root directory is a whole number of clusters, eight of them unless k is 0, and the first number does not wrap |
| `Fat16Model.FourClustersMisread` | drivers/fat16.c:466 | a volume with a root directory of four whole clusters, on which the second cluster of a file is not read |
| `Fat16Model.WrapMisread` | drivers/fat16.c:449 | a volume with a root directory of 32 whole clusters, on which a file of one cluster is misread because its number wraps |
| `Fat16Model.FirstReadsRightIff` | drivers/fat16.c:449 | the first cluster is right if and only if its number does not wrap and the root directory is a whole number of clusters |
| `Fat16Model.SecondReadsRightIff` | drivers/fat16.c:466 | the second is right if and only if the first number does not wrap and eight clusters are the size of the root directory |
| `Fat16Model.EndMarks` | drivers/fat16.c:463-470 | of the eight end-of-chain marks only 0xffff, 0xfff8 and 0xfff9 end a load; the others wrap around into the root directory |
| `Fat16Model.EntryPlace` | drivers/fat16.c:229-256 | for every cluster size entry n is found at sector n / 16 of the root directory, and not at all behind its last whole cluster |
| `Fat16Model.WholeRootReachesAll` | drivers/fat16.c:236-239 | in a directory of whole clusters every entry is reached |
| `Fat16Model.FindIsFirst` | drivers/fat16.c:259-282 | the scan stops at the first entry that is missing, the end marker or a live match, and returns it only if it is a match |
| `ShortName.NamedIsExactIff` | drivers/fat16.c:180-225 | an entry that passes the comparison has the name asked for if and only if the last bytes of basename and extension agree too, which strncmp leaves out |
| `ShortName.FilenameIff` | drivers/fat16.c:162-225 | in characters: up to eight letters, digits, - or _, and behind a dot up to three, name an entry, which holds them in capitals, padded with blanks |
| `ShortName.LastCharacterIgnored` | lib/string.c:47-66 | two file names of which one is taken for the other |
| `ShortName.Strncmp` | lib/string.c:47-66 | 0 if and only if all characters but the last agree |
| `ShortName.DirEntryIsFilename` | drivers/fat16.c:180-225 | true exactly for a well-formed name whose padded capitals agree with the entry in seven and two characters |
| `Fat16Model.CluAtIsLoaderCluster` | drivers/fat16.c:457-468 | the cluster changes with the sectors exactly at cluster boundaries |
| `Fat16Model.LoaderByteIsPlain` | drivers/fat16.c:456-476 | on the volumes the loader is right for, each byte it delivers is the byte of the plain layout |
| `Fat16Model.SoundIsFound` | drivers/fat16.c:456-476 | on a sound volume the loader finds a sector for every byte wanted |
| `Fat16Model.OneClusterIsSound` | drivers/fat16.c:434-479 | a file of at most one cluster on a volume with a whole-cluster root is sound when the cluster is on the volume |
| `Fat16.Fat16.Init` | drivers/fat16.c:385-408 | on a disk whose partitions can be read, exactly those that exist and are not empty are mounted, with the layout of their first sector |
| `Fat16.Fat16.ReadClusterSec` | drivers/fat16.c:81-96 | it succeeds exactly for a readable sector of a cluster from 2 on, which is then in the shared buffer |
| `Fat16.Fat16.FatGetNextCluNum` | drivers/fat16.c:106-132 | the entry of the file allocation table, read through the shared buffer; 0xffff for a directory cluster or a failed read |
| `Fat16.Fat16.RootdirGetEntryNum` | drivers/fat16.c:230-256 | entry n of the root directory is in the buffer, or it is out of reach or unreadable |
| `Fat16.Fat16.RootdirFindEntry` | drivers/fat16.c:259-282 | the first live entry that passes the comparison is found, and is in the buffer |
| `Fat16.Fat16.UpdateSector` | drivers/fat16.c:457-473 | although the table was read into the same buffer, the buffer holds the next sector of the file afterwards |
| `Fat16.Fat16.CopyFile` | drivers/fat16.c:456-478 | the file's bytes are copied if the loader finds them all, -1 otherwise; nothing behind them is touched |
| `Fat16.Fat16.Load` | drivers/fat16.c:434-479 | min(file size, buffer size), as a signed word, is returned exactly when the loader finds a sector for each byte; on a sound volume that is always, and the buffer holds the plain layout's prefix of the file; nothing behind it is touched |
| `Frame.SetOneBit` | kernel/lib/frame.c:20-24 | setting bit j sets bit j and no other |
| `Frame.ClearOneBit` | kernel/lib/frame.c:26-30 | clearing bit j clears bit j and no other |
| `Frame.OneBit` | kernel/lib/frame.c:23 | 1 << j has bit j and no other |
| `Frame.FullIsAllSet` | kernel/lib/frame.c:51-55 | a word is 0xffffffff exactly when all its bits are set |
| `Frame.AddressRoundTrip` | kernel/lib/frame.c:57-72 | index and address conversion are inverse; an address belongs to frame f exactly when it is in its page, and below 2 MiB to none, by the unsigned wrap |
| `Frame.FramePlaces` | kernel/lib/frame.c:8-18 | the addresses that belong to frames are those from 0x200000 to 0xdfffff, 0x1000 to each frame, in order |
| `Frame.FrameAllocator.GetClearBitNum` | kernel/lib/frame.c:39-49 | the lowest clear bit, or -1 if and only if there is none |
| `Frame.FrameAllocator.Alloc` | kernel/lib/frame.c:74-93 | the lowest free frame, which is used from then on, at 2 MiB if that is free; 0 if and only if all 3072 are in use |
| `Frame.FrameAllocator.Dealloc` | kernel/lib/frame.c:95-118 | accepted exactly for a multiple of 1 KiB in a used frame, which is free from then on |
| `Frame.AcceptedAddresses` | kernel/lib/frame.c:95-118 | the addresses accepted for a frame are its own and three inside it |
| `Frame.FramesConserved` | kernel/lib/frame.c:74-118 | over every run the frames in use are as many as were handed out less those given back |
| `Frame.NeverHandedOutTwice` | kernel/lib/frame.c:74-118 | a frame handed out twice has been given back in between |
| `Numerals.DigitsValue` | lib/kstdio.c:113-117 | the digits printed for n are numerals worth n, in bases 8, 10 and 16 |
| `Numerals.DigitsLength` | lib/kstdio.c:113-117 | a number below base^k has at most k digits |
| `Numerals.DigitCharIs` | lib/kstdio.c:86-90 | the digit d is the d-th character of 0 to 9 and A to Z, or a to z |
| `Numerals.DigitValIff` | sh/token.c:103-137 | the scanner takes as digit d of a base exactly the characters printed for it, in capitals or not |
| `Printer.Convert` | lib/kstdio.c:113-117 | the division loop leaves the digits in reverse, and 36 places are always enough |
| `Printer.Number` | lib/kstdio.c:82-150 | for every base, width, precision and flags: sign, prefix, fill, zeros and digits in their order, appended to the buffer; nothing for an unsupported base |
| `Printer.NumberWidth` | lib/kstdio.c:105-147 | exactly max(width, sign + prefix + max(digits, precision)) characters |
| `Printer.BareText` | lib/kstdio.c:82-150 | without width and precision: sign, prefix and digits |
| `Printer.PreciseText` | lib/kstdio.c:121-141 | a precision puts zeros before the digits |
| `Printer.RightText` | lib/kstdio.c:124-126 | a width puts blanks before the text |
| `Printer.LeftText` | lib/kstdio.c:146-147 | with the flag "left" it puts them behind the text |
| `Printer.ZeroText` | lib/kstdio.c:138-140 | with the flag "zeroPad" alone it puts zeros between prefix and digits |
| `Printer.NumberValue` | lib/kstdio.c:82-150 | between the sign and prefix and the trailing blanks stands a numeral worth the magnitude, the most negative word's too |
| `Printer.SkipAtoi` | lib/kstdio.c:42-49 | the value of the run of digits in 32-bit arithmetic, 0 without one, and where it ends |
| `Printer.PrintedDecimalIsScanned` | lib/kstdio.c:42-150 | a plain non-negative decimal is scanned back to the number it was printed from, whatever follows |
| `Format.ScanDirective` | lib/kstdio.c:172-212 | flags, width, precision and length letter, never read behind the NUL |
| `Format.PutPiece` | lib/kstdio.c:214-284 | the text of one directive: padded character or string, number, or the % itself |
| `Format.Kvsprintf` | lib/kstdio.c:152-288 | on every format the loop ends, reads nothing behind the NUL, writes the text the format stands for and a NUL, returns the text's length, and %n stores the length so far |
| `Format.PlainFormat` | lib/kstdio.c:166-170 | a format without % prints itself |
| `Format.DirectiveReads` | lib/kstdio.c:172-212 | a directive of flags, width, precision and conversion in its characters: each part sets its own field |
| `Format.FlagsAre` | lib/kstdio.c:172-182 | each of the five flag characters sets its own flag |
| `Format.ArgumentsTaken` | lib/kstdio.c:214-284 | ten conversions take the next argument, others none, and %n stores at its address |
| `Format.TakesArgumentIff` | lib/kstdio.c:214-274 | these conversions are d, i, u, o, x, X, p, c, s and n |
| `Format.NumberDirective` | lib/kstdio.c:241-269 | which base, sign and letters each conversion of a number has, with any flags, width and precision |
| `Format.IntegerDirectives` | lib/kstdio.c:241-269 | %d and %i print a signed decimal, %u an unsigned one, %o octal, %x and %X hexadecimal in small letters and capitals |
| `Format.SignDirectives` | lib/kstdio.c:100-106 | "%+d" prints a plus sign and "% d" a blank where "%d" prints no minus sign |
| `Format.PrefixDirectives` | lib/kstdio.c:128-137 | "%#o", "%#x" and "%#X" put 0, 0x and 0X before the digits |
| `Format.WidthDirective` | lib/kstdio.c:124-126 | a width of any number of digits puts blanks before the number |
| `Format.LeftDirective` | lib/kstdio.c:146-147 | behind a - it puts them behind the number |
| `Format.ZeroDirective` | lib/kstdio.c:138-140 | behind a 0 it puts zeros between sign and digits |
| `Format.PrecisionDirective` | lib/kstdio.c:197-209 | a number behind a point is the least number of digits |
| `Format.PointerDirective` | lib/kstdio.c:246-254 | %p prints eight hexadecimal digits in capitals |
| `Format.TextDirectives` | lib/kstdio.c:214-239 | %c prints the character, %s the string, %% a percent sign |
| `Format.StringDirectives` | lib/kstdio.c:224-239 | a width puts blanks before a string, or behind it after a -, and a precision cuts it |
| `Format.LengthDirective` | lib/kstdio.c:210-212 | h, l or L before the conversion changes nothing |
| `Format.CountDirective` | lib/kstdio.c:271-274 | %n prints nothing and stores the number of characters before it |
| `Format.TextAround` | lib/kstdio.c:165-170 | the text before and behind a directive is copied |
| `Format.NumberAround` | main.c:138 | a number between two texts, as in "read: %d bytes" |
| `Format.CutOffDirective` | lib/kstdio.c:276-283 | a format cut off inside a directive prints the % and stops at the NUL |
| `Format.StarIsNotSkipped` | lib/kstdio.c:186-195 | a * for the width takes its argument and is then printed as "%*": a width from an argument is never honoured |
| `Format.PrecisionStarIsNotSkipped` | lib/kstdio.c:199-209 | the same for the precision |
| `Format.HexDirective` | lib/kstdio.c:256-261 | "0x%x" prints 0x and the digits |
| `Tokens.SetLuinteger` | sh/token.c:139-168 | the positional value modulo 2^32, accumulated from the last digit, or an error if and only if a character is no digit of the base |
| `Tokens.SetCapped` | sh/token.c:170-195 | the same below the length cap of the base, an error above it |
| `Tokens.CapFits` | sh/token.c:170-195 | within its cap no decimal, hexadecimal or 0-led octal numeral wraps |
| `Tokens.OctalFitsIff` | sh/token.c:170-177 | an octal numeral that the setter takes fits in 32 bits if and only if it has at most ten digits or its first is at most 3 |
| `Tokens.SetterExactIff` | sh/token.c:170-195 | the setters give the true value of every numeral they take, except for exactly these octal ones |
| `Tokens.ElevenOctalDigitsWrap` | sh/token.c:170-177 | an octal numeral for which the setter gives 0 instead of 2^32 |
| `Tokens.FrontDigit` | sh/token.c:149-158 | a digit more at the front adds the digit times the factor |
| `LexModel.LexIffReads` | sh/lexer.c:232-277 | a token is delivered if and only if the characters passed spell it and a character that ends it follows: both directions, against a grammar that does not scan |
| `LexModel.LexIsReading` | sh/lexer.c:232-277 | the same behind any number of spaces |
| `LexModel.RunsOffIff` | sh/lexer.c:202-230 | the scan leaves the line if and only if it meets a string without its closing delimiter, or an unknown word without a space behind it |
| `LexModel.IntReads` | sh/lexer.c:133-184 | a decimal, octal or hexadecimal lexeme is read as the integer it is worth |
| `LexModel.WordIsLexed` | sh/lexer.c:43-73 | a word of letters, digits and _ ends where another character follows and nowhere before; up to 15 characters it is an identifier, else an error |
| `LexModel.VariableIsLexed` | sh/lexer.c:186-200 | the same for a variable behind one of the three sigils |
| `LexModel.StringIsLexed` | sh/lexer.c:202-217 | a string is what stands between two exclamation marks, up to 15 characters |
| `LexModel.NumberIsLexed` | sh/lexer.c:133-184 | a number goes on over hexadecimal digits; behind 0 it is octal with up to 11 digits, otherwise decimal with up to 9, and an error if longer or with another digit |
| `LexModel.HexIsLexed` | sh/lexer.c:133-184 | behind 0x or 0X it is hexadecimal with up to 8 digits |
| `LexModel.NoHexDigit` | sh/lexer.c:151-156 | 0x without a digit is an error |
| `LexModel.UnknownIsLexed` | sh/lexer.c:219-230 | anything else is unknown up to the next space |
| `LexModel.SpacesArePassedOver` | sh/lexer.c:36-93 | blanks, and no other characters, are passed over |
| `LexModel.CodesAreHex` | sh/lexer.c:49-67 | the codes of the decimal, octal and hexadecimal digits |
| `Scanner.Lexer.Process` | sh/lexer.c:232-277 | unless something is left open, the two pointers end up around the token the model describes; nothing happens after the end of the input |
| `Scanner.Lexer.ProcessInteger` | sh/lexer.c:133-184 | base, digits and error as in the model |
| `Parser.AcceptedIffSpelt` | sh/parser.c:35-88 | exactly the lines that spell fewer tokens than there is room for are accepted, with these tokens and the end of the input |
| `Parser.TooManyIff` | sh/parser.c:81-85 | too many tokens is the verdict if and only if the line starts with as many as there is room for, whatever follows |
| `Parser.OverrunsIff` | sh/parser.c:53-79 | parsing leaves the line if and only if such a thing stands behind fewer tokens than there is room for |
| `Parser.OpenLines` | sh/lexer.c:202-230 | two lines on which it does |
| `Parser.ReadingParses` | sh/parser.c:53-79 | the parser takes in what is spelt, token by token, and goes on behind it |
| `Parser.RenderedParses` | sh/parser.c:35-88 | lexemes written with spaces before, between and behind them parse to exactly their tokens if they are at most three, and are too many otherwise |
| `Parser.PrintedIntegerIsRead` | sh/commands.h:91 | what "0x%x" prints for any 32-bit integer is parsed back to that integer |
| `Parser.WordParses` | sh/lexer.c:110-124 | in characters: a line that is a word of up to 15 letters, digits and _ is accepted as that identifier |
| `Parser.VariableParses` | sh/lexer.c:186-200 | behind a sigil, as that variable |
| `Parser.StringParses` | sh/lexer.c:202-217 | between exclamation marks, as that string |
| `Parser.DecimalParses` | sh/lexer.c:133-184 | one to nine digits, the first not 0, as their value |
| `Parser.AssignmentParses` | sh/parser.c:35-88 | a word, a variable and a number, one space apart, such as "set %v1 5", are accepted as these three |
| `Parser.FirstBadToken` | sh/parser.c:64-72 | behind tokens for which there is room a lexeme in error gives the error verdict, an unknown one the unknown verdict |
| `Parser.RejectedLines` | sh/parser.c:64-72 | lines with these verdicts: a word that is too long, "08", and a question mark |
| `Parser.SyntaxData.Do` | sh/parser.c:35-88 | on every line that leaves nothing open: the vector holds the accepted tokens and is void behind them, or the error code is the model's; "internal" only without a line |
| `Parser.SyntaxData.DataLen` | sh/parser.c:96-103 | the number of tokens before the end of the input, -1 if there is none |
| `Screen.KeyKeepsAmple` | drivers/console.c:199-213 | every key but the one that clears the screen keeps enough positions before the cursor for all pending input to be erased, through wrap, scroll and tab |
| `Screen.KeyKeepsShown` | drivers/console.c:199-232 | characters, erase and kill keep the pending input visible right before the cursor, through the right margin and scrolling |
| `Screen.RedisplayShows` | drivers/console.c:234-242 | displaying the pending input again makes it visible, wherever the cursor is |
| `Screen.BackwardStaysIff` | drivers/console.c:60-68 | a step back goes to the position before, and leaves the screen from the home position only |
| `Screen.ErasingStaysIff` | drivers/console.c:107-112 | erasing n characters stays on the screen if and only if the cursor is at position n or behind it |
| `Screen.EraseAfterClearLeaves` | drivers/console.c:142-164 | a character, the clear key and the erase key: the erase starts at the home position and leaves the screen |
| `Screen.RedisplayIsAmpleIff` | drivers/console.c:234-242 | displaying the line from its character i on leaves room to erase all of it if and only if there is room for the first i characters now |
| `Screen.KeyKeepsRoomIff` | drivers/console.c:199-252 | a key between two characters of a redisplay keeps that room if and only if it is no clear once there are some, and no erase or kill that the positions before the cursor cannot spare |
| `Screen.DisplayAfterKeyIsAmpleIff` | drivers/console.c:199-252 | so the redisplay ends with room for all of the line if and only if the key is harmless |
| `Screen.ClearDuringRedisplayLosesRoom` | drivers/console.c:234-252 | a clear between the two characters of "ab" that is not, after which a kill would leave the screen |
| `Screen.EraseDuringRedisplay` | drivers/console.c:234-252 | an erase there is harmful if and only if the redisplay started at the home position |
| `Screen.StoredArePlain` | drivers/console.c:199-213 | no control character is ever stored in the line |
| `Screen.EncodedWord` | drivers/vga.c:25-29 | the word of screen memory: attribute and character, the attribute filled by the sign from 0x80 on |
| `Screen.ScrolledIs` | drivers/vga.c:49-67 | in columns and rows: 25 rows of 80 move up by one, the last becomes blank in green on black |
| `Screen.FedIs` | drivers/console.c:33-41 | a line feed goes to the start of the next row and scrolls in the last |
| `Screen.EchoedIs` | drivers/console.c:53-58 | a character goes to the cursor's place, which moves on, from the last column like a line feed |
| `Screen.EchoedAllIs` | drivers/console.c:167-181 | text that ends before the last cell stands in the cells from the cursor on |
| `Screen.ErasedIs` | drivers/console.c:215-232 | erasing n characters puts n blanks into the cells before the cursor |
| `Screen.TypedIs` | drivers/console.c:125-213 | in key codes: 10 completes the line, 8 and 13 take away one character and all, 9 and 127 none, others are stored up to 128 |
| `Screen.ShowsIs` | drivers/console.c:125-213 | in key codes: what is shown for each, with four blanks for 9 and an empty screen for 127 |
| `Screen.WrittenIs` | drivers/console.c:167-181 | what the program writes is shown as if typed with nothing pending |
| `Screen.MessageIff` | drivers/console.c:167-181 | messages may hold every character but backspace and carriage return |
| `Screen.CutIs` | drivers/console.c:265-269 | the caller gets the beginning of the line, as much as its buffer takes |
| `Terminal.Console.ScrollDown` | drivers/vga.c:41-52 | every row moves up by one and the last one is blank |
| `Terminal.Console.Putc` | drivers/console.c:125-157 | a character appears at the cursor, which moves on, wraps and scrolls; control characters do what the model says |
| `Terminal.Console.DelIbuf` | drivers/console.c:215-232 | if the line is not completed and not empty its last character goes, and its place on the screen becomes a blank under the cursor |
| `Terminal.Console.Kill` | drivers/console.c:107-112 | all pending characters go, from the line and from the screen |
| `Terminal.Console.Key` | drivers/console.c:199-213 | a keystroke does to line and screen what the model says, on the condition that is shown to be exact for staying on the screen |
| `Terminal.Console.EveryKeyFits` | drivers/console.c:199-213 | that condition holds of every key when there is room for the line, so in a careful session whenever no display is outstanding; only an erase or a kill ever violates it |
| `Terminal.Console.KeyDuring` | drivers/console.c:199-242 | a key that comes while the line is displayed again takes the room for the displayed part away if and only if it is not harmless |
| `Terminal.Console.Keys` | drivers/console.c:199-213 | outside a redisplay any keys but a clear leave room for the line if there was room before |
| `Terminal.Console.Puts` | drivers/console.c:167-181 | a message leaves the pending input erasable, and without keystrokes in between the screen is the message's |
| `Terminal.Console.DisplayIbuf` | drivers/console.c:234-242 | if the keys that arrive in between are harmless, all of the line can be erased afterwards; without keys the screen shows the line |
| `Terminal.Console.GetLine` | drivers/console.c:244-276 | the line handed over is the fold of all keystrokes since the last one, cut to the caller's buffer; the next starts empty; with harmless keys during its redisplay the line has room whenever no display is outstanding |
| `Terminal.Session` | drivers/console.c:89-276 | from power-on, over any course of messages, calls for a line and keys that erase no further than the home position: the cursor is on the screen and the line is the fold of the keys; if the keys during redisplays are harmless, the position is at least the pending input's length whenever no display is outstanding |

## Left out

- Port I/O, ATA status polling and errors, the PIC, the PIT and the VGA cursor registers: a drive answers every well-formed request.
- Accessed and dirty bits, and caches of paging structures other than the TLB: the code never reads these bits, and reloads CR3 after each change.
- ELF and program headers as bytes: they are values here, and the image's program headers are a sequence.
- Segments whose file size exceeds the memory size, and memory sizes whose sum reaches 2^32.
- Elf32.Map: when a segment is refused, what the segments before it have left in memory is not stated.
- Terminal.Console.Puts: messages with a backspace or a carriage return, which the loader does not print.
- Parser.SyntaxData.Do: what is read behind the line when something is left open on it (`OverrunsIff`), because those bytes are not the line's.
- Paging.Map: calls that move the page of a table while paging is on, after which the loader writes its tables elsewhere (`TablesStayIffKept`).
- Fat16.Fat16.Init: partitions with sectors that cannot be read, whose bytes nothing is said of.
- Timers.TimerList.Drive: starting or resuming a listed timer, which `Link` and `Relink` show to break the list.
- Fat16Model.LoadsRightIff: volumes whose boot sector gives another sector size than 512 bytes, on which the condition can hold although the load is wrong.
- Elf32.RequestedPages: is about the sequence of requests; the loops themselves are shown to make it for segments that start right, because the bytes of others go wherever their first page leads.
- Interrupts in the middle of a C statement.
- Terminal.Session: takes the output of one character as one step. A key between the increment of the column and the line feed (drivers/console.c:56-57), with the cursor in the last cell, writes the cell behind the screen.
- Printer.Number: sizes near the ends of the `int` range, where the subtractions would wrap.
- Format.Kvsprintf: does not model a buffer too small for the text, a `%s` argument inside the output buffer or a `%n` that points into it, because the source has no defined outcome there.
- Console and printer copies under `kernel/`, descriptor tables, the boot sectors, the partition table and the variable table, the shell's commands: near duplicates or easy members.
