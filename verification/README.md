# RizzOS memory management and text routines, modelled and proved

This project models the parts of RizzOS, a small x86-64 kernel with a UEFI boot
loader, where a mistake is hardest to see, and proves what they do:

* **The kernel's memory stack.** A bit set over physical frames; an allocator with
  three counters and a search hint; four-level page tables that live in the frames
  the allocator hands out; the boot code that maps memory to itself; and a heap that
  grows by mapping fresh frames. The central invariant says that the tables form a
  tree, that each table's frame is taken in the bit set and lies off the frames that
  hold the bit set itself, and that the hint never passes a clear frame. On it rest the
  translation theorems: a call of `PTM_MapMemory` changes the translation of one page
  and of nothing else.
* **The text engine of `stb_sprintf.h`.** Formats are read, converted and put out
  through a buffer that a callback takes away 512 characters at a time. The word
  tricks of the scanners, the conversion in chunks of eight digits and pairs, the
  decimal rounding of floats in integers, and the output with its callbacks and
  `vsnprintf` on top are proved against plain definitions.
* **CRC32 over UEFI table headers.** The table is eight steps of polynomial division
  for each byte, the loop is division bit by bit, and a change inside four
  consecutive bytes is always found.
* **Pattern matching, number printers and parsers** of the loader's library: a
  backtracking matcher against the language of its patterns, and round trips.

Machine words are natural numbers with explicit wrap-around and with `&` and `|`
defined digit by digit (`Bits`); only the CRC register is a bit vector. Physical memory
is held in two places: the bytes of the bit set in the allocator, all others in frames
of words. No method reads or writes a frame of the bit set as words, and
`Memories.WriteMeaning` says that this is exactly what makes a write in the model a
write to memory. Where the source does not keep to it, the condition is proved and
asked for, and the run that breaks it is shown. Code that
changes state is modelled by classes and methods with loops, each proved equal to a
function on the state; the theorems are about those functions and about runs of them.

## How the files belong together

| files | subject |
|---|---|
| `Bits`, `Options`, `Paging`, `Bitmap`, `MemoryMap` | words, page-directory entries, the bit set, the memory map |
| `PageFrames`, `BootFrames`, `Storage`, `PageFrameAllocator` | the frame allocator: functions, boot state, lowest frames and the bit set's own frames, code |
| `PageTables`, `Memory`, `MapPage`, `AddressSpace`, `MapRuns`, `PageTableManager` | page tables: tree, memory, one call, translation, runs, code |
| `IdentityMap`, `Kernel`, `KernelExample` | the boot loops, `InitializeMemory`, and a memory map on which it goes wrong |
| `HeapBlocks`, `HeapPages`, `HeapRuns`, `Heap` | the heap: block list, pages, runs between growths, code |
| `CrcTable`, `Crc`, `TableHeader` | CRC32 and table headers |
| `WideText`, `MetaMatch`, `Numerals`, `NumberText` | matcher, numerals, printers and parsers |
| `StbWords`, `StbScan`, `StbDecimal`, `StbRadix`, `StbRounding` | word tests, length scan, integer and decimal conversion |
| `StbOutput`, `StbField`, `StbLiteral`, `StbFormat`, `StbPrint` | buffers and callbacks, one field, literal text, directives, `vsprintfcb` and `vsnprintf` |
| `StbDirective`, `StbText`, `StbExample` | directives as they are written, what they show, and formats with their texts |

## Where the code is not what one would hope for

These are results, each with its exact condition or a concrete state:

* The boot code locks the address of the variable `g_pageBitmap.buffer`, not the
  storage it refers to; when that storage is taken is stated exactly
  (`BootFrames.BitmapStorageNotLocked`). Boot puts no table on its own bit set if and
  only if the storage is locked by chance or enough clear frames lie below it
  (`Kernels.BootSparesStorage`). On an ordinary memory map the root table itself lands
  there, its zeros erase every mark, and the next table gets the same frame
  (`KernelExamples.BootOverwritesStorage`).
* Boot's tables may lie past the end of memory, because frames past it have bits. They
  stay inside if and only if enough clear frames lie up to that end
  (`Kernels.BootStaysInMemory`, at an input where they do not
  `KernelExamples.BootLeavesMemory`); pages of the heap likewise
  (`HeapPages.FreshPageApart`).
* Frames past the end of memory that still have a bit in the last byte of the bit
  set are handed out after boot, unless the number of the last frame is 7 modulo 8
  (`BootFrames.SpareBitsAreHandedOut`, at an input `KernelExamples.SpareFrameIsClear`).
* The counter of free memory is short by one frame and by the spare bits
  (`BootFrames.FreeCounterFallsShort`), and it passes below zero in the middle of boot
  for every size of memory (`BootFrames.ReserveLoopWraps`); when the three counters add
  up is stated exactly (`PageFrames.ExactSum`).
* `MEM_GetTotalSize` adds the descriptors up, so a map with a hole leaves its highest
  frames out of the identity mapping (`MemoryMaps.HolesHideFrames`, on a map
  `MemoryMaps.HighRangeHidden`).
* The last frame of an unaligned kernel image may stay unlocked
  (`Kernels.LastImageFrame`, for an image `Kernels.UnalignedImageMissed`).
* The loop over the frame buffer misses the last page for some unaligned buffers
  (`IdentityMaps.FrameBufferCovered`, at an input `IdentityMaps.HalfABufferMissed`).
* An address from 2^52 on is mapped to another frame (`AddressSpaces.FrameIsExact`, at
  an input `AddressSpaces.AddressTooHigh`).
* `MEM_HeapSegHdrSplit` writes through a null `next` on every fresh heap, to a page that
  boot has mapped (`HeapBlocks.FirstSplitWritesThroughNull`,
  `Kernels.NullPageIsNoTable`), and gives the second half the wrong length
  (`HeapBlocks.SplitTiled`, on a heap `HeapBlocks.SplitLosesTheRest`, in the first
  allocation `HeapBlocks.FirstAllocation`).
* `MEM_HeapSegHdrCombineForward` swallows a successor that is in use, and with it
  `MEM_Free` the neighbour of the block given back (`HeapBlocks.CombineForwardOccupied`,
  `HeapBlocks.FreeOccupied`, on heaps `HeapBlocks.UsedBlockSwallowed` and
  `HeapBlocks.FreeLosesNeighbour`).
* A field comes out narrower than asked exactly when the zero flag meets a precision
  above the length of its text and a width above its content (`StbFields.ShownWidth`,
  at an input `StbFields.NarrowerThanAsked`).
* With the flags for a space and for a plus sign the space is shown, where C asks for the
  plus sign (`StbExamples.SpaceBeatsPlus`; section 7.21.6.1 of ISO/IEC 9899:2011).

## Model

| member | source | states |
|---|---|---|
| Paging.PageDirEntry.SetFlag | rizzos/src/paging/paging.c:5-11 | the entry afterwards is the old one with that binary digit replaced |
| Paging.PageDirEntry.GetFlag | rizzos/src/paging/paging.c:13-16 | the answer is the binary digit of the flag |
| Paging.PageDirEntry.SetAddress | rizzos/src/paging/paging.c:18-22 | bits 12 to 51 become the address, the 24 others stay |
| Paging.PageDirEntry.GetAddress | rizzos/src/paging/paging.c:24-26 | the answer is bits 12 to 51 |
| Paging.FlagMeaning | rizzos/src/paging/paging.c:5-16 | setting a flag changes what is read for that flag and for none of the 63 others |
| Paging.FlagBits | rizzos/src/paging/paging.h:7-21 | present, writable and large page are the bits of weight 1, 2 and 128 |
| Paging.AddressMeaning | rizzos/src/paging/paging.c:18-26 | the address read back is the one stored, modulo 2^40, and the other fields are kept |
| Bitmaps.Bitmap.Get | rizzos/src/utils/bitmap.c:5-16 | the answer is the member of the bit set at the index, and past the set the bit of the byte that the buffer has there; past the buffer nothing is known |
| Bitmaps.Bitmap.Set | rizzos/src/utils/bitmap.c:18-31 | inside the set exactly one bit changes; the index that equals the number of bits changes only the byte behind the set, with success; past it nothing changes |
| MemoryMaps.SizeCache.GetTotalSize | rizzos/src/memory.c:5-15 | the sum over the first map that is asked about, of all kinds of descriptors, remembered for every later map |
| MemoryMaps.TotalSizeAligned | rizzos/src/memory.c:9-13 | the size of memory is a whole number of frames, even after wrap-around |
| MemoryMaps.TotalSizeCounts | rizzos/src/memory.c:9-13 | for descriptors without overlaps, of whatever kinds, the size is 4096 times the number of frames in any of them, modulo 2^64 |
| MemoryMaps.TotalSizeOfMemory | rizzos/src/memory.c:9-13 | descriptors that cover the frames below n once each give 4096 n |
| MemoryMaps.HolesHideFrames | rizzos/src/memory.c:9-13 | the size reaches past every frame of the map if and only if the map has no hole |
| MemoryMaps.HighRangeHidden | rizzos/src/memory.c:9-13 | with one mebibyte at 0 and one at 2 MiB the second lies past the size |
| PageFrameAllocators.ZeroBytes | rizzos/src/memory.c:17-21 | the bytes asked for are zero afterwards, and so is the rest of the last word; no other byte changes |
| PageTableManagers.ZeroFrame | rizzos/src/memory.c:17-21 | one frame becomes an empty table and no other frame changes |
| PageFrameAllocators.PageFrameAllocator.InitEfiMemoryMap | rizzos/src/paging/page_frame_allocator.c:21-54 | the first call leads to the boot state that BootFrames describes, with the storage at the largest usable range and zeros up to the end of its last word; a second call changes nothing |
| PageFrameAllocators.FindLargest | rizzos/src/paging/page_frame_allocator.c:25-36 | the start of the first of the largest usable ranges, 0 without any |
| PageFrameAllocators.PageFrameAllocator.InitBitmap | rizzos/src/paging/page_frame_allocator.c:109-114 | a bit set of the given size with every bit clear, its bytes at the given address, and zeros behind it up to the end of the last word |
| PageFrameAllocators.PageFrameAllocator.RequestPage | rizzos/src/paging/page_frame_allocator.c:56-64 | state and address are those of the request from the first clear bit after the hint |
| PageFrameAllocators.PageFrameAllocator.LockPage | rizzos/src/paging/page_frame_allocator.c:66-73 | a clear frame is taken and counted as used; a taken one changes nothing, nor does one past the bit set, whatever the source reads for it |
| PageFrameAllocators.PageFrameAllocator.LockPages | rizzos/src/paging/page_frame_allocator.c:75-79 | the frames of the range are locked one after the other, also past the bit set |
| PageFrameAllocators.PageFrameAllocator.FreePage | rizzos/src/paging/page_frame_allocator.c:81-89 | a taken frame becomes clear, the counters move back, the hint falls to it; past the bit set nothing changes |
| PageFrameAllocators.PageFrameAllocator.FreePages | rizzos/src/paging/page_frame_allocator.c:91-95 | the frames of the range are freed one after the other |
| PageFrameAllocators.PageFrameAllocator.UnreservePage | rizzos/src/paging/page_frame_allocator.c:116-124 | a taken frame becomes clear, counted against the reserved memory |
| PageFrameAllocators.PageFrameAllocator.UnreservePages | rizzos/src/paging/page_frame_allocator.c:126-130 | the frames of the range are given back one after the other |
| PageFrameAllocators.PageFrameAllocator.UnreserveUsablePages | rizzos/src/paging/page_frame_allocator.c:45-51 | the usable ranges are given back in the order of the map |
| PageFrameAllocators.PageFrameAllocator.ReservePage | rizzos/src/paging/page_frame_allocator.c:132-139 | a clear frame is taken and counted as reserved |
| PageFrameAllocators.PageFrameAllocator.ReservePages | rizzos/src/paging/page_frame_allocator.c:141-145 | the frames of the range are reserved one after the other |
| PageFrames.HintNeverSkips | rizzos/src/paging/page_frame_allocator.c:56-145 | over every run of operations all bits below the hint stay set |
| PageFrames.RequestTakesLowest | rizzos/src/paging/page_frame_allocator.c:56-64 | a request returns the lowest clear frame of the whole bit set and takes no other |
| PageFrames.NullMeansFull | rizzos/src/paging/page_frame_allocator.c:56-64 | with frame 0 taken, null is returned if and only if no frame is clear, and then nothing changes |
| PageFrames.StaysTaken | rizzos/src/paging/page_frame_allocator.c:56-145 | a taken frame that no operation of a run releases is taken at its end |
| PageFrames.NeverTwice | rizzos/src/paging/page_frame_allocator.c:56-89 | a frame handed out is not handed out again after any run that does not release it |
| PageFrames.BalancedStep | rizzos/src/paging/page_frame_allocator.c:66-145 | each operation keeps free + used + reserved equal to the total and used + reserved equal to 4096 times the set bits, modulo 2^64 |
| PageFrames.BalancedRun | rizzos/src/paging/page_frame_allocator.c:66-145 | so does every run |
| PageFrames.ExactStep | rizzos/src/paging/page_frame_allocator.c:66-145 | when locked frames are freed and reserved ones unreserved, used is 4096 times the frames locked and used + reserved is 4096 times the set bits, without wrap-around |
| PageFrames.ExactRun | rizzos/src/paging/page_frame_allocator.c:66-145 | over every such run the used counter stays exactly 4096 times the frames locked and not freed, and used + reserved 4096 times the set bits |
| PageFrames.ExactSum | rizzos/src/paging/page_frame_allocator.c:66-145 | then free + used + reserved is the total without wrap-around if and only if the frames taken are no more than the total |
| PageFrames.CountFull | rizzos/src/paging/page_frame_allocator.c:56-64 | no clear bit is left if and only if every bit is set |
| BootFrames.BootBits | rizzos/src/paging/page_frame_allocator.c:38-53 | after boot a frame is clear if and only if it is at least 0x100, outside the range locked last, and in a type-7 descriptor or past the end of memory |
| BootFrames.BootHint | rizzos/src/paging/page_frame_allocator.c:21-54 | the boot state meets the condition on the hint from which every run starts |
| BootFrames.SpareBitsAreHandedOut | rizzos/src/paging/page_frame_allocator.c:40-44 | only usable frames are clear after boot if and only if the last frame's number is 7 modulo 8 |
| BootFrames.LargestIsFirstMaximum | rizzos/src/paging/page_frame_allocator.c:25-36 | the range chosen for the bit set is the first of the largest usable ones |
| BootFrames.BitmapStorageNotLocked | rizzos/src/paging/page_frame_allocator.c:42-53 | the frame where the bit set's storage starts, if it has a bit, is taken after boot if and only if it is a low frame or lies in the range locked last |
| BootFrames.BootBalanced | rizzos/src/paging/page_frame_allocator.c:38-53 | the counters balance after boot |
| BootFrames.FreeCounterFallsShort | rizzos/src/paging/page_frame_allocator.c:39-53 | the free counter equals the clear frames less one and less the spare bits |
| BootFrames.BootExact | rizzos/src/paging/page_frame_allocator.c:38-53 | after boot used is exactly 4096 times the free frames of the range locked last, and the three counters add up to the total without wrap-around if and only if the frames taken are no more than the total |
| BootFrames.ReserveLoopWraps | rizzos/src/paging/page_frame_allocator.c:39-44 | for every size of memory the first loop of boot takes a frame too many, and the counters add up to the total and 2^64 |
| Storages.LowestLeaves | rizzos/src/paging/page_frame_allocator.c:56-64 | after k requests the clear frames below a place are k fewer, or none |
| Storages.LowestTwice | rizzos/src/paging/page_frame_allocator.c:56-64 | requests one after the other take the lowest clear frames together |
| Storages.StorageHas | rizzos/src/paging/page_frame_allocator.c:40-42 | the frames of the bit set are those in which one of its bytes lies |
| Storages.SparedMeaning | rizzos/src/paging/page_frame_allocator.c:42-64 | n requests leave a range of frames, such as that of the bit set, alone if and only if it is taken or n clear frames lie below it |
| Storages.SparedFirst | rizzos/src/paging/page_frame_allocator.c:56-64 | as long as that holds the next frame is not in the range |
| Storages.HandedOutTwice | rizzos/src/paging/page_frame_allocator.c:56-73 | a frame that is filled with zeros after it was handed out is handed out again if and only if its own mark lies in it |
| Memories.WriteMeaning | rizzos/src/memory.c:17-21 | replacing a frame of words is writing to memory if and only if the bytes of the bit set in that frame are those written |
| Memories.WriteApart | rizzos/src/memory.c:17-21 | so it always is off the frames of the bit set |
| Memories.OverwrittenIsWrite | rizzos/src/memory.c:17-21 | filling any frame with zeros, the bytes of the bit set included |
| Memories.OverwrittenBits | rizzos/src/memory.c:17-21 | the marks that survive are those whose byte lies in another frame |
| Memories.BytesMakeWord | rizzos/src/memory.c:17-21 | the eight bytes of a word, lowest first, make up the word |
| PageTableManagers.CreateIndexer | rizzos/src/paging/page_map_indexer.c:3-15 | the four indices are the base-512 digits of the page number |
| AddressSpaces.IndicesArePageNumber | rizzos/src/paging/page_map_indexer.c:3-15 | two addresses have the same indices if and only if bits 12 to 47 agree |
| PageTables.LinkMeaning | rizzos/src/paging/page_table_manager.c:24-27 | a stored entry is present and writable and holds the frame modulo 2^40 |
| PageTables.LinkKeepsFlags | rizzos/src/paging/page_table_manager.c:24-27 | every other flag below bit 12 stays as it was, the mark of a large page included |
| PageTables.ReachedIsTable | rizzos/src/paging/page_table_manager.c:19-56 | whatever a walk of up to three levels reaches is a table of that depth |
| PageTables.ReachInjective | rizzos/src/paging/page_table_manager.c:19-56 | in a tree two different paths never reach the same table |
| PageTables.TableIsReached | rizzos/src/paging/page_table_manager.c:19-56 | every table hangs on a path from the root |
| PageTables.ReachElsewhere | rizzos/src/paging/page_table_manager.c:27-62 | changing one entry changes no walk that does not go through it |
| MapPages.NewTableTree | rizzos/src/paging/page_table_manager.c:21-27 | linking a fresh zeroed frame keeps the tree and the invariant |
| MapPages.NextTableKeeps | rizzos/src/paging/page_table_manager.c:19-30 | one level keeps the invariant, extends the walks by exactly one path and changes no translation |
| MapPages.PutLeafKeeps | rizzos/src/paging/page_table_manager.c:58-62 | the last write keeps the tables and changes the entry of one page |
| MapPages.GrowsOnce | rizzos/src/paging/page_table_manager.c:19-30 | a level takes a clear frame exactly when its table is missing, and touches no frame that is not a table |
| MapPages.DescendKeeps | rizzos/src/paging/page_table_manager.c:19-56 | after three levels the path exists, nothing else changed, and exactly the missing tables were taken |
| MapPages.NewTables | rizzos/src/paging/page_table_manager.c:21-55 | the tables that calls add are the lowest frames that were clear |
| MapPages.ApartMeaning | rizzos/src/paging/page_table_manager.c:21-55 | tables stay off the bit set if and only if the requests for new ones pass it by |
| AddressSpaces.TablesAllowWriting | rizzos/src/paging/page_table_manager.c:24-55 | every link on a walk allows writing |
| AddressSpaces.WalkHasFourLevels | rizzos/src/paging/page_table_manager.c:19-56 | no entry above the last level is marked as a large page, so the processor walks all four levels |
| AddressSpaces.MapPageKeeps | rizzos/src/paging/page_table_manager.c:15-63 | the whole effect of a call on walks, entries, frames and invariant |
| AddressSpaces.MapMemoryCorrect | rizzos/src/paging/page_table_manager.c:15-63 | the address translates to the given frame, writable, and every other page translates as before, mapped or not |
| AddressSpaces.FrameIsExact | rizzos/src/paging/page_table_manager.c:59 | the frame is the one asked for if and only if the physical address is below 2^52 |
| AddressSpaces.AddressTooHigh | rizzos/src/paging/page_table_manager.c:59 | the physical address 2^52 is mapped to frame 0 |
| MapRuns.LinkTwice | rizzos/src/paging/page_table_manager.c:58-62 | of two entries stored one after the other only the second is left |
| MapRuns.MapPageTwice | rizzos/src/paging/page_table_manager.c:15-63 | the second of two calls for a page decides and takes no frame |
| MapRuns.MapMemoryIdempotent | rizzos/src/paging/page_table_manager.c:15-63 | repeating a call changes no entry, frame or counter |
| MapRuns.TableIffReached | rizzos/src/paging/page_table_manager.c:19-56 | the tables of the invariant are exactly the frames that a walk reaches |
| MapRuns.StepKeepsInv | rizzos/src/paging/page_table_manager.c:15-63 | mapping, requesting, locking, freeing a frame that is no table and writing to one that is neither table nor bit set keep the invariant and the tables off the bit set |
| MapRuns.RunKeepsInv | rizzos/src/paging/page_table_manager.c:15-63 | so does every run, and tables stay tables |
| MapRuns.TablesNeverHandedOut | rizzos/src/paging/page_table_manager.c:21-56 | after every such run each table hangs in one place only, is taken, lies off the bit set, and is not what a request returns |
| MapRuns.StepTranslates | rizzos/src/paging/page_table_manager.c:15-63 | an operation changes the translation of a page only if it maps that page |
| MapRuns.RunTranslates | rizzos/src/paging/page_table_manager.c:15-63 | after every run each page goes where its last mapping put it, and unmapped pages translate as at the start |
| MapRuns.StepTakes | rizzos/src/paging/page_table_manager.c:15-63 | an operation uses up at most one clear frame, or the tables a map lacks, below any place |
| MapRuns.BudgetSuffices | rizzos/src/paging/page_table_manager.c:15-63 | with as many clear frames below a range, of the bit set or past the end of memory, as a run takes, no map of it puts a table there, and the rest of them can still be requested |
| MapRuns.LockedStorageStays | rizzos/src/paging/page_table_manager.c:15-63 | once the frames of the bit set are taken, every run that frees none of them keeps the tables off it |
| PageTableManagers.PageTableManager.Create | rizzos/src/paging/page_table_manager.c:11-13 | only the root changes |
| PageTableManagers.PageTableManager.PutEntry | rizzos/src/paging/page_table_manager.c:27 | one entry of one table changes, in a frame off the bit set |
| PageTableManagers.PageTableManager.Next | rizzos/src/paging/page_table_manager.c:19-30 | one level of the code does what NextTable says, in memory and allocator |
| PageTableManagers.PageTableManager.MapMemory | rizzos/src/paging/page_table_manager.c:15-63 | the code does what MapMemory says, about which the theorems are |
| IdentityMaps.IdentityTranslates | rizzos/src/kernel.c:44-52 | a mapping loop makes exactly its pages translate to themselves and leaves every other page |
| IdentityMaps.BootLoopCounts | rizzos/src/kernel.c:38-46 | with that many clear frames the loop from an empty root never lacks one, and it takes exactly ceil(n/512) + ceil(n/512^2) + ceil(n/512^3) frames |
| IdentityMaps.BootLoop | rizzos/src/kernel.c:38-46 | from an empty root n pages translate to themselves, nothing else is mapped, with that many tables, which are the lowest clear frames |
| IdentityMaps.LoopCounts | rizzos/src/kernel.c:44-52 | a mapping loop over any range of pages, wherever it lies, takes exactly one frame for each stretch of 512, 512^2 and 512^3 pages that it touches and the pages before it have not opened, and with that many it never lacks one |
| IdentityMaps.FrameBufferCovered | rizzos/src/kernel.c:48-52 | the second loop maps every byte of the frame buffer if and only if the page offsets of its first byte and of its length less one add up to less than a page |
| IdentityMaps.HalfABufferMissed | rizzos/src/kernel.c:48-52 | a buffer of one page from the middle of a page is left half unmapped |
| Kernels.MapToSelf | rizzos/src/kernel.c:44-52 | both mapping loops do what MapIdentity says |
| Kernels.InitializeMemory | rizzos/src/kernel.c:24-53 | with enough clear frames inside memory that pass the bit set by, the code leads from an unused allocator to the mapped state, wherever the frame buffer lies below 2^48 |
| Kernels.LockedBits | rizzos/src/kernel.c:25-35 | the frames that are clear when the root is requested: usable or past the end, from 0x100 on, outside the three ranges locked |
| Kernels.ImageLocked | rizzos/src/kernel.c:33-34 | every byte of the kernel image lies in a frame that is taken, when the page offset of the image and the length of its last part fit one page; without that every byte but those in the last frame |
| Kernels.AlignedIsCovered | rizzos/src/kernel.c:33-34 | they fit whenever the image starts at a page |
| Kernels.LastImageFrame | rizzos/src/kernel.c:33-34 | the frame of the last byte, if nothing else keeps it, is taken if and only if they fit |
| Kernels.UnalignedImageMissed | rizzos/src/kernel.c:33-34 | the end of an image of 0x1900 bytes from the middle of a page is not locked |
| Kernels.BufferLocked | rizzos/src/kernel.c:35 | the same for the bytes of the frame buffer |
| Kernels.TablesOffImage | rizzos/src/kernel.c:33-52 | no table of boot lies on a frame of the image or of the frame buffer |
| Kernels.BootTranslates | rizzos/src/kernel.c:24-53 | then the pages of memory and of the frame buffer loop translate to themselves, no other address translates, and every table lies in usable memory and off the bit set |
| Kernels.MapTranslates | rizzos/src/kernel.c:43-46 | with a memory map that covers the frames below n once each, every address in any of its descriptors translates to itself |
| Kernels.BootTableFrames | rizzos/src/kernel.c:37-52 | the tables of boot are exactly the first 1 + BootTables clear frames |
| Kernels.BootSparesStorage | rizzos/src/kernel.c:24-53 | no table of boot lies on the bit set if and only if its frames are taken or 1 + BootTables clear frames lie below them |
| Kernels.BootStaysInMemory | rizzos/src/kernel.c:24-53 | no table of boot lies past the end of memory if and only if 1 + BootTables clear frames lie up to that end |
| Kernels.NullPageIsNoTable | rizzos/src/kernel.c:24-53 | boot maps the null page to frame 0, which is taken and no table; it holds the bit set only when that starts there |
| Kernels.BootThenRun | rizzos/src/kernel.c:24-53 | the clear frames left below a range, of the bit set or past the end of memory, are what later operations may take with the invariant kept and no table on the range |
| KernelExamples.BootOverwritesStorage | rizzos/src/kernel.c:37-45 | on a map of one used and seven free mebibytes the root lies on the bit set, every mark is erased and the next request returns the root again |
| KernelExamples.BootLeavesMemory | rizzos/src/kernel.c:37-52 | on a map of eight mebibytes with six usable frames the bit set is safe, and the seventh table of boot is frame 0x801, past the end of memory |
| KernelExamples.FarBufferIsMapped | rizzos/src/kernel.c:48-52 | with 256 mebibytes and a frame buffer at 2 GiB all conditions of boot are met and the buffer is mapped |
| KernelExamples.SpareFrameIsClear | rizzos/src/paging/page_frame_allocator.c:40-44 | there a frame past the end of memory is clear after boot |
| KernelExamples.StorageFrameIsClear | rizzos/src/paging/page_frame_allocator.c:42-53 | and so is the frame with the bit set |
| HeapBlocks.FirstBlockTiled | rizzos/src/memory/heap.c:20-28 | a fresh heap is tiled by its one block |
| HeapBlocks.CombineForwardTiled | rizzos/src/memory/heap.c:106-117 | a merge keeps the tiling and drops one block from the list |
| HeapBlocks.CombineForwardOccupied | rizzos/src/memory/heap.c:106-117 | a merge keeps the blocks in use if and only if the successor is free |
| HeapBlocks.UsedBlockSwallowed | rizzos/src/memory/heap.c:106-117 | on a heap of a free block and one in use the merge leaves none in use |
| HeapBlocks.ExpandTiled | rizzos/src/memory/heap.c:66-86 | an expansion keeps the tiling and moves the end by whole pages |
| HeapBlocks.ExpandOccupied | rizzos/src/memory/heap.c:66-86 | an expansion leaves every block in use where it is and as long as it is |
| HeapBlocks.OneExpansion | rizzos/src/memory/heap.c:46-63 | after a failed search one expansion is enough if and only if the last block is free or the size leaves room for a header in its last page |
| HeapBlocks.TwoExpansions | rizzos/src/memory/heap.c:46-63 | two expansions are enough for every size |
| HeapBlocks.FitsAfterTwo | rizzos/src/memory/heap.c:46-63 | so the search that MEM_Malloc repeats succeeds at the third attempt at the latest |
| HeapBlocks.FoundBlock | rizzos/src/memory/heap.c:46-63 | what the search finds is a free block of at least the size in a tiled heap, with the blocks in use as before |
| HeapBlocks.TakenBlock | rizzos/src/memory/heap.c:48-58 | the block taken is in use, at least as long as asked, inside the heap and off every block that was in use |
| HeapBlocks.RoundedUp | rizzos/src/memory/heap.c:66-70 | an expansion is rounded up to the next multiple of a page |
| HeapBlocks.TakeBlockOccupied | rizzos/src/memory/heap.c:48-58 | a fit too short to be split is taken whole: the tiling stays and exactly this block joins those in use |
| HeapBlocks.FirstSplitWritesThroughNull | rizzos/src/memory/heap.c:88-104 | on a fresh heap every split that is carried out writes to a header at address 0 |
| HeapBlocks.SplitTiled | rizzos/src/memory/heap.c:88-104 | a split heap, the last block included, is tiled by some list if and only if both halves happen to be equally long |
| HeapBlocks.SplitLosesTheRest | rizzos/src/memory/heap.c:88-104 | on that heap splitting off 16 bytes leaves no tiling at all |
| HeapBlocks.FirstAllocation | rizzos/src/memory/heap.c:38-104 | the first allocation on a fresh heap that leaves room makes two blocks of the size asked for; what lies behind them is in no block, and with more than half asked for the second reaches past the end |
| HeapBlocks.FreeTiled | rizzos/src/memory/heap.c:31-36 | giving a block back keeps the tiling, merged with its free neighbours |
| HeapBlocks.FreeOccupied | rizzos/src/memory/heap.c:31-36 | exactly this block leaves those in use if and only if the block behind it is free or it is the last |
| HeapBlocks.FreeLosesNeighbour | rizzos/src/memory/heap.c:31-36 | of two blocks in use, giving back the first leaves none |
| HeapPages.GrowTwice | rizzos/src/memory/heap.c:74-77 | growing twice is growing once by the sum |
| HeapPages.MapFreshPageKeeps | rizzos/src/memory/heap.c:15-18 | a further heap page is mapped to a frame that is new, taken and no table |
| HeapPages.FreshPageApart | rizzos/src/memory/heap.c:15-18 | a further page and its tables keep off a range of frames, of the bit set or past the end of memory, if and only if as many requests as they make pass it by |
| HeapPages.HeapInMemory | rizzos/src/memory/heap.c:12-22 | when the requests pass the frames past memory by, no page of the heap and no table lies there |
| HeapPages.HeapGrows | rizzos/src/memory/heap.c:12-22 | after any number of pages each heap page is mapped, writable, to a frame of its own that is no page table and not on the bit set, and other pages are untouched |
| HeapRuns.StepKeepsHeap | rizzos/src/memory/heap.c:12-22 | an operation that maps no heap page and frees no heap frame leaves the heap mapped as it is |
| HeapRuns.RunKeepsHeap | rizzos/src/memory/heap.c:12-22 | so does every run |
| HeapRuns.GrowsAfterRun | rizzos/src/memory/heap.c:72-77 | and after it the heap may grow by a page |
| Heaps.MapHeapPages | rizzos/src/memory/heap.c:15-18 | the mapping loop does what MapFresh says |
| Heaps.Heap.InitializeHeap | rizzos/src/memory/heap.c:12-29 | pages mapped and one free block over all of them |
| Heaps.Heap.ExpandHeap | rizzos/src/memory/heap.c:66-86 | pages mapped at the old end and the blocks as Expand says |
| Heaps.Heap.CombineForward | rizzos/src/memory/heap.c:106-117 | the headers and the last block as the function on blocks says |
| Heaps.Heap.CombineBackward | rizzos/src/memory/heap.c:119-122 | the previous block takes this one in when it is free |
| Heaps.Heap.Free | rizzos/src/memory/heap.c:31-36 | the block is marked free and merged forward and backward as the function on blocks says |
| Heaps.Heap.FindFit | rizzos/src/memory/heap.c:46-61 | the first block in list order that is free and long enough, or there is none |
| Heaps.Heap.FindBlock | rizzos/src/memory/heap.c:46-63 | the heap is expanded as often as the search fails, and then the first fit is found |
| Heaps.Heap.Split | rizzos/src/memory/heap.c:88-104 | the headers as the function on blocks says, with the write through a null successor, and the address of the new header |
| Heaps.Heap.Malloc | rizzos/src/memory/heap.c:38-64 | null exactly for the sizes 0 and above 2^64 - 16; otherwise after at most two expansions the address of at least that many bytes inside the heap, in a block that is in use and off every block in use before |
| Heaps.RoundedMeaning | rizzos/src/memory/heap.c:39-44 | the size is rounded up to the next multiple of 16, and is 0 exactly for 0 and above 2^64 - 16 |
| CrcTables.LookupIsSteps | bootloader/gnu-efi/lib/crc.c:22-66 | each of the 256 entries is eight steps of division by 0xEDB88320 |
| Crcs.CalculateCrc | bootloader/gnu-efi/lib/crc.c:201-218 | the loop computes the CRC of the message |
| Crcs.EmptyMessage | bootloader/gnu-efi/lib/crc.c:210-216 | the CRC of nothing is 0 |
| Crcs.ZeroByte | bootloader/gnu-efi/lib/crc.c:210-216 | that of a zero byte is 0xD202EF8D |
| Crcs.CheckValue | bootloader/gnu-efi/lib/crc.c:201-218 | that of "123456789" is 0xCBF43926, the check value of this CRC |
| Crcs.ZerosInFront | bootloader/gnu-efi/lib/crc.c:210-216 | zero bytes in front of a message leave its CRC alone if and only if they leave the start value alone |
| Crcs.FewZerosInFront | bootloader/gnu-efi/lib/crc.c:210-216 | so up to four of them always change it |
| Crcs.Residue | bootloader/gnu-efi/lib/crc.c:210-216 | a message followed by the four bytes of its own CRC leaves the register at 0xDEBB20E3, whatever the message |
| Crcs.TableStepIsDivision | bootloader/gnu-efi/lib/crc.c:212 | one table step is eight message bits of division |
| Crcs.RegisterIsDivision | bootloader/gnu-efi/lib/crc.c:210-215 | for every message the register is the remainder of division bit by bit |
| Crcs.BurstDetected | bootloader/gnu-efi/lib/crc.c:210-215 | two bit strings that differ only inside 32 consecutive bits have different remainders |
| Crcs.CrcDetectsBurst | bootloader/gnu-efi/lib/crc.c:201-218 | messages that differ in one such burst have different CRCs |
| Crcs.CrcDetectsFourBytes | bootloader/gnu-efi/lib/crc.c:201-218 | so do messages that differ only inside four consecutive bytes |
| TableHeaders.TableHeader.SetCrc | bootloader/gnu-efi/lib/crc.c:70-91 | the header is sealed for its own size |
| TableHeaders.TableHeader.SetCrcAltSize | bootloader/gnu-efi/lib/crc.c:93-116 | the CRC field becomes the CRC of the bytes with the field cleared, and no other byte changes |
| TableHeaders.SealedLayout | bootloader/gnu-efi/lib/crc.c:93-116 | bytes 16 to 19 become the CRC, lowest first, of the bytes asked for with zeros there, and all others stay |
| TableHeaders.SizeLayout | bootloader/gnu-efi/lib/crc.c:70-91 | the size is the word in bytes 12 to 15, lowest first |
| TableHeaders.TableHeader.CheckCrc | bootloader/gnu-efi/lib/crc.c:119-141 | the check for the header's own size, also when the limit turns that size away |
| TableHeaders.TableHeader.CheckCrcAltSize | bootloader/gnu-efi/lib/crc.c:146-198 | the verdict for every size, and the header is unchanged; only a size within the limit has to lie inside memory |
| TableHeaders.SealedPasses | bootloader/gnu-efi/lib/crc.c:93-198 | a sealed header passes if and only if the size is not zero and within the limit |
| TableHeaders.SealedHeaderPasses | bootloader/gnu-efi/lib/crc.c:70-141 | sealing keeps the header's size, so the check after it agrees |
| TableHeaders.SealIdempotent | bootloader/gnu-efi/lib/crc.c:93-116 | sealing a sealed header changes nothing |
| TableHeaders.TamperingDetected | bootloader/gnu-efi/lib/crc.c:146-198 | altered inside four consecutive bytes outside the field, a sealed header passes if and only if the covered bytes are unchanged |
| MetaMatches.MatchClass | bootloader/gnu-efi/lib/str.c:360-394 | a character matches a set if and only if a single or a range of it covers the character, and then the set is skipped |
| MetaMatches.MetaMatch | bootloader/gnu-efi/lib/str.c:325-409 | for every string and every pattern with closed sets the call ends and answers true if and only if the string is in the language of the pattern |
| MetaMatches.LanguageStep | bootloader/gnu-efi/lib/str.c:335-408 | the language of a pattern by its first token |
| MetaMatches.TokenMeaning | bootloader/gnu-efi/lib/str.c:335-408 | a star stands for any text, a question mark for any character, every other character outside brackets for itself |
| MetaMatches.ClassMeaning | bootloader/gnu-efi/lib/str.c:360-394 | what stands between brackets is one class |
| MetaMatches.SinglesClass | bootloader/gnu-efi/lib/str.c:360-394 | a class without a dash matches exactly its characters |
| MetaMatches.RangeClass | bootloader/gnu-efi/lib/str.c:360-394 | a range matches its ends and what lies between them |
| MetaMatches.TwoPatterns | bootloader/gnu-efi/lib/str.c:325-409 | "a*" matches exactly the texts that begin with an a, "?[0-9]" those of two characters with a digit last |
| Numerals.ValueOfDigits | bootloader/gnu-efi/lib/print.c:1387-1390 | the digits of a number have that number as their value |
| Numerals.DigitsOfValue | bootloader/gnu-efi/lib/print.c:1387-1390 | digits without a leading zero are the digits of their value: numerals are unique |
| Numerals.CommasDeleted | bootloader/gnu-efi/lib/print.c:1392-1402 | deleting the commas of grouped text gives the text back |
| Numerals.CommaPlaces | bootloader/gnu-efi/lib/print.c:1392-1402 | commas stand exactly behind every group from the right and never first |
| NumberTexts.ValueToHex | bootloader/gnu-efi/lib/print.c:1330-1358 | the buffer holds the hexadecimal numeral and a NUL |
| NumberTexts.CopyDigits | bootloader/gnu-efi/lib/print.c:1392-1402 | the countdown puts the commas where the spelled-out form has them |
| NumberTexts.CopiedCommas | bootloader/gnu-efi/lib/print.c:1392-1402 | copying with a countdown is grouping by three |
| NumberTexts.ValueToString | bootloader/gnu-efi/lib/print.c:1361-1404 | the buffer holds the sign, the decimal numeral with or without commas, and a NUL, for every 64-bit value |
| NumberTexts.Atoi | bootloader/gnu-efi/lib/str.c:298-323 | the value of the leading decimal digits after spaces, modulo 2^64 |
| NumberTexts.Xtoi | bootloader/gnu-efi/lib/str.c:267-296 | the value of the leading hexadecimal digits after spaces, modulo 2^64 |
| NumberTexts.HexRoundTrip | bootloader/gnu-efi/lib/print.c:1330-1358 | reading the hexadecimal form of a 64-bit value gives the value |
| NumberTexts.SmallReadsSame | bootloader/gnu-efi/lib/str.c:267-296 | a numeral in small letters is read like the same numeral in capitals |
| NumberTexts.SmallRoundTrip | bootloader/gnu-efi/lib/str.c:267-296 | so the hexadecimal form in small letters gives the value, too |
| NumberTexts.SpacesSkipped | bootloader/gnu-efi/lib/str.c:267-323 | spaces in front are skipped and nothing else |
| NumberTexts.ReadingStops | bootloader/gnu-efi/lib/str.c:267-323 | reading stops at the first character that is no digit |
| NumberTexts.DigitCharacters | bootloader/gnu-efi/lib/str.c:267-323 | the digits are the ten figures, and for base 16 six letters in either case |
| NumberTexts.DecimalRoundTrip | bootloader/gnu-efi/lib/print.c:1361-1404 | reading the comma-free decimal form of a value from zero on gives the value |
| NumberTexts.SignedRoundTrip | bootloader/gnu-efi/lib/print.c:1361-1404 | a negative value is printed as a minus sign and the numeral of its magnitude, any other as its numeral, and the numerals are read back |
| NumberTexts.ThreeNumerals | bootloader/gnu-efi/lib/print.c:1330-1404 | 107, -107 and 0x1AF, character by character |
| NumberTexts.CommaFormIsNumeral | bootloader/gnu-efi/lib/print.c:1361-1404 | the form with commas is the form without them once they are deleted, sign included |
| StbWords.ZeroMarkMeaning | rizzos/lib/stb_sprintf.h:330-338 | the word test is not zero if and only if one of the four bytes is zero |
| StbWords.PercentMarkMeaning | rizzos/lib/stb_sprintf.h:405-414 | the word test is not zero if and only if one of the four bytes is '%' |
| StbScans.StrlenLimited | rizzos/lib/stb_sprintf.h:309-347 | for every alignment the answer is the smaller of the limit and the place of the first NUL |
| StbScans.LengthUnique | rizzos/lib/stb_sprintf.h:309-347 | there is only one such length |
| StbDecimals.PairMeaning | rizzos/lib/stb_sprintf.h:261-272 | the table holds at places 2n and 2n + 1 the two digits of n |
| StbDecimals.PutPairs | rizzos/lib/stb_sprintf.h:1101-1107 | the pairs of a chunk are its digits in front of those already written |
| StbDecimals.PutDigits | rizzos/lib/stb_sprintf.h:1108-1117 | the single digits of a chunk with a comma after every third digit |
| StbDecimals.FillZeros | rizzos/lib/stb_sprintf.h:1123-1130 | a chunk that is not the last gets all of its eight digits |
| StbDecimals.ConvertInteger | rizzos/lib/stb_sprintf.h:1087-1141 | for every 64-bit value the buffer ends with exactly its decimal numeral, with commas when asked for |
| StbDecimals.NumberTextMeaning | rizzos/lib/stb_sprintf.h:1087-1141 | that text is the numeral once the commas are deleted, and commas stand at every fourth place from the right |
| StbRadixes.ConvertRadix | rizzos/lib/stb_sprintf.h:1016-1054 | the buffer ends with the text of the number in base 2, 8 or 16 |
| StbRadixes.WidenedMeaning | rizzos/lib/stb_sprintf.h:1036-1048 | the zeros in front are as few as make the text as long as the precision |
| StbRadixes.RadixMeaning | rizzos/lib/stb_sprintf.h:1016-1054 | the text without commas is the numeral behind those zeros and reads as the number |
| StbRoundings.CountDigits | rizzos/lib/stb_sprintf.h:1768-1775 | the count is the width of the number, one for zero |
| StbRoundings.Round | rizzos/lib/stb_sprintf.h:1765-1789 | the number is rounded half up to the digits asked for, and the position moves exactly when a new digit is carried |
| StbRoundings.RoundedWidth | rizzos/lib/stb_sprintf.h:1776-1786 | rounding keeps the width unless the result is a power of ten, exactly when the sum reaches the next power |
| StbRoundings.RoundedOnce | rizzos/lib/stb_sprintf.h:1783-1786 | only one number is the rounded one |
| StbRoundings.PlacesMeaning | rizzos/lib/stb_sprintf.h:1765-1766 | a count from the decimal point rounds to that many places behind it; a number that does not reach there is not rounded |
| StbRoundings.SignificantMeaning | rizzos/lib/stb_sprintf.h:1765-1766 | with the top bit set n asks for n + 1 significant digits |
| StbRoundings.ThreeRoundings | rizzos/lib/stb_sprintf.h:1783-1788 | 1245, 1244 and 9996 to three digits |
| StbRoundings.DropZeroGroups | rizzos/lib/stb_sprintf.h:1791-1806 | all trailing groups of three zeros go, and nothing else |
| StbRoundings.PutBits | rizzos/lib/stb_sprintf.h:1808-1839 | the buffer ends at place 64 with the decimal numeral, and is empty for zero |
| StbRoundings.RoundToText | rizzos/lib/stb_sprintf.h:1765-1844 | the digits at the decimal position are the input rounded half up to the digits asked for, including the carry and the dropped zeros |
| StbOutputs.Printer.constructor | rizzos/lib/stb_sprintf.h:1444-1448 | nothing is written yet, and with the clamp callback there is room for a chunk |
| StbOutputs.Printer.Put | rizzos/lib/stb_sprintf.h:400-401 | one character more in the output, what was delivered is kept |
| StbOutputs.Printer.PutFour | rizzos/lib/stb_sprintf.h:418-430 | four characters more, for every alignment |
| StbOutputs.Printer.HandOver | rizzos/lib/stb_sprintf.h:364-372 | the chunk in the buffer goes to the callback and the output stays the same |
| StbOutputs.Printer.CheckBuffer | rizzos/lib/stb_sprintf.h:364-382 | there is room for the characters announced, the output stays the same |
| StbOutputs.Printer.Clamped | rizzos/lib/stb_sprintf.h:383-389 | the part of a copy that fits, which is nothing only when the buffer is full |
| StbOutputs.Printer.Fill | rizzos/lib/stb_sprintf.h:1172-1193 | the output grows by that many equal characters, and the loop ends |
| StbOutputs.Printer.Copy | rizzos/lib/stb_sprintf.h:1252-1269 | the output grows by the text, and the loop ends |
| StbOutputs.Printer.LeadingZeros | rizzos/lib/stb_sprintf.h:1207-1236 | the output grows by zeros with a comma whenever the counter is through |
| StbOutputs.Printer.ClampCallback | rizzos/lib/stb_sprintf.h:1393-1419 | the caller's buffer holds the first part of all that was delivered, as much as fits, and no other place changes |
| StbFields.Scopy | rizzos/lib/stb_sprintf.h:1146-1330 | the output grows by the field: padding, leader, zeros, text, zeros, tail |
| StbFields.ShownWidth | rizzos/lib/stb_sprintf.h:1146-1169 | the field is as wide as asked, or as its content needs, if and only if no precision above the text meets the zero flag |
| StbFields.NarrowerThanAsked | rizzos/lib/stb_sprintf.h:1146-1169 | with "%08.3d" the number 5 comes out six characters wide |
| StbFields.PaddedCommas | rizzos/lib/stb_sprintf.h:1207-1236 | with commas in the padding, padding and number together have commas exactly behind every group from the right |
| StbLiterals.CopyLiteral | rizzos/lib/stb_sprintf.h:391-432 | for every alignment the output grows by exactly the text up to the first '%' or NUL, and the copy stops there |
| StbFormats.ReadFlags | rizzos/lib/stb_sprintf.h:443-497 | the flags up to the first other character or a zero |
| StbFormats.ReadNumber | rizzos/lib/stb_sprintf.h:504-507 | the value of the digits that stand there |
| StbFormats.ReadSize | rizzos/lib/stb_sprintf.h:499-522 | a width or precision from an argument or from digits |
| StbFormats.ReadLength | rizzos/lib/stb_sprintf.h:524-569 | the size letters and whether they ask for 64 bits |
| StbFormats.ReadDirective | rizzos/lib/stb_sprintf.h:433-569 | everything between '%' and the conversion character |
| StbDirectives.DirectiveRead | rizzos/lib/stb_sprintf.h:433-569 | every directive of flags in any order, zero, width, precision, size letters and conversion is read back as it was written, with the arguments of its stars |
| StbDirectives.FlagsRead | rizzos/lib/stb_sprintf.h:443-497 | each flag character sets its own flag |
| StbDirectives.SizeRead | rizzos/lib/stb_sprintf.h:524-569 | the size letters are read whole, whichever they are, and ask for 64 bits exactly when they mean it |
| StbFormats.IntMeaning | rizzos/lib/stb_sprintf.h:1056-1074 | a signed argument is its sign and its magnitude, the lowest value included; an unsigned one the same word |
| StbPrints.ConvertString | rizzos/lib/stb_sprintf.h:587-601 | the string or "null", cut at the precision or the NUL |
| StbPrints.ConvertNumber | rizzos/lib/stb_sprintf.h:1056-1141 | the sign and the numeral of the argument |
| StbPrints.ConvertBits | rizzos/lib/stb_sprintf.h:978-1054 | prefix, digits and commas of the argument in base 2, 8 or 16 |
| StbPrints.Convert | rizzos/lib/stb_sprintf.h:571-1343 | the field of a conversion and the arguments after it |
| StbPrints.PrintAll | rizzos/lib/stb_sprintf.h:355-1345 | the output grows by what the format and its arguments stand for |
| StbPrints.Vsprintfcb | rizzos/lib/stb_sprintf.h:349-1355 | without a callback the text and a NUL are in the buffer, with any callback the chunks join to the same text, none empty and none above 512 characters; the length is returned |
| StbPrints.Vsnprintf | rizzos/lib/stb_sprintf.h:1430-1458 | the full length is returned, the buffer holds the first min(length, count - 1) characters and a NUL, and no other memory is written but the context's |
| StbTexts.FormatShown | rizzos/lib/stb_sprintf.h:349-1355 | a format of plain text and directives shows the plain text and, for each directive, its argument as laid out by flags, width and precision |
| StbTexts.DirectiveShown | rizzos/lib/stb_sprintf.h:571-1343 | what is shown for %d, %i, %u, %x, %X, %o, %b, %B, %p, %s, %c and %%, in terms of the characters of the directive: sign or prefix, zeros, digits and blanks |
| StbTexts.SignedReadBack | rizzos/lib/stb_sprintf.h:1056-1141 | reading the text of %d or %i gives the argument back, whatever the flags but commas |
| StbTexts.InBaseReads | rizzos/lib/stb_sprintf.h:1016-1054 | the digits of %x, %X, %o and %b read as the argument, in one case, without a zero in front |
| StbTexts.RadixInBase | rizzos/lib/stb_sprintf.h:1016-1054 | without commas the digits are that numeral with zeros up to the precision |
| StbTexts.FieldLaid | rizzos/lib/stb_sprintf.h:1146-1330 | blanks on the left or the right, or zeros behind the sign |
| StbExamples.MinusFive | rizzos/lib/stb_sprintf.h:293-299 | "%d" shows -5 as "-5" |
| StbExamples.PlusFive | rizzos/lib/stb_sprintf.h:293-307 | "%+d" shows 5 as "+5" |
| StbExamples.SpaceBeatsPlus | rizzos/lib/stb_sprintf.h:293-307 | with both flags, as in "%+ d", the space is shown |
| StbExamples.RightJustified | rizzos/lib/stb_sprintf.h:1146-1193 | "%4d" shows -5 as "  -5" |
| StbExamples.LeftJustified | rizzos/lib/stb_sprintf.h:1146-1330 | "%-4d" shows -5 as "-5  " |
| StbExamples.ZeroPadded | rizzos/lib/stb_sprintf.h:1155-1169 | "%04d" shows -5 as "-005" |
| StbExamples.ThreeDigits | rizzos/lib/stb_sprintf.h:1146-1169 | "%.3i" shows -5 as "-005" |
| StbExamples.StarWidth | rizzos/lib/stb_sprintf.h:499-522 | "%*d" with 4 and -5 shows "  -5" |
| StbExamples.WithGroups | rizzos/lib/stb_sprintf.h:1087-1141 | "%'u" shows 1234567 as "1,234,567" |
| StbExamples.GroupedHex | rizzos/lib/stb_sprintf.h:1036-1048 | "%'x" shows 0x12345 as "1,2345" |
| StbExamples.SmallHex | rizzos/lib/stb_sprintf.h:1006-1014 | "%x" shows 255 as "ff" |
| StbExamples.CapitalHex | rizzos/lib/stb_sprintf.h:1006-1014 | "%#X" shows 255 as "0XFF" |
| StbExamples.PrefixedHex | rizzos/lib/stb_sprintf.h:1006-1014 | "%#x" shows 255 as "0xff" |
| StbExamples.OctalWithZero | rizzos/lib/stb_sprintf.h:990-998 | "%#o" shows 8 as "010" |
| StbExamples.BinaryFive | rizzos/lib/stb_sprintf.h:978-988 | "%#b" shows 5 as "0b101" |
| StbExamples.NullString | rizzos/lib/stb_sprintf.h:587-601 | "%s" shows the null pointer as "null" |
| StbExamples.Letter | rizzos/lib/stb_sprintf.h:603-613 | "%c" shows 65 as "A" |
| StbExamples.Percentage | rizzos/lib/stb_sprintf.h:349-1355 | "up %d%%" with 5 shows "up 5%" |

## Left out

What the models take as given or do not capture:

- PageTableManagers.CreateIndexer: the source stores the indices through a null pointer (rizzos/src/paging/page_map_indexer.c:4); the model returns them.
- PageTableManagers.PageTableManager.MapMemory: asks for as many clear frames as the walk lacks tables, because the source does not check for the null answer of a request, and that none of them holds the bit set, because the source does not keep them apart. The model has a frame for each bit, also for the few past the end of memory; whether calls stay out of those is what MapRuns.BudgetSuffices and HeapPages.FreshPageApart say with PastMemory as the range.
- MapRuns.RunKeepsInv: runs in which someone frees the frame of a table, writes into a table or the bit set, maps without enough clear frames or maps with a new table on the bit set are excluded; the source does not prevent them.
- PageFrameAllocators.PageFrameAllocator.LockPage: like every operation of the allocator it may not name the one frame whose index is the number of bits; there the source changes the byte behind the set (Bitmaps.Bitmap.Set) and the counters.
- Bitmaps.Bitmap.Get: past the buffer the source reads memory that is not part of this model; the answer is arbitrary.
- Bitmaps.Bitmap.Set: for the one index that equals the number of bits it asks that memory has a byte behind the set.
- PageFrameAllocators.PageFrameAllocator.InitEfiMemoryMap: no range that is named may hold the frame whose index is the number of bits, and the address of the variable g_pageBitmap.buffer is a parameter.
- Kernels.InitializeMemory: ends before the write to CR3; addresses are below 2^48, and the requests of boot must find their frames inside memory and pass the bit set by, without which the source breaks as KernelExamples.BootOverwritesStorage and KernelExamples.BootLeavesMemory show.
- HeapRuns.RunKeepsHeap: like all runs it asks that requests pass a range of frames by; that of the bit set and that past the end of memory are two uses of it, not one statement about both.
- Heaps.Heap.Malloc: what lies at address 0 before the write through a null successor is not modelled, as nothing reads it; no claim is made over runs of MEM_Malloc and MEM_Free, as splitting breaks the tiling.
- Heaps.Heap.ExpandHeap: the headers are kept by address, apart from the frames that the heap's pages are mapped to; the heap stays below 2^48 and its frames off the bit set.
- TableHeaders.TableHeader.SetCrcAltSize: the size must lie inside the header's memory; the debug messages of the check are not modelled.
- Crcs.CalculateCrc: the register has 32 bits, as only those of the source's UINTN are ever set.
- MetaMatches.MetaMatch: an opened set must be closed, as the source otherwise reads past the end of the pattern.
- StbDecimals.ConvertInteger: looks at the place before the character when it drops a leading zero; for zero with commas the source reads one character past its buffer first. The comma is the default one; `set_separators` is not modelled.
- StbRoundings.RoundToText: the 64 significant bits and the power of ten are inputs; the double-double arithmetic that produces them is left out, as is zero, NaN and infinity.
- StbFormats.ReadSize: widths and precisions given by digits beyond a C `int` have no meaning here, because the source overflows.
- StbPrints.ConvertBits: a precision of 512 or more is excluded, because the source overflows its 512-byte buffer.
- StbPrints.Vsprintfcb: %a, %e, %f, %g, %n, metric suffixes on integers, a format that ends in a lone '%', and arguments of the wrong kind have no meaning (Render is none for them); the callback never answers null; the running lengths are unbounded numbers; without a callback the buffer is long enough, as the caller of vsprintf must see to.
- StbPrints.Vsnprintf: a count of at least one.
- StbTexts.DirectiveShown: says nothing of a comma flag together with padding zeros, where StbFields.PaddedCommas tells the places of the commas, of comma flags on pointers, characters and strings, and of arguments out of the range of their type.

Code that repeats itself is modelled once: the three levels of `PTM_MapMemory`, the
digit loops of the two number printers, the loops over leading spaces, the padding
loops of `stb_sprintf.h`, and the two mapping loops of the kernel are one helper each.

What the repository has and the model does not, because it is hardware plumbing, user
interface, firmware calls or one-step facts:

- AHCI, PCI, PIT, PIC, port I/O, keyboard, mouse, screen drawing, panic screens.
- GDT, IDT and ACPI tables, interrupt handlers.
- UEFI services, protocol headers, sample applications and the boot loader's own file reading.
- The device path, boot-sector and console routines of gnu-efi, and its `Print` formats around the number printers.
- The floating-point half of `stb_sprintf.h`.
