# MandelbrotOS kernel core, modelled and proved in Dafny

This project models the state-heavy parts of the MandelbrotOS kernel and proves what
they keep over whole runs. `dafny verify dfyconfig.toml` checks everything. Code that
updates globals, headers, tables or buffers in place is a class with methods; each
method is tied by its contract to a specification function or predicate, and the
theorems are proved about those.

**Heap** (`HeapLayout`, `HeapLinks`, `HeapBets`, `HeapObjects`, `Liballoc`). The allocator's state is
its globals, the fields of the 40-byte major and minor headers by address, and the bytes of
memory; storing a header writes its bytes. A ghost *layout* (blocks with
address-ordered chunks) is what the headers mean: `Heap.Valid()` says that every header,
link, usage count, total, root, magic number and alignment tag is exactly the one the
layout calls for, that memory holds every major header and every live minor header byte for
byte, that every listed major holds a chunk, and that the best bet is null or a listed major. `Heap.constructor`
establishes it and every operation keeps it. On top of it, `HeapObjects` reads the heap as a table from live pointers to byte strings,
`Heap.Serve` proves each call to be one step on that table, and `Heap.Run` proves that every
client and page source lead through a run of such steps.

**Page tables** (`Pmm`, `PageTables`, `Vmm`). Frames hold 512 entries; a ghost *shape*
records which frames are tables, at which level, and the one slot that owns each. Any run
of create, map, unmap and lookup calls is proved to give what a flat map from
(pagemap, page) to the last entry written would give, to take exactly the frames of the tables
it adds, and to stop only when no frame is free.

**Scheduler** (`SchedClock`, `SchedModel`, `SchedSafety`, `SchedFairness`, `Scheduler`).
A transition system over any number of CPUs, priority levels and threads. `Scheduler` is
the imperative form and each of its methods equals a step of the transition system.

**Disk** (`BlockDevice`, `FatLayout`, `Fat32`, `LongNames`, `FatNames`, `NameSearch`), **clock** (`Calendar`),
**descriptors** (`Descriptors`) and the **TGA reader** (`Tga`, and `TgaFile` for the files it reads).

## Where the code departs from the obvious theorem

* `allocate_new_page` computes sizes in 32 bits. A new major holds the request it was
  made for exactly when `size + 80 <= 0xFFFFF000` (`NewMajorHoldsIff`). Above that bound no
  valid block fits either (`OversizeFitsNowhere`), so the search always ends in CASE 1 with a
  new major whose recorded size is too small and falls through to CASE 2, which places the
  chunk without looking. `malloc` and `realloc` are stated below the bound.
* `free` and `realloc` trust the four bytes where a header's magic number would be. Every live
  pointer is accepted (`LiveMagic`); any other is rejected exactly when those bytes are not the
  magic number (`Free`, `FreeingOf`). A caller that stores the number at the start of its own
  object and frees 16 bytes past it has that pointer taken for a chunk's (`ForgedInObject`);
  what the code does then is not modelled.
* `realloc` copies without testing what `malloc` gave it. The copy goes to address 0 exactly
  when a larger chunk is needed, no gap holds it and the page source fails (`Realloc`).
* `init_pmm` rounds the frame count down to whole bytes before it rounds up to whole pages.
  Every frame has a bit exactly when the frame count mod 32768 is 0 or at least 8
  (`BitmapCoversIff`); with 32769 frames the last one has none (`FrameWithoutBit`).
* `pmalloc` tests the first frame of a run only. The run it takes was free exactly when no
  later frame of it was in use (`Pmalloc`, `RunWasFreeIff`); for the single frames the page
  tables ask for that is always so. With frame 1 free and frame 2 in use it takes both for a
  request of two (`TakesUsedFrame`). It marks frames past the bitmap when the run leaves it.
* `schedule` advances the priority counter before a pick that may fail, so its later
  "same priority and same index" test can be wrong. One tick keeps mutual exclusion
  exactly when that test is right (`TickSafeIff`), a run from boot is safe throughout
  exactly when every tick's test is right (`SafeRunIff`), a six-tick run on two CPUs
  breaks it (`FailedPickBreaksExclusion`), and a condition on the enqueues alone rules
  that out (`EnoughThreadsSafe`).
* `fat_chain_cluster_length` reads whole clusters into a 512-byte buffer, so it, and
  `fat_set_dir_entry` and `fat_find` with it, runs past that buffer exactly when clusters are
  larger than a sector and the chain is not empty (`ScratchOverrun`).
* `fat_set_dir_entry` lets `index == count` through its range test and then stores past
  the buffer; the model reports that case as `PastBuffer` and specifies the others.
* `fat_find` takes a slot numbered 0x41 for the first slot, so it reads a name from its
  beginning exactly when there are at most 64 slots (`StartsAtZeroIff`, `CountsAllIff`).
* `fat_find` copies the component with an 8-bit position into a 256-byte buffer. For names of
  at most 64 slots, lookups of c-byte components against n-byte names are all right exactly
  when `n <= 246` and either `c < 256` or `c mod 256 != n` (`RightForShortNamesIff`;
  `RightForIff` gives the condition for every length). A 268-byte component is found under the
  name of its last twelve bytes (`WrongNameFound`).
* `fat_find` moves the path pointer back by the position in the short name, which a dot moves
  by something else than one. The long-name comparison starts at the component exactly when
  its first eleven characters hold no dot or its dots make up for each other (`RewindsIff`);
  with one dot that means the dot is the eighth character or comes after eleven (`OneDot`).
  A name such as `a.txt` in the root directory is read from before the path (`DottedNameLost`).
* `fat_find` frees the short name at the first long name that does not match and goes on
  comparing plain entries with its memory; what that holds is the parameter `stale`.
* `free` compares free bytes as signed ints: below 2 GiB the block with more becomes the best bet
  (`BetBySize`), but 2 GiB count for less than nothing (`BetMisjudged`).
* liballoc's three tests for an overrun come down to the lowest byte (`OverrunIff`).
* `tga_parse` computes `w * h + 2` in an int; larger pictures end in `Overflow`.
* The descriptor calls do not test that a descriptor lies in the table; `Close` and `Dup`
  answer `None` exactly when it does not.
* `F_DUPFD` takes a reference before looking for a slot and keeps it when none is free;
  reference counts therefore equal slots plus such leaked references, and a file can be
  released late but never early. Only those leaked references can push a count past the number
  of slots (`RefsBounded`).
* `strncmp` in the kernel compares all n bytes, past any zero; the model follows it.
* `rtc_get_datetime` subtracts 1900 from the year but `rtc_mktime` needs the calendar
  year; `Calendar` takes the calendar year, as a FAT directory entry supplies it.

## Assumed of the surroundings

* The page source (`liballoc_alloc_pages`) is the parameter `run`: a run of pages that no
  listed major overlaps, or NULL. The kernel's own source halts instead of returning NULL.
* Every frame has a bit in the bitmap (`FrameBitmap.Valid`), which `BitmapCoversIff` says of all
  but some memory sizes.
* Physical frame 0 is in use from the start. A `false` result of a `Vmm` method stands for
  the kernel halting because no frame is free.
* Disk accesses lie on the disk, and a cluster chain reaches an end mark.
* A file's `ref_count` is an int, here an unbounded natural: by `RefsBounded` it reaches 2^31 only
  if the slots of all processes and the references leaked by failing `F_DUPFD` calls do together.
* The scheduler lock makes a tick atomic; a tick that finds it taken changes nothing.

## Model

| member | source | states |
|---|---|---|
| HeapLayout.AlignPointer | src/kernel/mm/liballoc.c:21-31 | the pointer is 16-aligned and between 16 and 31 bytes past the payload start, so the tag byte fits below it |
| HeapLayout.GapsSumToFree | src/kernel/mm/liballoc.c:291-304 | the gaps of a block, however its chunks lie, add up to exactly `size - usage` |
| HeapLayout.SkipIsJustified | src/kernel/mm/liballoc.c:301-331 | CASE 1, which looks at the free byte count alone, never skips a block that has a fitting gap |
| HeapLayout.InsertValid | src/kernel/mm/liballoc.c:338-484 | a chunk put at the start of a gap that holds it keeps the block ordered, disjoint and inside its bounds |
| HeapLayout.ReleaseValid | src/kernel/mm/liballoc.c:594-634 | releasing a chunk keeps the layout well formed with no empty block, and lowers the in-use and allocated totals by exactly its size and its dropped block |
| HeapLayout.NewMajorPagesLeast | src/kernel/mm/liballoc.c:162-179 | for every size, the page count is the least that is at least 16 and holds the request with both headers, as far as these fit 32 bits |
| HeapLayout.NewMajorHoldsIff | src/kernel/mm/liballoc.c:162-199 | a new major holds its request exactly when the request with headers is at most 0xFFFFF000 bytes |
| HeapLayout.OversizeFitsNowhere | src/kernel/mm/liballoc.c:301-331 | a request above the bound fits no gap of any valid block |
| HeapLayout.NewBlockIff | src/kernel/mm/liballoc.c:494-512 | first fit asks for a new block exactly when no gap of any block fits |
| HeapLayout.OversizeRequestShowsNewMajorTooSmall | src/kernel/mm/liballoc.c:162-199 | a concrete request just below 4 GiB gets a 64 KiB major |
| HeapLinks.InsertRepresents | src/kernel/mm/liballoc.c:338-484 | the three or four pointer stores of each placement case turn the image of a layout into the image of the layout with the chunk added |
| HeapLinks.DeleteRepresents | src/kernel/mm/liballoc.c:594-609 | the unlinking stores of free turn the image of a layout into the image without the chunk |
| HeapLinks.AppendRepresents | src/kernel/mm/liballoc.c:324-328 | linking a fresh major last yields the image of the longer layout |
| HeapLinks.DropRepresents | src/kernel/mm/liballoc.c:613-625 | unlinking an emptied major, first, last or between others, yields the image of the shorter layout |
| HeapLinks.HeaderIffLive | src/kernel/mm/liballoc.c:554-587 | the allocator has a header with the magic number at an address if and only if a live chunk starts there, and then it is that chunk's header |
| HeapLinks.MagicRead | src/kernel/mm/liballoc.c:55-78 | the four bytes at offset 24 of a header in memory read back as its magic number |
| HeapLinks.LiveMagic | src/kernel/mm/liballoc.c:554-554 | memory spells the magic number in every live header, so free and realloc accept every live pointer |
| HeapLinks.MinorStoreMarks | src/kernel/mm/liballoc.c:338-484 | storing one minor header leaves every other live header in memory, byte for byte |
| HeapLinks.MajorStoreMarks | src/kernel/mm/liballoc.c:192-199 | storing one major header leaves every other header in memory, byte for byte |
| HeapLinks.BlockRead | src/kernel/mm/liballoc.c:53-62 | a listed major read from memory at the structure's offsets: its neighbours in the list, pages, size, used bytes and first chunk |
| HeapLinks.ChunkRead | src/kernel/mm/liballoc.c:68-78 | a live chunk read from memory at the structure's offsets: its neighbours, its block, the magic number and both sizes |
| HeapLinks.UnalignBack | src/kernel/mm/liballoc.c:33-39 | UNALIGN undoes ALIGN for every base, and goes back by less than 32 bytes whatever the tag byte is |
| HeapLinks.ForgedPointer | src/kernel/mm/liballoc.c:547-554 | the magic number's bytes sixteen bytes below a pointer that leads to no live chunk make free take it for a chunk's |
| HeapLinks.ForgedInObject | src/kernel/mm/liballoc.c:547-554 | a caller of any live chunk of four bytes or more can make such a pointer with stores inside its own range |
| HeapLinks.FreedFrom | src/kernel/mm/liballoc.c:547-552 | any pointer that unaligns to a live payload, not only the one malloc gave out, leads free to that chunk |
| HeapLinks.UnalignRecovers | src/kernel/mm/liballoc.c:33-39 | UNALIGN on a live pointer gives back the payload address of the chunk malloc made |
| HeapLinks.OwnedStore | src/kernel/mm/liballoc.c:21-39 | any writes inside one caller's range keep the whole heap image, tags included, and every other payload |
| HeapLinks.PointerSafe | src/kernel/mm/liballoc.c:338-484 | every live pointer is positive, 16-aligned and inside its own payload; its range meets no header, no tag and no other live range |
| HeapLinks.PlaceThenRelease | src/kernel/mm/liballoc.c:291-517 | releasing what malloc placed gives back the exact layout, in every placement case and for a new major |
| HeapLinks.PlacedValid | src/kernel/mm/liballoc.c:291-517 | wherever first fit places the request, the new layout is well formed |
| HeapLinks.PlacedIsNew | src/kernel/mm/liballoc.c:291-517 | the placed chunk was not live before |
| HeapLinks.ReleasedNotLive | src/kernel/mm/liballoc.c:594-634 | after a release nothing is live at the chunk's address |
| HeapLinks.MoveKeepsOthers | src/kernel/mm/liballoc.c:730-732 | malloc, the copy and free together leave every other live payload as it was |
| HeapLinks.CopyArrived | src/kernel/mm/liballoc.c:730-732 | the copied bytes are still in the new chunk after the old one is released |
| HeapBets.BetOverIs | src/kernel/mm/liballoc.c:291-299 | the best bet stays exactly when no block looked at has more free bytes, otherwise it is the first that has the most |
| HeapBets.BetBySize | src/kernel/mm/liballoc.c:628-634 | below 2 GiB free the block that lost a chunk becomes the best bet exactly when it has more free bytes |
| HeapBets.BetMisjudged | src/kernel/mm/liballoc.c:628-634 | a block with 2 GiB free loses to one with nothing free |
| HeapObjects.ShownSpaced | src/kernel/mm/liballoc.c:214-531 | live pointers are positive, 16-aligned and own pairwise disjoint ranges |
| HeapObjects.MallocShows | src/kernel/mm/liballoc.c:338-484 | placing a chunk shows as one new object at a pointer that was not live; every other object keeps its bytes |
| HeapObjects.FreeShows | src/kernel/mm/liballoc.c:594-634 | releasing a chunk shows as its object gone and every other object unchanged |
| HeapObjects.ShrinkShows | src/kernel/mm/liballoc.c:719-725 | lowering the requested size shows as a prefix of the object at the same pointer |
| HeapObjects.GrowShows | src/kernel/mm/liballoc.c:730-732 | malloc, copy and free show as the object moved to a new pointer with its old bytes in front |
| HeapObjects.WriteShows | src/kernel/mm/liballoc.c:21-39 | a caller's store inside its range changes that byte of that object only |
| HeapObjects.UntouchedObject | src/kernel/mm/liballoc.c:214-735 | in any run, an object no call names is still live with the same bytes |
| HeapObjects.ByteSurvives | src/kernel/mm/liballoc.c:214-735 | in any run, a byte keeps its value through any number of moving reallocs until its object is freed or cut short or the byte is stored to |
| Liballoc.OverrunIff | src/kernel/mm/liballoc.c:557-560 | an overrun is counted exactly when the lowest byte is that of the magic number |
| Liballoc.Heap.constructor | src/kernel/mm/liballoc.c:80-95 | the zeroed globals are a valid heap with no blocks and no live objects |
| Liballoc.Heap.Align | src/kernel/mm/liballoc.c:21-31 | the tag holds the distance moved and no live payload byte changes |
| Liballoc.Heap.PlaceInEmpty | src/kernel/mm/liballoc.c:338-362 | CASE 2 adds the chunk to an empty block; image kept, no live byte changes |
| Liballoc.Heap.PlaceInFront | src/kernel/mm/liballoc.c:369-399 | CASE 3 adds the chunk before the first one; image kept, no live byte changes |
| Liballoc.Heap.PlaceAtEnd | src/kernel/mm/liballoc.c:411-445 | CASE 4.1 adds the chunk after the last one; image kept, no live byte changes |
| Liballoc.Heap.PlaceBetween | src/kernel/mm/liballoc.c:448-485 | CASE 4.2 adds the chunk between two others; image kept, no live byte changes |
| Liballoc.Heap.PlaceAfterMinor | src/kernel/mm/liballoc.c:405-488 | the walk over the minors places in the first gap behind a chunk that holds the request, or shows that no gap of the block does |
| Liballoc.Heap.PlaceInBlock | src/kernel/mm/liballoc.c:335-488 | CASES 2 to 4 place in the first fitting gap of the block, or show there is none |
| Liballoc.Heap.AllocateNewPage | src/kernel/mm/liballoc.c:162-212 | the new major's header fields, the allocated total and the warning count, for success and failure |
| Liballoc.Heap.StartList | src/kernel/mm/liballoc.c:244-262 | an empty heap gets one empty block, or stays empty when no pages are to be had |
| Liballoc.Heap.ExtendList | src/kernel/mm/liballoc.c:323-328 | an empty block is linked last, or nothing changes when no pages are to be had |
| Liballoc.Heap.Search | src/kernel/mm/liballoc.c:291-517 | the loop terminates (bet restart, remaining majors, fresh block) and its result is the first fit in search order; a new major is asked for only when no gap of any listed major fits |
| Liballoc.Heap.Malloc | src/kernel/mm/liballoc.c:214-531 | keeps the heap valid; first fit from the best bet round; NULL exactly when nothing fits and the page source fails; no live byte changes; the best bet left is the block looked at with the most free bytes, if more than the old one's |
| Liballoc.Heap.Unlink | src/kernel/mm/liballoc.c:594-609 | the chunk leaves its block; image kept, no live byte changes, and its header reads dead |
| Liballoc.Heap.DropMajor | src/kernel/mm/liballoc.c:613-625 | the emptied block leaves the list; root, best bet and totals follow; no byte of the block changes |
| Liballoc.Heap.Reclaim | src/kernel/mm/liballoc.c:613-634 | an emptied block is dropped, otherwise only the best bet may change; it changes to the block if that has more free bytes, or to none if the dropped block was it |
| Liballoc.Heap.Free | src/kernel/mm/liballoc.c:533-642 | for any pointer: released exactly when it leads to a live chunk, otherwise rejected with an error counted or taken as forged, exactly by the bytes in memory; heap stays valid and no payload changes; which block is the best bet afterwards |
| Liballoc.Heap.FreeLive | src/kernel/mm/liballoc.c:594-634 | the part after the magic test releases exactly that chunk, changes no payload and leaves the header dead |
| Liballoc.Heap.UserStore | src/kernel/mm/liballoc.c:21-39 | a store inside an owned range keeps the heap valid |
| Liballoc.Heap.Memcpy | src/kernel/mm/liballoc.c:106-126 | the word loop and the tail loop together are a byte copy and change nothing else |
| Liballoc.Heap.Shrink | src/kernel/mm/liballoc.c:719-725 | only the requested size of that chunk changes |
| Liballoc.Heap.Grow | src/kernel/mm/liballoc.c:727-734 | the old chunk is replaced by a first-fit larger one holding its bytes, or malloc fails; every other payload is kept |
| Liballoc.Heap.Realloc | src/kernel/mm/liballoc.c:657-735 | the outcome for every pointer, size and page source: zero size, null, stale, forged or live pointer, a size that fits and a larger one; bytes up to the smaller request survive |
| Liballoc.Heap.ServeMalloc | src/kernel/mm/liballoc.c:214-531 | malloc adds one object at a pointer that was not live and changes no other |
| Liballoc.Heap.ServeFree | src/kernel/mm/liballoc.c:533-642 | free removes exactly the object at the pointer |
| Liballoc.Heap.ServeRealloc | src/kernel/mm/liballoc.c:657-735 | realloc keeps the common prefix, at the old pointer or at one that was not live, and changes no other object |
| Liballoc.Heap.Serve | src/kernel/mm/liballoc.c:214-735 | every call is one step on the table of live objects, whose ranges stay disjoint and aligned; a new object is refused exactly when no gap holds it and there are no pages |
| Liballoc.Heap.Run | src/kernel/mm/liballoc.c:214-735 | for every client that passes live pointers and every page source that keeps its promise, the calls lead through a run of object tables and the heap shows the last one; with a source that never fails every new object is granted |
| HeapObjects.PromisingSource | src/kernel/mm/liballoc.c:181-181 | some page source keeps its promise to every client, so such runs exist |
| Liballoc.Heap.RelinkMinors | src/kernel/mm/liballoc.c:599-604 | the stores to the dead chunk and its neighbours yield the headers without it |
| Liballoc.Heap.RelinkMajors | src/kernel/mm/liballoc.c:619-622 | the stores to the neighbouring majors yield the headers without the block and touch no byte of it |
| Liballoc.Heap.MallocThenFree | src/kernel/mm/liballoc.c:291-634 | free releases what malloc placed by first fit and undoes it: layout, root, in-use and allocated totals and every live byte are as before |
| Liballoc.Heap.FreeTwice | src/kernel/mm/liballoc.c:554-587 | a second free of the same pointer, even after its block was dropped, is rejected, counted and changes no chunk |
| Pmm.MaskShifts | src/kernel/mm/pmm.c:13-15 | bit k of a byte is 1 shifted left k times |
| Pmm.BitAlgebra | src/kernel/mm/pmm.c:13-15 | setting or clearing a bit of a byte changes that bit and no other |
| Pmm.BitmapCoversIff | src/kernel/mm/pmm.c:93-93 | the bitmap has a bit for every frame exactly when the frame count mod 32768 is 0 or at least 8 |
| Pmm.FrameWithoutBit | src/kernel/mm/pmm.c:93-93 | with 32769 frames the last one has no bit |
| Pmm.FrameBitmap.constructor | src/kernel/mm/pmm.c:93-106 | the bitmap has the computed size and every bit of it is set; when every frame has one |
| Pmm.FrameBitmap.SetBit | src/kernel/mm/pmm.c:13-13 | the set of used frames gains exactly that frame |
| Pmm.FrameBitmap.FreePage | src/kernel/mm/pmm.c:22-26 | the set of used frames loses exactly that frame |
| Pmm.FrameBitmap.Pmalloc | src/kernel/mm/pmm.c:44-63 | for any page count: halts exactly when the count is 0 or no frame is free, otherwise takes the run from the lowest free frame on or runs past the bitmap; the run was wholly free exactly when no frame behind its first was in use |
| Pmm.FrameBitmap.AllocPages | src/kernel/mm/pmm.c:39-42 | the used frames gain exactly the run |
| Pmm.RunWasFreeIff | src/kernel/mm/pmm.c:47-56 | for any run that starts free, the count of used frames grows by its length exactly when no frame behind the first was in use |
| Pmm.TakesUsedFrame | src/kernel/mm/pmm.c:47-56 | with frame 1 free and frame 2 in use, the run of two from the lowest free frame is 1 and 2 |
| PageTables.PathDigits | src/kernel/mm/vmm.c:43-46 | the four indices are the digits of the page number in base 512, the top-level one first |
| PageTables.UpperIsHigh | src/kernel/mm/vmm.c:43-46 | the shared top-level slots are those of the upper half of the 48-bit addresses |
| PageTables.NothingMissingIff | src/kernel/mm/vmm.c:19-30 | no table is missing on a path exactly when it reaches a level-1 table |
| PageTables.OrBit | src/kernel/mm/vmm.c:53-53 | an entry's bits are those of the address and of the flags |
| PageTables.PathIsPage | src/kernel/mm/vmm.c:43-46 | two addresses take the same four indices exactly when they lie in the same page of the 48-bit space |
| PageTables.LeafInjective | src/kernel/mm/vmm.c:48-51 | two walks that end in the same level-1 table came down the same slots, from the same pagemap or through the shared upper half |
| PageTables.WalkAfterStore | src/kernel/mm/vmm.c:48-53 | a level-1 store shows at exactly the walks that end in that slot |
| PageTables.StoreIsFlatUpdate | src/kernel/mm/vmm.c:48-53 | for any two pagemaps and pages, a store is a flat map update: the same slot sees it and nothing else does |
| PageTables.LinkKeepsTree | src/kernel/mm/vmm.c:25-28 | hanging a zeroed unused frame keeps the one-owner tree |
| PageTables.WalkAfterLink | src/kernel/mm/vmm.c:25-28 | hanging an empty table changes no walk of any pagemap |
| PageTables.SharedLeaf | src/kernel/mm/vmm.c:160-161 | all pagemaps reach the same level-1 table for an upper-half path |
| PageTables.TopKeepsTree | src/kernel/mm/vmm.c:151-166 | a new top-level frame with the kernel's upper half keeps the tree |
| PageTables.NewTopWalks | src/kernel/mm/vmm.c:151-166 | a new pagemap translates nothing below and what the kernel's does above; no other pagemap changes |
| PageTables.OrPageFlags | src/kernel/mm/vmm.c:53-53 | or-ing flags below 4096 into an aligned address keeps the frame number and the present bit |
| PageTables.MappedAddress | src/kernel/mm/vmm.c:91-94 | a lookup answers the mapped address exactly when the present flag was given |
| PageTables.UpperEntryShared | src/kernel/mm/vmm.c:160-161 | the flat map of a run gives all pagemaps the same upper half |
| PageTables.OnlyMatters | src/kernel/mm/vmm.c:39-78 | in the flat map of a run, calls on other pagemaps can be dropped for a lower-half path |
| PageTables.BootIs | src/kernel/mm/vmm.c:253-259 | what the mapping loops of init_vmm leave for each page: memory below 4 GiB at its own address and at the physical offset, the kernel image, nothing else |
| PageTables.NothingBeforeCreation | src/kernel/mm/vmm.c:151-166 | a pagemap not yet created has no lower-half entry |
| Vmm.Vmm.constructor | src/kernel/mm/vmm.c:16-17 | memory before set-up holds no tables |
| Vmm.Vmm.Pcalloc | src/kernel/mm/pmm.c:65-74 | a zeroed frame that was free and is now in use, exactly when some frame is free |
| Vmm.Vmm.GetNextLevel | src/kernel/mm/vmm.c:19-30 | the child table, added if missing; no translation of any pagemap changes and no present entry is rewritten; a new entry carries flags 7, and the halt comes exactly when a table is missing and no frame is free |
| Vmm.Vmm.InitVmm | src/kernel/mm/vmm.c:247-264 | the kernel pagemap after the whole set-up holds exactly what the mapping loops last wrote; it halts only when no frame is free, and the frames taken are the tables made |
| Vmm.Vmm.StartKernel | src/kernel/mm/vmm.c:248-251 | a kernel pagemap whose 256 upper slots all have a table and which translates nothing |
| Vmm.Vmm.MapLow | src/kernel/mm/vmm.c:253-256 | the tables hold what the identity and physical-memory loop wrote |
| Vmm.Vmm.MapKernel | src/kernel/mm/vmm.c:258-259 | and what the kernel-image loop wrote |
| Vmm.Vmm.BootTranslation | src/kernel/mm/vmm.c:253-259 | the four-level walk of every address after the set-up, in closed form |
| Vmm.Vmm.CopyUpper | src/kernel/mm/vmm.c:160-161 | the copy loop fills the upper half and leaves the lower half zero |
| Vmm.Vmm.CreatePagemap | src/kernel/mm/vmm.c:151-166 | the new pagemap's translations, and that all others are unchanged; it halts exactly when no frame is free |
| Vmm.Vmm.Descend | src/kernel/mm/vmm.c:48-51 | three steps reach the path's level-1 table; no translation changes; it halts exactly when more tables are missing than frames are free |
| Vmm.Vmm.WriteEntry | src/kernel/mm/vmm.c:48-53 | exactly the pairs that share the slot see the new entry; it halts exactly when more tables are missing than frames are free, and the frames taken are the tables added |
| Vmm.Vmm.MapPage | src/kernel/mm/vmm.c:39-58 | the page maps to the given entry; every other page of every pagemap is as before; it halts exactly when more tables are missing than frames are free, and the frames taken are the tables added |
| Vmm.Vmm.UnmapPage | src/kernel/mm/vmm.c:60-78 | the page maps to nothing; every other page of every pagemap is as before; the halt and the frames taken as for MapPage |
| Vmm.Vmm.VirtToPhys | src/kernel/mm/vmm.c:80-95 | the mapped frame's address or 0; the tables it may add change no translation; the halt and the frames taken as for MapPage |
| Vmm.Vmm.Step | src/kernel/mm/vmm.c:39-166 | one call keeps the tables equal to the flat map of the run so far, and halts exactly when it needs more frames than are free |
| Vmm.Vmm.Run | src/kernel/mm/vmm.c:39-166 | after any run of create, map, unmap and lookup, on top of the set-up or any other run, every walk gives the entry last written for that page and every lookup answered it; it halts only when no frame is free, and the frames taken are exactly the tables added |
| Vmm.Vmm.ReachedNeedsNone | src/kernel/mm/vmm.c:48-51 | a map, unmap or lookup whose path already reaches a level-1 table needs no frame |
| Vmm.Vmm.UpperHalfShared | src/kernel/mm/vmm.c:160-161 | in every valid state all pagemaps translate every upper-half path alike |
| Vmm.Vmm.LowerHalfIsolated | src/kernel/mm/vmm.c:39-78 | two runs with the same calls on a pagemap leave it the same lower half, whatever they do with others |
| SchedClock.ProportionalShare | src/kernel/tasking/scheduler.c:328-336 | any L(L+1)/2 consecutive steps from any counter value visit level k exactly L-k times and return to that value |
| SchedClock.TurnOrder | src/kernel/tasking/scheduler.c:328-336 | the turns of a cycle come in the order 0, then 0 1, then 0 1 2, up to all levels |
| SchedClock.TriangleClosedForm | src/kernel/tasking/scheduler.c:328-336 | the cycle length is L(L+1)/2 |
| SchedClock.VisitAt | src/kernel/tasking/scheduler.c:328-336 | the v-th visit to a level happens at a definite turn |
| SchedModel.SkipTerminates | src/kernel/tasking/scheduler.c:328-336 | with a thread anywhere the do-while loop stops within one cycle, at the first level that has a thread |
| SchedModel.ScanIff | src/kernel/tasking/scheduler.c:173-193 | the thread picked is the next eligible one counting round the level from the saved index, and none is picked exactly when no thread of the level is eligible |
| SchedModel.TickReady | src/kernel/tasking/scheduler.c:325-341 | at the pick the level has threads and the saved index is in range |
| SchedSafety.TickValid | src/kernel/tasking/scheduler.c:314-378 | a tick keeps saved indices in range and touches no thread vector and no other CPU |
| SchedSafety.TickSafeIff | src/kernel/tasking/scheduler.c:343-363 | from a safe state one tick is safe if and only if its same-thread test is right |
| SchedSafety.AlignedJudges | src/kernel/tasking/scheduler.c:350-356 | a CPU whose saved position points at the thread it runs judges right |
| SchedSafety.TickAligned | src/kernel/tasking/scheduler.c:343-363 | a tick keeps saved positions accurate unless its pick fails while a thread is running |
| SchedSafety.EnqueueKeeps | src/kernel/tasking/scheduler.c:55-62 | an enqueue keeps safety, saved positions and validity |
| SchedSafety.MutualExclusion | src/kernel/tasking/scheduler.c:314-378 | in every run from boot with no failed pick on a running CPU, each thread is current on at most one CPU and locked exactly while current |
| SchedSafety.SafeRunIff | src/kernel/tasking/scheduler.c:314-378 | a run from boot is safe at every step if and only if every tick's same-thread test is right |
| SchedSafety.EnoughThreadsNeverFails | src/kernel/tasking/scheduler.c:173-193 | with as many threads as CPUs in every non-empty level no pick fails |
| SchedSafety.EnoughThreadsSafe | src/kernel/tasking/scheduler.c:314-378 | if the enqueues alone give every non-empty level that many threads by each tick, every interleaving is safe throughout |
| SchedSafety.FailedPickBreaksExclusion | src/kernel/tasking/scheduler.c:343-356 | six ticks from boot with two threads on two CPUs put one thread on both CPUs |
| SchedFairness.SoloTick | src/kernel/tasking/scheduler.c:314-378 | on one CPU a tick dispatches exactly the next thread of the level |
| SchedFairness.TickIsTurns | src/kernel/tasking/scheduler.c:328-363 | a tick is the turns its skip loop takes, of which only the last dispatches |
| SchedFairness.LastRotates | src/kernel/tasking/scheduler.c:173-193 | each visit to a level moves its saved index one place on and nothing else moves it |
| SchedFairness.StarvationBound | src/kernel/tasking/scheduler.c:328-363 | on one CPU every thread of a level of n threads is dispatched within n visits to the level and n L(L+1)/2 turns of the counter |
| SchedFairness.SoloReached | src/kernel/tasking/scheduler.c:314-378 | every state with a thread that a one-CPU run from boot reaches meets the bound's hypotheses |
| SchedFairness.NoStarvation | src/kernel/tasking/scheduler.c:314-378 | after any one-CPU run from boot every thread is dispatched within the bound |
| Scheduler.Scheduler.constructor | src/kernel/tasking/smp.c:37-39 | the boot state of the transition system |
| Scheduler.Scheduler.EnqueueThread | src/kernel/tasking/scheduler.c:55-62 | equals the enqueue step; a queued thread is not added again |
| Scheduler.Scheduler.GetNextThread | src/kernel/tasking/scheduler.c:173-193 | finds the next eligible thread counting round the level from the saved index, or none when there is none, and which lock it takes |
| Scheduler.Scheduler.NextLevel | src/kernel/tasking/scheduler.c:328-336 | the loop ends at the counter value of the transition system |
| Scheduler.Scheduler.Schedule | src/kernel/tasking/scheduler.c:314-378 | equals one tick of the transition system, or nothing when the scheduler lock is taken |
| BlockDevice.ReadModifyWrite | src/kernel/dev/device.c:84-88 | changing part of a block read aside and writing it back changes that part of the disk only |
| BlockDevice.BlockDevice.ReadHead | src/kernel/dev/device.c:31-48 | the bytes up to the next block boundary, or all of them |
| BlockDevice.BlockDevice.ReadRest | src/kernel/dev/device.c:50-70 | whole blocks and the tail complete the range |
| BlockDevice.BlockDevice.DeviceRead | src/kernel/dev/device.c:29-72 | for every block size, offset and count the buffer receives exactly the bytes in range |
| BlockDevice.BlockDevice.WriteHead | src/kernel/dev/device.c:81-98 | the bytes up to the next block boundary, or all of them |
| BlockDevice.BlockDevice.WriteRest | src/kernel/dev/device.c:100-121 | whole blocks and the tail complete the range |
| BlockDevice.BlockDevice.DeviceWrite | src/kernel/dev/device.c:79-123 | exactly the bytes in range change, to those of the buffer |
| BlockDevice.BlockDevice.RunIo | src/kernel/dev/device.c:29-123 | any sequence of reads and writes behaves like slices of one flat byte array |
| FatLayout.ClustersApart | src/kernel/fs/fat32.c:16-28 | different clusters occupy different bytes |
| FatLayout.EntryInSector | src/kernel/fs/fat32.c:30-43 | the entry read from its sector is the entry at its byte address on the volume |
| FatLayout.ChainUnique | src/kernel/fs/fat32.c:53-59 | a first cluster has at most one chain |
| FatLayout.ChainDistinct | src/kernel/fs/fat32.c:53-59 | a chain that reaches its end never visits a cluster twice |
| FatLayout.ChainFollowsFat | src/kernel/fs/fat32.c:30-43 | a chain depends on the bytes before the first cluster only |
| FatLayout.StoreKeepsOutside | src/kernel/fs/fat32.c:212-218 | a store along a chain changes no byte off the chain |
| FatLayout.StoreThenLoad | src/kernel/fs/fat32.c:212-218 | reading back what was stored along distinct clusters gives the stored bytes |
| FatLayout.ChainRoundTrip | src/kernel/fs/fat32.c:203-218 | writing along a chain and reading it back is the identity; the chain, the boot record, the FATs and every other cluster are unchanged |
| FatLayout.NextReads | src/kernel/fs/fat32.c:30-43 | the entry of a cluster is the little-endian number at byte 512 times the reserved sectors plus 4 times the cluster, its top four bits cleared |
| FatLayout.EndMarkEnds | src/kernel/fs/fat32.c:53-59 | a chain ends after a cluster exactly when that number is 0, 1 or an end mark |
| Fat32.FatVolume.GetNextCluster | src/kernel/fs/fat32.c:30-43 | the FAT entry of the cluster |
| Fat32.FatVolume.ReadCluster | src/kernel/fs/fat32.c:45-51 | the buffer receives the cluster's bytes; the next cluster is returned |
| Fat32.FatVolume.ReadClusterChain | src/kernel/fs/fat32.c:53-59 | the buffer receives the chain's bytes in order |
| Fat32.FatVolume.ChainLength | src/kernel/fs/fat32.c:61-73 | the number of clusters, or the overrun of the 512-byte buffer exactly when clusters are larger than a sector and the chain is not empty |
| Fat32.FatVolume.WriteCluster | src/kernel/fs/fat32.c:203-210 | the cluster receives the buffer's bytes; the next cluster is read after the write |
| Fat32.FatVolume.WriteClusterChain | src/kernel/fs/fat32.c:212-218 | the chain's clusters receive the buffer in order and nothing else changes |
| Fat32.FatVolume.SetDirEntry | src/kernel/fs/fat32.c:220-243 | exactly when the scratch buffer is overrun and which indices are ignored, stored past the buffer, or stored; and the disk after a store |
| Fat32.SlotStored | src/kernel/fs/fat32.c:220-243 | storing one slot along the directory's chain changes that slot and no other |
| LongNames.FillField | src/kernel/fs/fat32.c:906-917 | one inner loop writes the next characters, one terminator, then padding |
| LongNames.EncodeSlot | src/kernel/fs/fat32.c:904-947 | a slot holds its thirteen units and its number |
| LongNames.CountSlots | src/kernel/fs/fat32.c:320-325 | counts up to the first slot that looks like number one, or leaves the directory exactly when there is none |
| LongNames.Assemble | src/kernel/fs/fat32.c:327-345 | byte k comes from unit k mod 13 of the matching slot, from the last stored to the first |
| LongNames.DecodesToName | src/kernel/fs/fat32.c:327-345 | decoding what was encoded gives the name, a terminator and 0xff padding, for bytes above 0x7f too |
| LongNames.Collision | src/kernel/fs/fat32.c:955-958 | slot 65 of a longer name carries the number 0x41 |
| LongNames.CountsAllIff | src/kernel/fs/fat32.c:320-325 | the slot count is right if and only if the name has at most 64 slots |
| LongNames.StartsAtZeroIff | src/kernel/fs/fat32.c:320-325 | fat_find reads a name from its beginning if and only if it has at most 64 slots |
| LongNames.ScanStops | src/kernel/fs/fat32.c:320-325 | the slot at which the scan stops, for a name of any length and whatever lies around it |
| LongNames.SeenDecodes | src/kernel/fs/fat32.c:327-345 | the slots counted hold the part of the name behind that slot, a terminator and padding |
| LongNames.BuildPathName | src/kernel/fs/fat32.c:349-366 | the component stored with an 8-bit position, a zero and 0xff padding; overruns exactly when the slots need more than 256 bytes |
| LongNames.Strncmp | src/kernel/string/string.c:34-41 | zero exactly when the first n bytes agree, zeros included |
| LongNames.AgreesIff | src/kernel/fs/fat32.c:349-370 | below 256 bytes the padded component agrees with the slots exactly when the names are equal; from there on only if it wraps onto the name's length |
| LongNames.LookUp | src/kernel/fs/fat32.c:316-370 | one comparison, for names and components of any length: the buffer overrun or whether the component agrees with the part of the name seen |
| LongNames.RightForIff | src/kernel/fs/fat32.c:316-370 | exactly the component and name lengths for which the comparison never answers wrongly |
| LongNames.RightForShortNamesIff | src/kernel/fs/fat32.c:316-370 | for names of at most 64 slots those are n <= 246 with c < 256 or c mod 256 != n |
| LongNames.WrongNameFound | src/kernel/fs/fat32.c:356-370 | a 268-byte component is found under the name of its last twelve bytes |
| LongNames.SignKept | src/kernel/fs/fat32.c:906-917 | the 16-bit unit and the 8-bit character are the same signed number |
| LongNames.NextPlacementBits | src/kernel/fs/fat32.c:955-958 | the next slot number in eight bits, with bit 6 set after the last but one slot |
| FatNames.EntryBytes | src/kernel/include/fs/fat32.h:101-110 | the byte at which each part of a slot lies, units with their low byte first |
| FatNames.EntryRoundTrip | src/kernel/include/fs/fat32.h:101-110 | reading the 32 bytes of an entry gives back the slot packed into them |
| FatNames.StoredEncodes | src/kernel/fs/fat32.c:903-959 | the directory's bytes encode the name once all its slots are stored |
| FatNames.StoreName | src/kernel/fs/fat32.c:903-959 | the slot-writing loop on the disk, for any index where the slots fit the directory: afterwards the directory's bytes encode the name and every other entry is as it was, or the scratch buffer is overrun |
| FatNames.ReadDirectory | src/kernel/fs/fat32.c:303-308 | the bytes of the directory along its chain, or the scratch overrun |
| FatNames.FindName | src/kernel/fs/fat32.c:303-370 | the directory read along its chain and one comparison at a given entry: what the lookup answers on its slots |
| FatNames.StoreThenFind | src/kernel/fs/fat32.c:903-959 | a name stored by the slot-writing loop and compared at its entry from the disk: equal exactly as the length conditions say, for names of any length |
| NameSearch.ShortName | src/kernel/fs/fat32.c:281-301 | the pass over a component: short name, position and characters read |
| NameSearch.ShortIsPadded | src/kernel/fs/fat32.c:286-301 | a name of at most eight characters, a dot and at most three gives the capitals A to Z of both parts, padded |
| NameSearch.DriftIs | src/kernel/fs/fat32.c:286-301 | for every component, how far the position runs ahead of the characters read, from where its dots are |
| NameSearch.RewindsIff | src/kernel/fs/fat32.c:354-354 | the copy starts at the component exactly when its first eleven characters hold no dot or its dots make up for each other |
| NameSearch.OneDot | src/kernel/fs/fat32.c:354-354 | where the copy of a component with one dot starts |
| NameSearch.PointerNext | src/kernel/fs/fat32.c:354-366 | which bytes of the path each long name is compared with, the first one and later ones, for components of any length |
| NameSearch.CompareLong | src/kernel/fs/fat32.c:316-370 | at a long name: the overrun, the read before the path, or whether those bytes agree with it, and the entry behind its slots |
| NameSearch.Search | src/kernel/fs/fat32.c:310-435 | the loop over a directory's entries ends with the first listed item that its comparison accepts, or with none |
| NameSearch.FindsName | src/kernel/fs/fat32.c:310-435 | with names that fit, a component below 256 bytes that does not drift and no plain entry in the way: the entry behind the first long name equal to the component, and nothing exactly when there is none |
| NameSearch.DottedNameLost | src/kernel/fs/fat32.c:354-354 | a component with its one dot early and near the start of the path is never found once a long name is listed first |
| NameSearch.StoredIsListed | src/kernel/fs/fat32.c:903-959 | slots stored over unused entries list the name there and leave everything else listed as it was |
| NameSearch.SearchDirectory | src/kernel/fs/fat32.c:303-435 | the search on the disk, or the scratch overrun |
| NameSearch.StoreThenSearch | src/kernel/fs/fat32.c:903-959 | a name stored on the disk and then searched for ends as the new listing says, at the entry behind its slots under the conditions of FindsName |
| Calendar.JulianNext | src/kernel/drivers/rtc.c:50-55 | with C's truncating division the day number advances by one across every day, month, year and leap boundary |
| Calendar.DayNumberJulian | src/kernel/drivers/rtc.c:50-55 | the n-th day counted one by one from 1970 has day number n past the epoch's |
| Calendar.DayNumberReaches | src/kernel/drivers/rtc.c:57-67 | every date from 1970 on is the n-th day for some n |
| Calendar.JulianMonotone | src/kernel/drivers/rtc.c:50-55 | later dates have larger day numbers |
| Calendar.SecondNumberCounts | src/kernel/drivers/rtc.c:63-66 | the n-th second counted one by one from midnight has second of the day n |
| Calendar.MkTimeCounts | src/kernel/drivers/rtc.c:57-67 | from 1970 on the result is the day-by-day count times 86400 plus the second-by-second count of the day, with no wrap for any 16-bit year |
| Calendar.MkTimeMonotone | src/kernel/drivers/rtc.c:57-67 | later dates, and later hours, minutes and seconds, give strictly larger results |
| Calendar.MkTimeNext | src/kernel/drivers/rtc.c:57-67 | one second later on the clock is one more, across midnight and for every date |
| Calendar.MkTimeOfMoment | src/kernel/drivers/rtc.c:57-67 | the n-th second counted one by one from 1970 gives n, in 64 bits |
| Calendar.MkTimeWraps | src/kernel/drivers/rtc.c:57-67 | for every date, before 1970 too, the result is the signed second count in two's complement |
| Descriptors.Kernel.FirstFree | src/kernel/sys/syscall.c:107-112 | the lowest free slot from the start index on |
| Descriptors.Kernel.Open | src/kernel/sys/syscall.c:99-121 | the lowest free slot names the new file, or the table was full and the file is released |
| Descriptors.Kernel.Close | src/kernel/sys/syscall.c:123-131 | past the table exactly for ids of 128 and above; otherwise the slot is cleared, with the error for an empty one, and only that file may be released |
| Descriptors.Kernel.Dup | src/kernel/sys/syscall.c:427-444 | outside the table exactly for such descriptors; otherwise the lowest free slot from the argument on and the new count, or the kept reference and the index answered when none is free |
| Descriptors.Kernel.Fork | src/kernel/tasking/scheduler.c:103-111 | the child names every open file once more and nothing is released |
| Descriptors.Kernel.Serve | src/kernel/sys/syscall.c:99-131 | one call changes the tables and the leaked references as its meaning says |
| Descriptors.Kernel.Run | src/kernel/sys/syscall.c:99-131 | after every multi-process run the tables and leaked references are those of the calls one after another, and each reference count equals the slots naming the file plus leaked references |
| Descriptors.Kernel.ViewTells | src/kernel/fs/vfs.c:202-212 | a file is released exactly when no slot names it and no reference to it leaked |
| Descriptors.Kernel.RefsBounded | src/kernel/include/fs/vfs.h:149-149 | a count exceeds 128 times the number of processes only by leaked references |
| Descriptors.Kernel.ReleasedUnused | src/kernel/fs/vfs.c:202-212 | a file a slot of any process names has a reference and is not released |
| Tga.Decoder.Put | src/prog/img/src/img.c:75-80 | the row test and the store put the next stream pixel in its place |
| Tga.Decoder.PutRun | src/prog/img/src/img.c:109-116 | a run packet puts its pixel k times, across row ends |
| Tga.Decoder.PutRaw | src/prog/img/src/img.c:121-129 | a raw packet puts k pixels and moves past their data |
| Tga.Packet | src/prog/img/src/img.c:104-131 | one packet puts exactly the next pixels of the expansion |
| Tga.Decode | src/prog/img/src/img.c:103-131 | the picture is the flat expansion of the packets, rows flipped by the origin field, and every pixel was stored to exactly once |
| Tga.TgaParse | src/prog/img/src/img.c:18-136 | when the size overflows an int, when the reader gives up, and the size words and picture of every covering stream of cases 9 and 10, each pixel stored to exactly once |
| Tga.WrittenOnce | src/prog/img/src/img.c:75-80 | the record of all stores the decoder makes names every pixel exactly once |
| TgaFile.StreamReads | src/prog/img/src/img.c:103-131 | whatever the packets, the reader's expansion of their bytes is their pixels in order |
| TgaFile.FileReads | src/prog/img/src/img.c:18-136 | the header, colour map and packets of every run-length file read back as its size, format and colours |
| TgaFile.ParseFile | src/prog/img/src/img.c:18-136 | tga_parse on the bytes of a run-length picture gives every pixel its colour, alpha, red, green and blue from the highest byte down, the file's first row at the bottom exactly when the origin is 0 |
| Tga.LargestOverflows | src/prog/img/src/img.c:19-26 | a 65535 by 65535 header overflows |

## Left out

- Hardware and assembly: AHCI, APIC, PIT, PS/2, serial, PCI and ACPI, GDT and IDT, register save and restore, TLB invalidation, framebuffer drawing.
- BlockDevice.BlockDevice.DeviceRead: character devices and other device types, which pass the call on or answer 1, are not covered; neither are accesses beyond the disk.
- LongNames.LookUp: one comparison with a given component; which bytes of the path that is and which entry is compared are in NameSearch.
- NameSearch.Search: one directory whose long names have at most 64 slots; the descent into nested directories and the skipping of leading dots and slashes are not modelled.
- FatNames.StoreName: `fat_get_free_dir_entry_chain`, which looks for one free entry and stores into the FAT with a directory index for a cluster number, is not modelled; the index is a parameter and the slots fit the directory.
- Tga.TgaParse: streams whose packets do not cover exactly width times height pixels, image types 1 and 2 and other types are not covered.
- Liballoc.Heap.Free: what the code does with a forged header after accepting it is not modelled; header padding is taken to be zero, and memory never written reads as zero.
- The liballoc lock, `calloc` and the debug output of liballoc; the user-space copy of the same allocator.
- `sched_fork`, `execve`, thread and process teardown, sleeping and events; the thread vectors only grow.
- FAT allocation, growth, truncation and deletion, which rest on a one-byte store into the FAT, and the making of unique short names.
- `vmm_memcpy`, `vmm_fork_pagemap`, `vmm_destroy_pagemap`, mmap ranges and `syscall_munmap`.
- Permission checks and path handling of `syscall_open`, file offsets, pipes and tmpfs.
- ELF loading, libc mathematics, the fractal demos and the shell.
