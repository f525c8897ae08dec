# A verified model of the WIX kernel's memory, storage, text and scheduling code

This project models the parts of the kernel whose correctness depends on state that many calls build up together, and
proves what they promise over all inputs and all runs:

- the kernel heap (`Heap`, `HeapRuns`), the bitmap and its word-skipping searches (`Bits`, `BitArray`), the page frame and
  slab allocators on top of it (`Frames`), page mapping and the program break (`Paging`);
- the write-back block cache over a ramdisk (`BlockCache`), byte-range reads through it (`Inodes`), and the tar archive
  walk through both (`Ustar`);
- number printing and `vsprintf` (`Numbers`, `Printf`, `Directives`, `Formats`), and the i386 instruction decoder (`Disasm`,
  `DisasmMeaning`), which prints through it;
- the scheduler ring and the context frames that `task_switch` saves and loads (`Sched`).

`Machine` holds 32-bit arithmetic and word-addressed memory, shared by all of them. Each component that changes state is a
class whose methods are the kernel's functions, statement by statement; their contracts give the new state as a function of
the old one, and the lemmas say what those functions promise.

For the printer and the decoder two modules say what the texts mean without the functions that compute them. `Directives`
gives the base, sign, width and arguments of each directive letter, read off the printed text. `DisasmMeaning` counts the
prefixes actually read, takes bytes as signed and unsigned little-endian numbers, and gives for each row flag and parameter
number of dis386.h the bytes taken and the text printed.

## What the proofs found

- **heap_free and stale `prev` links.** Neither `heap_alloc` nor `heap_free` updates the `prev` of the block after the one it
  splits or merges. `FreeCorrectIffPrevTrusted` says exactly when freeing is right: if and only if the freed block's `prev` is
  null, reads as used, or is the true predecessor. LIFO runs keep that; `StaleFreeOverlapsLiveBlock` is a short legal run
  from a fresh heap after which one more free lets the next request overlap memory that a caller still holds. This is
  presumably what readme.md (line 8) suspects.
- **heap_alloc and huge requests.** Aligning a request above 0xFFFFFFEC, or adding the header to it, wraps. `RequestHonouredIff`
  gives the exact limit; `HugeRequestGetsNothing` shows a request for 2^32 - 1 bytes that is granted a block of no bytes.
- **Bitmap scans past the last word.** `find_free_bits` and `find_set_bits` test for the last word only after they have
  advanced once, so a scan that starts in it may read on. `FreeScanExactIff`, `SetScanExactIff` and `FreeRegionExactIff` say
  when the answers are exact all the same (always, for a request of one bit). A commit leaves every live region inside the
  map if and only if its search was exact in this sense (`StepOwnsIff`); `OverrunGrantsTooMuch` is a request for 40 frames
  that is granted where 31 are left. Inside the map nothing is handed out twice even then (`RunKeepsSound`).
- **The cache is round-robin.** The comment in buf.c (line 12) describes LRU order, but the pointer only moves on a miss. The
  model follows the code: `LoadedBlockStays` and `EvictedByNextMiss` give the residency that results.
- **sbrk does not notice that frames have run out.** `commit_pages` fails exactly when every frame is in use (`NoFrameIff`).
  One turn of the loop keeps the break sound if and only if there is a frame for the page and one for its table, if that is
  missing (`TurnSoundIff`); a call does if and only if the frames in use and those that the move takes number at most 3840
  (`AddressSpace.Sbrk`), and what was once spoilt stays so. `NoFrameForPage` and `NoFrameForTable` are the two failing inputs:
  the page is mapped to 0xFFFFF000, or the directory entry becomes all ones. A target above 0xFFFFF000 is never reached
  (`SbrkNeverEndsIff`). readme.md (line 79) says that sbrk returns the new break; the code returns the old one, and so does
  the model.
- **bitarray_set and bitarray_clear run on.** When the range starts behind the map, or its end wraps, the number of bits they
  clamp to reaches to the end of memory; `ClampIff` says that this is so in exactly these cases.
- **Paths in an archive.** A ustar entry's path may be split over the name field and the prefix field, and a name may fill its
  100 bytes with no NUL behind it. `tar_open` never looks at the prefix, and `strcmp` reads on into the mode field.
  `HeaderPathIff` states exactly when a header compares equal to its own path and to no other; with a mode field as the format
  has it, that is when the prefix is empty and the name terminated (`OnlyPlainIsFindable`). `PrefixIsNotFound` and
  `FullNameIsNotFound` are archives with a file that cannot be opened by its path, and `EchoIsFound` is the odd one that can.
- **readi** returns -1 on its two errors, and also for the one successful read of 2^32 - 1 bytes (`MinusOneIff`).
- **String lengths are 16 bits in vsprintf.** `AppendKeepsOldText` shows that printing a string in front of more text keeps it
  exactly when it is shorter than 65536 characters.
- **Widths far below zero wrap.** `numtostr` subtracts the number of digits from the width as an int; `WidthIff` says that the
  text has the right width exactly when that does not wrap (for "%2147483648d" it does, and some 2^31 zeros follow).
- **The user stack is also the entry stack.** An interrupt of user mode arrives on the block behind esp3, on which the program
  itself pushes. What the kernel saves there is safe (`UserResumes`), but what the program has pushed is sure to survive an
  interrupt if and only if it has pushed nothing (`UserPushesKeptIff`), as when `jump_usermode` starts it (switch.s, lines
  113-117).
- **Spawning can starve.** A new task goes in right behind the running one. A task waits throughout a run if and only if
  in no part of it, from its start, the ticks outnumber the spawns by its place in the queue (`WaitsIff`); in the legal runs
  of `SpawningStarves`, one spawn to every tick, that is so for every task that waits at the start. The test of `prev` in
  `spawn_thread` (thread.c, line 84) never succeeds: the statement before it has already set the field when it was null.
- **Segment names.** A three-bit register field can select entries 6 and 7 of the six-entry `seg_regs`; the model takes what
  lies behind the array as a parameter.

## Model

| member | source | states |
|---|---|---|
| `Heap.BlocksInOrder` | kernel/src/mm/heap.c:20-26 | in a tiling, an earlier block ends at or before every later one: live blocks are disjoint |
| `Heap.TilesTotal` | kernel/src/mm/heap.c:43-52 | block sizes plus 16-byte headers sum to the heap size |
| `Heap.KernelHeap.constructor` | kernel/src/mm/heap.c:43-52 | heap_init leaves one free block that tiles the region |
| `Heap.AlignUpHonest` | kernel/src/mm/heap.c:14-15 | alignment reaches a multiple of 4, at least and less than 4 above the request, exactly up to 0xFFFFFFEC |
| `Heap.RequestHonouredIff` | kernel/src/mm/heap.c:60-66 | a block that passes the size test really holds header and request if and only if the request is at most 0xFFFFFFEC |
| `Heap.HugeRequestGetsNothing` | kernel/src/mm/heap.c:60-72 | concrete wrap: 2^32 - 1 bytes are granted as a zero-byte block |
| `Heap.CarveTiles` | kernel/src/mm/heap.c:67-85 | splitting, in all three successor cases, keeps the chain a tiling of the region |
| `Heap.CarveRepresents` | kernel/src/mm/heap.c:67-85 | the stores of heap_alloc turn memory holding a chain into memory holding the split chain, whatever the prev words are |
| `Heap.CarveAllocates` | kernel/src/mm/heap.c:66-99 | exactly one new used block, 4-aligned and large enough, all others unchanged |
| `Heap.CarveKeepsPayloads` | kernel/src/mm/heap.c:67-85 | no store of heap_alloc hits a payload in use |
| `Heap.KernelHeap.Walk` | kernel/src/mm/heap.c:55-97 | the loop finds the first block that passes the size test, or null |
| `Heap.KernelHeap.Split` | kernel/src/mm/heap.c:67-85 | the stores, in order, on raw header words |
| `Heap.KernelHeap.HeapAlloc` | kernel/src/mm/heap.c:54-100 | result, memory and chain are those of first fit and split; the heap stays valid |
| `Heap.HonestAllocOutcome` | kernel/src/mm/heap.c:54-100 | null exactly when no free block holds align(sz) + 16; otherwise a new disjoint block, tiling kept, every used block and payload untouched |
| `Heap.DishonestAllocOutcome` | kernel/src/mm/heap.c:60-66 | above the limit every granted block is smaller than the request |
| `Heap.KernelHeap.Release` | kernel/src/mm/heap.c:103-119 | the merges and the final store of heap_free |
| `Heap.KernelHeap.HeapFree` | kernel/src/mm/heap.c:102-120 | for a block with a trusted prev, the heap stays valid and the chain is the freed one |
| `Heap.FreeTiles` | kernel/src/mm/heap.c:106-116 | all four merge combinations keep the tiling |
| `Heap.FreeFrees` | kernel/src/mm/heap.c:102-120 | exactly this block stops being used, and its bytes lie in one free block |
| `Heap.FreeRepresents` | kernel/src/mm/heap.c:102-120 | with a trusted prev, memory holds the freed chain afterwards |
| `Heap.FreeKeepsPayloads` | kernel/src/mm/heap.c:102-120 | no store of heap_free hits a payload that stays in use |
| `Heap.UntrustedFreeDoesNotFree` | kernel/src/mm/heap.c:106-110 | after a free with an untrusted prev, every chain memory still holds has the block in it |
| `Heap.FreeCorrectIffPrevTrusted` | kernel/src/mm/heap.c:102-120 | heap_free meets its contract if and only if prev is null, reads as used, or is the true predecessor |
| `HeapRuns.ChainIsUnique` | kernel/src/mm/heap.c:32-41 | memory determines the chain a walk meets |
| `HeapRuns.StepKeepsInv` | kernel/src/mm/heap.c:54-120 | every allocation, trusted free and store by an owner keeps the heap valid |
| `HeapRuns.RunKeepsTiling` | kernel/src/mm/heap.c:54-120 | over every such run the chain tiles the heap and its bytes add up |
| `HeapRuns.RunKeepsBlock` | kernel/src/mm/heap.c:54-120 | over every such run a block nobody frees stays where it is with its contents |
| `HeapRuns.LifoRunIsStacked` | kernel/src/mm/heap.c:43-120 | every LIFO run from heap_init is legal, and its chain is used blocks, then one free block, every prev correct |
| `HeapRuns.BalancedRunRestoresChain` | kernel/src/mm/heap.c:43-120 | a balanced LIFO run restores exactly the starting chain |
| `HeapRuns.StaleFreeOverlapsLiveBlock` | kernel/src/mm/heap.c:66-116 | concrete run: a free with a stale prev makes a free block cover a block still held |
| `Bits.MaskBit` | kernel/src/mm/bitarray.c:7 | which bits the shifted mask has |
| `Bits.BitSetBits` | kernel/src/mm/bitarray.c:12-15 | bit_set sets exactly the bits of the range |
| `Bits.BitClearBits` | kernel/src/mm/bitarray.c:6-9 | bit_clear clears exactly the bits of the range |
| `Bits.Bsr` | kernel/src/mm/bitarray.c:66-75 | the highest set bit, or 0 for zero |
| `Bits.Bsf` | kernel/src/mm/bitarray.c:78-87 | the lowest set bit, or 32 for zero |
| `BitArray.BitMap.Set` | kernel/src/mm/bitarray.c:18-39 | sets exactly the bits of the range clamped to the map |
| `BitArray.BitMap.Clear` | kernel/src/mm/bitarray.c:42-63 | clears exactly the bits of the range clamped to the map |
| `BitArray.ClampIff` | kernel/src/mm/bitarray.c:19 | the 32-bit clamp keeps both inside the map if and only if the range starts in it or just behind it and its end does not wrap; otherwise they reach the end of memory |
| `BitArray.FilledWellFormed` | kernel/src/mm/bitarray.c:18-63 | both keep the padding bits clear |
| `BitArray.BitMap.FindFreeBits` | kernel/src/mm/bitarray.c:90-126 | the word-skipping scan is the bit-by-bit length of the clear run, as far as it looks |
| `BitArray.BitMap.FindSetBits` | kernel/src/mm/bitarray.c:129-165 | the same for set runs |
| `BitArray.FreeScanExactIff` | kernel/src/mm/bitarray.c:110-124 | that length is the run inside the map if and only if the start is before the last word, the run ends inside, or memory behind a full last word begins with a set bit |
| `BitArray.SetScanExactIff` | kernel/src/mm/bitarray.c:149-163 | the same for set runs, where clear padding always ends the run |
| `BitArray.BitMap.FindFirstFreeBit` | kernel/src/mm/bitarray.c:168-171 | the end of the set run from pos, as far as the scan looks |
| `BitArray.BitMap.FindFreeRegion` | kernel/src/mm/bitarray.c:174-188 | the loop, which looks only at run starts, terminates and returns the least fitting index; if none fits, the start of a tail whose scan runs over the end of the map, or -1 |
| `BitArray.SearchAdvances` | kernel/src/mm/bitarray.c:177-185 | each turn makes strict progress and skips no fitting index |
| `BitArray.FreeRegionExactIff` | kernel/src/mm/bitarray.c:174-188 | what FindFreeRegion returns is the first fit if and only if something fits or the tail does not overrun; that is so for every map when one bit is asked for |
| `Frames.PageFrames.constructor` | kernel/src/mm/pmm.c:19-23 | all 3840 frames free |
| `Frames.PageFrames.CommitPages` | kernel/src/mm/pmm.c:26-35 | -1 and no change, or the address of the region found, now marked; the live regions still have exactly the set bits if and only if the search did not overrun, and as far as they lie in the map in any case |
| `Frames.PageFrames.DecommitPages` | kernel/src/mm/pmm.c:38-41 | clears the frames, whoever owns them; the live regions still have exactly the set bits if and only if this was one of them, now released, or all were free |
| `Frames.TruthfulFits` | kernel/src/mm/pmm.c:27-31 | a region found without overrun is clear, inside the map, and the first such |
| `Frames.FoundIsClear` | kernel/src/mm/pmm.c:27-31 | what any search finds is clear as far as the map goes, and reaches over its end exactly if the search overran |
| `Frames.StepOwnsIff` | kernel/src/mm/pmm.c:26-41 | after a step every live region is in the map, disjoint from the others, and together they are the set bits, if and only if the step did not commit what an overrun found |
| `Frames.RunKeepsSound` | kernel/src/mm/pmm.c:26-41 | over every run, overruns included, the live regions are disjoint inside the map and number exactly its set bits; they lie in it if and only if none that is still live came from an overrun |
| `Frames.CommitThenDecommit` | kernel/src/mm/pmm.c:26-41 | decommit_pages of the address that commit_pages has just returned restores bitmap and ownership, overrun or not |
| `Frames.AddressNamesRegion` | kernel/src/mm/pmm.c:31-39 | the address commit_pages returns leads decommit_pages back to the region's first frame |
| `Frames.RegionAddresses` | kernel/src/mm/pmm.c:31 | regions lie in [0x100000, 0x1000000), and disjoint ones share no byte |
| `Frames.OverrunGrantsTooMuch` | kernel/src/mm/bitarray.c:112-124 | concrete overrun of the 3840-bit map: 40 frames granted where 31 remain |
| `Frames.SlabCache.SlabAlloc` | kernel/src/mm/slab.c:11-16 | null if all elements are taken, else the address of the first free one, now taken |
| `Frames.SlabCache.SlabRelease` | kernel/src/mm/slab.c:19-25 | frees exactly the element that contains the address; other addresses change nothing |
| `Frames.ElementsDisjoint` | kernel/src/mm/slab.c:15 | distinct elements share no byte |
| `Frames.ReleasedIndex` | kernel/src/mm/slab.c:20-22 | the 32-bit index is that of the containing element, or one outside the cache |
| `Frames.SlabStepTracks` | kernel/src/mm/slab.c:11-25 | slab_alloc returns null exactly when every element is out, else an address that is not; the live addresses stay those of the set bits |
| `Frames.SlabCache.constructor` | kernel/src/mm/slab.c:11-25 | with no bit set nothing is out: where every run starts |
| `Frames.SlabRunTracks` | kernel/src/mm/slab.c:11-25 | over every run of both calls the live addresses are exactly those of the set bits, as many, inside the cache, and share no byte |
| `Frames.AllocThenRelease` | kernel/src/mm/slab.c:11-25 | releasing any address in the element just handed out restores the bitmap and the live addresses |
| `Paging.AddressSpace.MapPage` | kernel/src/mm/vmm.c:57-69 | the stores of map_page, and that a frame is taken exactly when a table is missing |
| `Paging.AddressSpace.UnmapPage` | kernel/src/mm/vmm.c:71-80 | the store of unmap_page |
| `Paging.OrFlags` | kernel/src/mm/vmm.c:62-66 | flags in a page-aligned entry leave its frame address readable |
| `Paging.MapTranslates` | kernel/src/mm/vmm.c:57-69 | the page translates to the frame afterwards: the table holds its address plus 7 (the three low bits), and a new directory entry the table's address plus the access bits |
| `Paging.MapKeepsTranslation` | kernel/src/mm/vmm.c:57-69 | every other page under an entry that was present, or under a new zeroed table, translates as before |
| `Paging.MapEntries` | kernel/src/mm/vmm.c:61-63 | the directory gains at most the one missing entry |
| `Paging.UnmapTranslates` | kernel/src/mm/vmm.c:71-80 | the page no longer translates, every other one as before |
| `Paging.AddressSpace.Sbrk` | kernel/src/mm/brk.c:7-23 | returns the old break, moves it by the increment modulo 2^32, keeps every earlier page's frame; every page below the end of the break has a frame of its own if and only if the frames in use and those needed number at most 3840 |
| `Paging.AddressSpace.SbrkAll` | kernel/src/mm/brk.c:7-23 | over every sequence of calls the ranges returned follow one another and never overlap, earlier pages keep their frames, and after each call the break is sound if and only if there were frames enough so far |
| `Paging.AddressSpace.ExtendOnePage` | kernel/src/mm/brk.c:11-16 | one turn of the loop: sound if the frames suffice, spoilt if they do not, and then spoilt for good |
| `Paging.BreakTranslates` | kernel/src/mm/brk.c:11-16 | every address in [0x100000, brk_end) translates into the frame of its page |
| `Paging.TurnKeeps` | kernel/src/mm/brk.c:12-15 | with frames enough, mapping the next page keeps frames distinct, in use, and none of them a page table, and takes exactly those frames |
| `Paging.TurnSoundIff` | kernel/src/mm/brk.c:12-15 | after one turn there are frames of their own behind all pages if and only if one was free for the page, and one for its table if that was missing |
| `Paging.NoFrameIff` | kernel/src/mm/pmm.c:26-35 | commit_pages(1) fails if and only if all 3840 frames are in use |
| `Paging.NoFrameForPage` | kernel/src/mm/brk.c:12-13 | failing input: with no frame left the page is mapped to 0xFFFFF000 |
| `Paging.NoFrameForTable` | kernel/src/mm/vmm.c:61-66 | failing input: with one frame left and no table the directory entry becomes all ones |
| `Paging.FailingTurns` | kernel/src/mm/brk.c:11-16 | both inputs do lead to such a turn |
| `Paging.SbrkNeverEndsIff` | kernel/src/mm/brk.c:11-16 | after any number of turns, brk_end wrapping, the guard of the loop still holds, if and only if the target is above 0xFFFFF000 |
| `BlockCache.WriteThenRead` | kernel/src/basedrv/ramdisk.c:14-33 | a block written is read back, all other blocks unchanged |
| `BlockCache.Ramdisk.Read` | kernel/src/basedrv/ramdisk.c:14-22 | the block, or -1 and no data out of range |
| `BlockCache.Ramdisk.Write` | kernel/src/basedrv/ramdisk.c:25-33 | exactly that block changes, or -1 and nothing does |
| `BlockCache.BufferCache.constructor` | kernel/src/ios/buf.c:17-25 | empty coherent cache |
| `BlockCache.BufferCache.Bget` | kernel/src/ios/buf.c:28-36 | the slot that holds the block, or none |
| `BlockCache.BufferCache.Bflush` | kernel/src/ios/buf.c:39-52 | advances the pointer, writes a dirty victim back, empties it |
| `BlockCache.BufferCache.Bread` | kernel/src/ios/buf.c:55-69 | the cache and devices become those of Read; the slot returned holds the block |
| `BlockCache.BufferCache.Bwrite` | kernel/src/ios/buf.c:72-83 | the cache and devices become those of Write |
| `BlockCache.FlushKeeps` | kernel/src/ios/buf.c:39-52 | flushing changes no logical block and keeps coherence |
| `BlockCache.ReadKeeps` | kernel/src/ios/buf.c:55-69 | bread yields the logical block, changes none, keeps coherence (one buffer a block, clean buffers equal the device) |
| `BlockCache.WriteKeeps` | kernel/src/ios/buf.c:72-83 | bwrite changes exactly one logical block and keeps coherence |
| `BlockCache.RunIsTransparent` | kernel/src/ios/buf.c:17-83 | over every run each block reads as the last data written to it |
| `BlockCache.StepMoves` | kernel/src/ios/buf.c:39-69 | the pointer moves only on a miss, and only its slot changes key |
| `BlockCache.LoadedBlockStays` | kernel/src/ios/buf.c:39-69 | a loaded block keeps its slot through the next seven misses, whatever comes between |
| `BlockCache.EvictedByNextMiss` | kernel/src/ios/buf.c:39-69 | and is gone after exactly the eighth |
| `Inodes.Inode.CreateDevice` | kernel/src/ios/inode.c:15-19 | the fields creatid sets |
| `Inodes.Inode.CreateFile` | kernel/src/ios/inode.c:22-28 | the fields creatif sets |
| `Inodes.MinusOneIff` | kernel/src/ios/inode.c:38-49 | the int returned by a read without error is -1 exactly for a whole read of 2^32 - 1 bytes, and the number of bytes exactly below 2^31 |
| `Inodes.Readi` | kernel/src/ios/inode.c:30-50 | panics on devices; -1 if the offset is past the end or the range wraps; else all the bytes asked for, or all up to the end of the file, are read and their number returned: dst starts with exactly that slice of the file, the rest of dst and the logical disk are unchanged |
| `Inodes.ReadPiece` | kernel/src/ios/inode.c:44-46 | one turn copies the part of one block that is due |
| `Inodes.SliceGrows` | kernel/src/ios/inode.c:43-47 | pieces from successive blocks make up the flat slice |
| `Ustar.Oct2bin` | kernel/src/basedrv/fs/ustar.c:16-25 | the loop is the fold of octal digits in 32-bit signed arithmetic |
| `Ustar.OctalRoundTripIff` | kernel/src/basedrv/fs/ustar.c:16-25 | eleven octal digits read back to the number if and only if it is below 2^31 |
| `Ustar.Oct2binInvertsNumtostr` | kernel/src/basedrv/fs/ustar.c:16-25 | oct2bin inverts numtostr in base 8 over eleven digits, exactly below 2^31 |
| `Ustar.NextHeaderIff` | kernel/src/basedrv/fs/ustar.c:52 | for every size of eleven octal digits the block number computed is that of the next header if and only if neither size + 511 nor the block number overflows |
| `Ustar.LayoutIsArchive` | kernel/src/basedrv/fs/ustar.c:38-58 | blocks laid out as header (with name and prefix), contents in whole blocks, and a zero block at the end are an archive for the walk |
| `Ustar.HeaderStep` | kernel/src/basedrv/fs/ustar.c:43-54 | what the magic, name and size fields of the i-th header say, and where the next header is |
| `Ustar.CompareMagic` | kernel/src/basedrv/fs/ustar.c:43 | true exactly if the bytes 257 to 261 are 117, 115, 116, 97, 114 ("ustar") |
| `Ustar.HeaderOfBytes` | kernel/src/basedrv/fs/ustar.c:43-46 | a block is the header of an entry exactly if it has "ustar" at 257, the size in octal at 124, and name and prefix, filled up with NULs, at 0 and 345 |
| `Ustar.TestDiskIsArchive` | kernel/src/basedrv/fs/ustar.c:38-58 | three blocks given by their bytes (a header of test.txt with the size 12, its contents, zeros) are an archive in which test.txt is found |
| `Ustar.FsTest` | kernel/src/init/init.c:57-65 | on such a disk a read of 20 bytes from test.txt returns 12, delivers the twelve bytes and touches none behind them |
| `Ustar.HeaderPathIff` | kernel/src/basedrv/fs/ustar.c:46 | a header compares equal to the entry's path, and to no other, if and only if the prefix is empty and the name terminated, or the header behind a full name happens to repeat the path |
| `Ustar.OnlyPlainIsFindable` | kernel/src/basedrv/fs/ustar.c:46 | with a NUL before any slash behind the name field, only an empty prefix (byte 345 NUL) and a terminated name will do |
| `Ustar.EchoIsFound` | kernel/src/basedrv/fs/ustar.c:46 | concrete header without such a NUL that repeats its path |
| `Ustar.MatchingIsNamed` | kernel/src/basedrv/fs/ustar.c:43-54 | if all entries are such, the first header that compares equal is the first entry with the path |
| `Ustar.FullNameIsNotFound` | kernel/src/basedrv/fs/ustar.c:46 | concrete archive: a name of 100 bytes is not found, name and mode together match |
| `Ustar.PrefixIsNotFound` | kernel/src/basedrv/fs/ustar.c:46 | concrete archive: "a/b" stored with a prefix is not found by its path, but by "b" |
| `Ustar.TarFs.Walk` | kernel/src/basedrv/fs/ustar.c:38-58 | terminates, at the first header that compares equal to the name, or at the end without one |
| `Ustar.TarFs.Open` | kernel/src/basedrv/fs/ustar.c:38-58 | null if no header compares equal to the name, else the inode of the first that does; that is the first entry with the path if all entries are findable by theirs |
| `Ustar.FileIsContents` | kernel/src/basedrv/fs/ustar.c:28-30 | tar_bmap maps an entry's inode onto exactly its contents |
| `Ustar.OpenAndRead` | kernel/src/ios/inode.c:30-50 | opening an entry and reading from any offset delivers exactly its bytes from there on, as many as asked for or as there are, and returns their number |
| `Numbers.Ilog` | kernel/src/libk/printf.c:7-16 | the number of significant places |
| `Numbers.PlacesBound` | kernel/src/libk/printf.c:7-16 | the power of the base just above a number has that many places |
| `Numbers.Ipow` | kernel/src/libk/printf.c:18-27 | the power, wrapped to int32 |
| `Numbers.LeadingDigit` | kernel/src/libk/printf.c:55-63 | dividing by the highest power gives the leading digit, the remainder the rest |
| `Numbers.PutDigits` | kernel/src/libk/printf.c:55-66 | the digit loop, with its wrapped powers, writes exactly the digits |
| `Numbers.Numtostr` | kernel/src/libk/printf.c:36-69 | writes the spelling and a NUL, nothing else, and returns its length |
| `Numbers.NumToStrDenotes` | kernel/src/libk/printf.c:36-69 | for bases 2 to 16 the digits denote the magnitude, the width is max(digits, places and sign) unless digits - places wraps, no leading zero beyond padding |
| `Numbers.WidthIff` | kernel/src/libk/printf.c:50-53 | the width is that maximum if and only if digits - places does not wrap |
| `Printf.SkipAtoi` | kernel/src/libk/printf.c:71-78 | where the digits end, and their fold in 32-bit signed arithmetic |
| `Printf.AtoiIsValue` | kernel/src/libk/printf.c:71-78 | that fold is the number the digits denote, as an int |
| `Printf.AtoiInvertsPrinting` | kernel/src/libk/printf.c:71-78 | skip_atoi inverts unsigned decimal printing anywhere in a string, exactly below 2^31 |
| `Printf.Strlen` | kernel/src/libk/printf.c:105 | the number of characters before the NUL |
| `Printf.CopyString` | kernel/src/libk/printf.c:106 | the copying loop is right for disjoint strings and for a string copied onto itself |
| `Printf.Convert` | kernel/src/libk/printf.c:99-135 | one conversion writes its text and at most one character behind it |
| `Printf.Vsprintf` | kernel/src/libk/printf.c:80-142 | the buffer holds the rendering of the format and a NUL, nothing else has changed, even when the first argument of a leading %s is the buffer itself |
| `Directives.PrintsUnsigned` | kernel/src/libk/printf.c:110-128 | for x, X and p the text denotes the argument in base 16, for u in base 10, for b in base 2; the width is kept, eight digits for p, without leading zeros beyond |
| `Directives.PrintsSigned` | kernel/src/libk/printf.c:119-131 | for d and i (base 10) and B (base 2) a minus exactly for a negative int, then digits that denote its magnitude; the width includes the minus |
| `Directives.PrintsText` | kernel/src/libk/printf.c:100-107 | c prints the character of the low byte, s the string up to its length modulo 2^16 |
| `Directives.PrintsNoArgument` | kernel/src/libk/printf.c:108-135 | o prints nothing, every other letter without a meaning "%"; neither takes an argument |
| `Directives.DigitIs` | kernel/src/libk/printf.c:29-34 | hexch gives the character of 0123456789ABCDEF at that place |
| `Printf.RenderShift` | kernel/src/libk/printf.c:87-137 | what a format prints does not depend on what precedes it |
| `Printf.AppendKeepsOldText` | kernel/src/libk/printf.c:103-107 | in-place append gives the old text and the rendering of the rest, if and only if the old text is shorter than 65536 |
| `Formats.RenderFormat` | kernel/src/libk/printf.c:87-137 | a format put together from text, %s, 0x%0nX and %d prints the fields one behind the other |
| `Formats.InPlaceIff` | kernel/src/libk/printf.c:103-107 | sprintf(str, "%s...", str, ...) leaves the old text and the fields behind it if and only if the old text is shorter than 65536 |
| `Disasm.DispDenotes` | kernel/src/kd/dis/dis386.c:8-30 | what pdisp8, pdisp16 and pdisp32 print is the sign, 0x, and at least the asked number of digits, which denote the magnitude in base 16 |
| `Disasm.State.DecodeRm16` | kernel/src/kd/dis/dis386.c:32-74 | size, memory flag and text of a 16-bit operand |
| `Disasm.State.DecodeSib` | kernel/src/kd/dis/dis386.c:76-99 | size and text of a SIB operand |
| `Disasm.State.DecodeRm32` | kernel/src/kd/dis/dis386.c:101-142 | size, memory flag and text of a 32-bit operand |
| `Disasm.RmFits` | kernel/src/kd/dis/dis386.c:32-142 | whatever the bytes, the operand text and its NUL fit the 80 characters of rm_str |
| `Disasm.BodyFits` | kernel/src/kd/dis/dis386.c:144-413 | whatever the bytes, the text of an instruction behind its prefixes stays below the 65536 characters at which in-place sprintf loses it |
| `Disasm.AddMemPrefix` | kernel/src/kd/dis/dis386.c:144-158 | the sprintf and strcat calls leave size name, segment override and bracket behind the old characters |
| `Disasm.AddRm` | kernel/src/kd/dis/dis386.c:160-169 | they leave a blank and the register name, or the prefix and the bracketed operand, behind the old characters |
| `Disasm.AddParam` | kernel/src/kd/dis/dis386.c:171-311 | for every parameter type, they leave its text behind the old characters, and the bytes it read are those added to state.size |
| `Disasm.ReadHead` | kernel/src/kd/dis/dis386.c:314-388 | the row chosen, and data advanced by exactly state.size |
| `Disasm.DisasmOpcode` | kernel/src/kd/dis/dis386.c:313-413 | the buffer holds, character for character, the text of Decode, and the size is its size, through any nesting of prefixes |
| `Disasm.SelfDelimiting` | kernel/src/kd/dis/dis386.c:313-413 | streams that agree on the returned size decode to the same text and size; every shorter stream that agrees runs out of bytes |
| `Disasm.TailIgnoresRm` | kernel/src/kd/dis/dis386.c:316-320 | rows without a ModRM byte never depend on the uninitialised operand fields |
| `DisasmMeaning.PrefixChain` | kernel/src/kd/dis/dis386.c:322-354 | behind any chain of prefixes the operand size is switched if and only if an odd number of OP_SIZE rows was passed, the address size likewise for ADDR_SIZE; the segment is that of the last override, the second table is used if and only if a TWO_BYTE row was passed; each adds a byte, and named ones their names |
| `DisasmMeaning.ImmediateBehindPrefixes` | kernel/src/kd/dis/dis386.c:258-266 | register and immediate behind any chain of n prefixes: n + 1 bytes and two or four more as the parity of the OP_SIZE rows says; register name and number printed |
| `DisasmMeaning.BranchTarget` | kernel/src/kd/dis/dis386.c:279-302 | through any chain of prefixes the text ends with digits that denote (eip + total length + d) modulo 2^32, d being the signed number of the operand's bytes, low byte first |
| `DisasmMeaning.OneSigned` | kernel/src/kd/dis/dis386.c:280-283 | bytes have one signed number: -2^(8k-1) <= d < 2^(8k-1), congruent to the sum of b[i] * 256^i modulo 2^(8k) |
| `DisasmMeaning.Instruction` | kernel/src/kd/dis/dis386.c:313-413 | an instruction behind its prefixes is decoded if and only if opcode, ModRM operand and the bytes of all parameters are there |
| `DisasmMeaning.InstructionText` | kernel/src/kd/dis/dis386.c:393-413 | its text is the name and each parameter on its own bytes, a comma before the second and third; its size is all of those bytes |
| `DisasmMeaning.Nameless` | kernel/src/kd/dis/dis386.c:390-393 | a row without a name prints DB and the opcode and takes only opcode and ModRM operand |
| `DisasmMeaning.RmSizeIs` | kernel/src/kd/dis/dis386.c:32-142 | how many bytes belong to each of the 32 mod and rm fields, as tables for both address sizes |
| `DisasmMeaning.ModrmFields` | kernel/src/kd/dis/dis386.c:329-337 | mod, reg and rm are the fields of the ModRM byte 64 * mod + 8 * reg + rm |
| `DisasmMeaning.RmDisplacement` | kernel/src/kd/dis/dis386.c:40-142 | a displacement prints the sign and magnitude of the signed number its one, two or four bytes denote, behind the base |
| `DisasmMeaning.RmWithout` | kernel/src/kd/dis/dis386.c:32-142 | without one: the base alone, or the unsigned address where the base would be BP or EBP |
| `DisasmMeaning.SibMeaning` | kernel/src/kd/dis/dis386.c:76-99 | base, or an address for base 5 and mod 0, and index times 1, 2, 4 or 8 unless the index is 4 |
| `DisasmMeaning.Immediate` | kernel/src/kd/dis/dis386.c:250-266 | parameters 21, 32 and 23 print the unsigned number of their bytes |
| `DisasmMeaning.SignedImmediate` | kernel/src/kd/dis/dis386.c:245-249 | parameter 22 prints the sign and magnitude of the signed number of its byte |
| `DisasmMeaning.FarAddress` | kernel/src/kd/dis/dis386.c:270-278 | parameter 28 prints the segment, which comes last, a colon and the offset |
| `DisasmMeaning.Direct` | kernel/src/kd/dis/dis386.c:176-188 | parameter 33 prints the bracketed unsigned address of its bytes |
| `DisasmMeaning.InMemory` | kernel/src/kd/dis/dis386.c:189-218 | parameters 1, 30, 35 and 3 with a memory operand: size word, overridden segment, bracketed operand |
| `DisasmMeaning.InRegister` | kernel/src/kd/dis/dis386.c:189-238 | parameters that name a register, by their own number or by the reg or rm field, print that register |
| `DisasmMeaning.Others` | kernel/src/kd/dis/dis386.c:239-269 | parameters 29, 34 and 25: DX, 1, and the overriding segment, if any |
| `DisasmMeaning.Numbered` | kernel/src/kd/dis/dis386.c:204-209 | parameters 36 and 37: CR and DR with the digit of the reg field |
| `Disasm.TargetIffLast` | kernel/src/kd/dis/dis386.c:279-302 | with bytes still to come after the operand, it prints the target if and only if there are none |
| `Disasm.ShownHex` | kernel/src/kd/dis/dis386.c:286-300 | the digits printed last denote the target in base 16 |
| `Sched.SavedFrame` | kernel/src/thread/switch.s:18-28 | the pushed words are the frame that the pops read back, and only those words change |
| `Sched.FreshFrame` | kernel/src/thread/thread.c:52-67 | create_thread builds a frame of zero registers, flags 0x202 and the thread function, with thread_exit and the parameter above it |
| `Sched.Scheduler.constructor` | kernel/src/thread/thread.c:31-37 | the ring of the base task alone |
| `Sched.Scheduler.TaskSwitch` | kernel/src/thread/switch.s:14-47 | saves on the old stack, moves one step along the ring, sets the TSS stack, loads the next task's frame |
| `Sched.Scheduler.PitIsr` | kernel/src/thread/thread.c:25-29 | one tick is one step of the system, counted modulo 2^32 |
| `Sched.Scheduler.CreateThread` | kernel/src/thread/thread.c:52-73 | the eleven stores, esp0, and esp3 if a user stack is asked for |
| `Sched.Scheduler.SpawnThread` | kernel/src/thread/thread.c:75-93 | the new task stands behind the running one, both links right, its stack built, and its user stack, if one is asked for, recorded with it |
| `Sched.NextAndPrev` | kernel/src/thread/thread.c:78-84 | next goes round one cycle of exactly the ring's tasks, and prev is its inverse once there are two |
| `Sched.StepKeepsSound` | kernel/src/thread/thread.c:25-93 | every legal step, ticks on kernel and user stacks alike, keeps the ring duplicate-free with exactly the old tasks and the spawned one, stacks disjoint, frames in place |
| `Sched.StepKeepsTask` | kernel/src/thread/switch.s:14-47 | a step leaves both stacks and the entry of every waiting task as they are |
| `Sched.ResumesWhereItStopped` | kernel/src/thread/switch.s:17-47 | after any interleaving of work, ticks and spawns a resumed task gets back the registers, return address and stack pointer it was switched out with |
| `Sched.AloneResumes` | kernel/src/thread/switch.s:17-47 | the same when it is the only task |
| `Sched.RunKeepsEnters` | kernel/src/thread/switch.s:34-36 | over every run the TSS names the running task's own entry stack |
| `Sched.UserTickIsLegal` | kernel/src/thread/switch.s:34-36 | an interrupt of user mode arrives on the running task's own block behind esp3, which makes the tick a legal step |
| `Sched.UserResumes` | kernel/src/thread/switch.s:14-47 | a task interrupted in user mode gets back what task_switch saved, and the iret after it finds the instruction, flags and stack pointer of the interrupt, after any interleaving |
| `Sched.UserPushesKeptIff` | kernel/src/thread/switch.s:113-117 | what the program has pushed from esp3 down is sure to survive an interrupt if and only if it has pushed nothing |
| `Sched.FreshTaskStarts` | kernel/src/thread/thread.c:52-67 | the first switch to a task pops exactly the frame create_thread built, after any interleaving |
| `Sched.RunsInTurn` | kernel/src/thread/switch.s:30-32 | between spawns the ring after a run is the old one rotated once per tick |
| `Sched.OnceInNTicks` | kernel/src/thread/switch.s:30-32 | in every run of N ticks without spawns, whatever work comes between, each of the N tasks is switched to by exactly one tick, and the ring is then as it was |
| `Sched.OnceInEveryRound` | kernel/src/thread/switch.s:30-32 | each task is first in exactly one of any N rotations in a row |
| `Sched.RoundRestores` | kernel/src/thread/switch.s:30-32 | N rotations restore the ring |
| `Sched.PlaceInQueue` | kernel/src/thread/thread.c:78-82 | a waiting task comes one place nearer a tick and goes one place back a spawn |
| `Sched.WaitsIff` | kernel/src/thread/thread.c:78-82 | a task at place i never runs in a run if and only if in no part from its start the ticks outnumber the spawns by i |
| `Sched.SpawningStarves` | kernel/src/thread/thread.c:78-82 | a run of one spawn to every tick, with or without user stacks, as long as one likes, is legal, and no task that waits at its start ever runs in it |

## Assumptions

- Memory is a map from addresses to the 32-bit words stored there. Page tables and directories are reached at their physical
  address, as vmm.c does; the boot code identity-maps only the first megabyte, so that this holds for every table is an
  assumption, as is that a table from `commit_pages` is zero where `MapKeepsTranslation` says so.
- Signed overflow in C is modelled as two's complement wrap-around.
- The words behind a bitmap's last word end, at some point, with one at which both scans stop.
- Stacks that `heap_alloc` hands to threads, kernel and user, are disjoint, and a running task does not write into those of
  another. When an interrupt of user mode arrives, the processor pushes ss, esp, eflags, cs and eip on the stack the TSS names.
- No name in the opcode tables is longer than 1000 characters, and no register name longer than five; `seg_regs` is taken to
  go on behind its six entries with strings of at most 1000.
- Strings that the decoder passes to `sprintf` are values: that the buffer may be its own first argument is what
  `Printf.Vsprintf` proves.

## Left out

- Paging.AddressSpace.Sbrk: requires that the new break is at most 0xFFFFF000; above that the loop never ends, as SbrkNeverEndsIff says.
- Paging.AddressSpace.UnmapPage: states the stored word only; its effect on translation is UnmapTranslates, for directories whose entries are all present or zero.
- Frames.PageFrames.DecommitPages: for ranges that start in the map or just behind it and do not wrap; what clamping gives otherwise is stated by ClampIff.
- BitArray.BitMap.Set: the same; the stores beyond the map, up to the end of memory, are not modelled.
- BitArray.BitMap.Clear: the same.
- Ustar.TarFs.Open: paths asked for shorter than 512 characters, sizes up to 0x7FFFFE00 (beyond that NextHeaderIff says the walk goes wrong); the inode is not checked for a failed heap_alloc, as in the source.
- Printf.Vsprintf: formats whose directives are complete and arguments that match them, as C demands; the format itself lies outside the output buffer.
- Disasm.DisasmOpcode: the bytes of the whole instruction must be there; where they end is what SelfDelimiting states. The opcode tables are a parameter, not the rows of i386ops.c.
- DisasmMeaning.BranchTarget: for rows whose relative parameter is the last, as in every row of i386ops.c; TargetIffLast says why.
- Sched.Scheduler.SpawnThread: both calls of heap_alloc are taken to succeed (after a null one the code stores to address 0, whose contents are not part of this model); enabling and disabling interrupts makes each call one step and is not modelled otherwise.
- thread_exit and the loading of cr3 are not part of this model; of jump_usermode only the frame it builds is.
- Block devices other than the ramdisk, add_block_dev and install_ramdisk.
- The region list of vmm_init, and vm_reserve, vm_commit, vm_decommit and vm_release, which have no bodies.
- heap_realloc, which is a stub, and heap_print.
- tty.c, bootvid.c, the serial port, PIC, GDT and IDT setup, panic and crash dump: hardware effects.
- The boot code and the interrupt stubs in assembly.
- syscall dispatch.
- The remaining string functions of libk, beyond what the models above use of memcpy, memcmp, strcmp and strlen.
