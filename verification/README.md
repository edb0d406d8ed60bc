# Studix, verified

A Dafny model of the parts of the Studix kernel (i586, 32-bit, 4 KiB pages) whose behaviour is
hard to see from one function: the boundary-tag heap, the ext2 reader, boot paging, the initial
ramdisk, the VGA terminal and number printing. `dafny verify dfyconfig.toml` checks everything.

| file | what it holds |
|---|---|
| `Machine.dfy`, `Bytes.dfy`, `CStrings.dfy` | words, pages, slices, little-endian bytes, C strings |
| `OrderedArray.dfy` | the size-ordered index, an array shifted in place |
| `HeapModel.dfy`, `HeapRuns.dfy` | the heap as a list of blocks; what its calls keep and what nested runs undo |
| `HeapTraces.dfy` | runs of calls by the owners of blocks, each with a memory of their own |
| `KernelHeap.dfy` | the heap over the bytes of its memory, shown to follow `HeapModel` call by call and `HeapTraces` run by run |
| `HeapAsWritten.dfy` | the exact inputs on which the heap code as written agrees with the corrected model |
| `Ext2Spec.dfy`, `Ext2Dirs.dfy`, `Ext2.dfy` | files, records and paths as values; the open-file cursor and the walkers over them |
| `Paging.dfy` | placement allocator, frame bitmap, two-level table, boot loops |
| `Initrd.dfy` | the image writer, the in-memory reader and their round trip |
| `Terminal.dfy`, `Numbers.dfy` | the screen as a window onto a log; decimal and hexadecimal output |

## Where the heap model corrects the code

The heap is modelled as it is meant to work. As written its index lists stale cells from the first
allocation on, because `ordered_array_remove` counts `size` up. The model differs from the code in
these points:

1. `ordered_array_remove` takes the element out and counts `size` down (`src/misc/ordered_array.c:67-73`).
2. The left neighbour's footer is found 8 bytes in front of the header, not 12 (`src/mem/alloc.c:122`).
3. After a right merge the last footer points to the merged header (`src/mem/alloc.c:141-143`).
4. A hole whose size changes leaves the index and is inserted anew (`src/mem/alloc.c:36, 76, 128, 184`).
5. `make_space` takes the hole with the highest address, and lengthens it only if it ends the heap (`src/mem/alloc.c:21-39`).
6. Every hole has a footer, also at the end of the heap (`src/mem/alloc.c:107`, `src/mem/heap.c:92`).
7. A hole that trimming removes is not inserted (`src/mem/alloc.c:186-198`).
8. No neighbour is probed outside the heap (`src/mem/alloc.c:122, 137`).
9. Trimming never leaves 1 to 19 bytes of a hole, which could not hold its tags (`src/mem/alloc.c:180-185`, `src/mem/heap.c:122-124`).
10. The gap in front of an aligned block is 0 or at least 20 bytes and is computed in one way for
    finding and for carving; `find_smallest_hole` compares without unsigned underflow; the small
    remainder is absorbed after the gap is taken (`src/mem/heap.c:30-38`, `src/mem/alloc.c:66-82`).
11. A request of `size + 20 >= 2^32` bytes is outside the contract of `alloc` (`src/mem/alloc.c:51`).
12. `contract` also unmaps the first page behind the new end (`src/mem/heap.c:127` stops in front of it).

For every point there is a statement over all inputs of when the code as written agrees with the model:
1 `OrderedArray.RemoveAsWritten`, 2 `LeftProbeMisses`, 3 `StaleFooterExact`, 4 `ResizedSorted`,
5 `LastHeaderExact` and `MakeSpaceExact`, 6 `NewHoleExact`, 7 `DeadHeaderExact`, 8 `ProbesExact`,
9 `TrimExact`, 10 `FitsExact`, `AlignedPosExact` and `TakenExact`, 11 `TotalExact`, 12 `FreedPagesAsWritten`.

The index is modelled as it is, with its fixed number of cells: an insertion into a full index, which
the source does not refuse, is an outcome of `alloc` and `free` (`IndexFull`). The cell it would
store to is the first word of the heap, the magic number of its first header.

Two further places outside the heap are modelled as meant, beside the code as written: `free_frame`
clears the bit of the frame it frees and the present bit (`src/mem/page.c:103` passes a frame number
where an address is expected, and the entry stays present), and the names of ramdisk nodes are copied
by a standard string copy (`src/lib/string.c:31` stores the terminator one cell late).

## What the proofs say about the code as written

- `ext2_read` panics on a file of exactly twelve blocks when its end is reached. A read whose end
  does not fit in 32 bits escapes the end-of-file check; it reaches the panic exactly when the count
  still fits in 32 bits behind the position in the block, and else copies on behind the one-block
  buffer. Every other read is a slice.
- `read_inode` fetches one sector, so what it copies depends on the disk only for inodes in the
  first sector of their block (4 of 32 with 4096-byte blocks).
- A directory record with inode 0 hides a later record of the same name.
- A directory record shorter than its own head and name kills the reader, by the panic or by the same
  overrun, and it is known from the record and its place which.
- When every frame is taken `first_frame` returns the number of bitmap words, and `alloc_frame` hands
  that frame out; frames stay apart exactly when no other page has it.
- `free_frame` never frees the frame. For a frame below 4096 it clears the bit of frame 0, which is
  handed out next, although page 0 has it after boot.
- `a == c` at the end of `kernel_main` depends on the hole that serves `a`: it holds exactly when that
  hole has room for `c` and no better fit has appeared at the end of the heap.
- `term_print_decu` prints the numeral exactly below 10^9 and never returns from 4135583744 on.
- `make_vga_entry` loses the colour of every character from 128 on, unless it is 255.

## Model

| member | source | states |
|---|---|---|
| OrderedArrays.OrderedArray.Insert | src/misc/ordered_array.c:35-59 | the shifted array is the old one with the item at its place |
| OrderedArrays.OrderedArray.Remove | src/misc/ordered_array.c:67-73 | as meant: exactly the element at `i` is gone, order kept |
| OrderedArrays.OrderedArray.RemoveAsWritten | src/misc/ordered_array.c:67-73 | as written the visible array grows by one and ends in two stale cells, for every array and index |
| OrderedArrays.InsertedSorted | src/misc/ordered_array.c:35-59 | inserting into an array sorted by any key keeps it sorted |
| OrderedArrays.InsertedBag | src/misc/ordered_array.c:35-59 | inserting adds exactly one element to the multiset |
| OrderedArrays.RemovedSorted | src/misc/ordered_array.c:67-73 | removing keeps the order and takes exactly one element out of the multiset |
| HeapModel.BestFit | src/mem/heap.c:25-44 | the first hit of the unaligned scan is a smallest sufficient hole of the heap; no hit means no hole suffices |
| HeapModel.FitsMeans | src/mem/alloc.c:65-96 | a hole fits exactly when some place in it can hold the block, aligned when asked; the block takes the lowest, and no more than it needs but a remainder without room for tags |
| HeapModel.PlaceSound | src/mem/alloc.c:61-116 | splitting a hole keeps tiling, tag room, coalescing and the sorted index of all holes |
| HeapModel.GrownSound | src/mem/alloc.c:12-46 | growing keeps the invariant, stays within the maximum and leaves a final hole of at least the needed size |
| HeapModel.TrimmedFits | src/mem/heap.c:117-132 | trimming ends on a page, above the minimum, never grows, and what is left of the hole is nothing or has room for tags |
| HeapModel.TrimmedLeast | src/mem/heap.c:117-132 | no end that a heap may have there is lower |
| HeapModel.FreedSound | src/mem/alloc.c:156-199 | freeing a live block keeps the whole invariant, coalescing included |
| HeapRuns.CreatedSound | src/mem/heap.c:70-96 | the fresh heap satisfies the invariant |
| HeapRuns.CreatedFresh | src/mem/heap.c:70-96 | nothing is live in the fresh heap, and its first unaligned request, grown for or not, gets the address 12 bytes behind its start |
| HeapRuns.AllocSound | src/mem/alloc.c:48-117 | a successful request adds one new live block, large enough, wasting less than a pair of tags, aligned when asked, and keeps all other live blocks |
| HeapRuns.FreedLive | src/mem/alloc.c:156-199 | freeing takes exactly the freed block out of the live blocks |
| HeapRuns.FreedEnd | src/mem/alloc.c:177-193 | freeing the block at the end gives back every page it can: no heap with that core may end lower; freeing any other leaves the end alone |
| HeapTraces.RunSafe | src/mem/alloc.c:12-199 | over every run of requests, releases, stores and loads the invariant holds, every block not released stays, and every pointer owns a live block with room for what was requested |
| HeapTraces.ReturnedKept | src/mem/alloc.c:48-199 | a pointer returned during a run and not released since is owned at its end with its size, and without a store through it has the bytes of the moment of its return |
| HeapTraces.StoredKept | src/mem/alloc.c:48-199 | bytes stored during a run, through a pointer neither stored through nor released since, are what a load gives at its end |
| HeapTraces.StepExact | src/mem/alloc.c:48-199 | the exact effect of each call: one block more, one less, or none, and the bytes of one pointer alone |
| HeapTraces.NestRuns | src/mem/alloc.c:48-199 | a nest is the run of its calls, beside any store that it does not touch |
| HeapTraces.OwnersApart | src/include/heap.h:6-17 | what different owners requested overlaps neither each other nor the tags between |
| HeapTraces.NewPointer | src/mem/alloc.c:115-116 | a pointer that `alloc` returns is nobody's, whatever the heap |
| HeapRuns.LiveDisjoint | src/include/heap.h:6-17 | in every sound heap different blocks are disjoint and lie inside the heap with their tags |
| HeapRuns.GrowsAtMostOnce | src/mem/alloc.c:54-59 | an unaligned request grows at most once, and fails exactly when no hole suffices and the grown heap would pass the maximum |
| HeapRuns.ServedInPlace | src/mem/heap.c:25-44 | a request, aligned or not, is served without growing exactly when some hole has a place for it, and the end then stays |
| HeapRuns.ServedBest | src/mem/heap.c:25-44 | it then goes to the lowest place in a smallest of the holes that have one |
| HeapRuns.GrowsAtMostTwice | src/mem/alloc.c:54-59 | no request, aligned or not, grows the heap more than twice |
| HeapRuns.CoreOf | src/mem/alloc.c:177-193 | a tiling is its core and at most one final hole, and the core of a coalesced one does not end in a hole |
| HeapRuns.FreedCore | src/mem/alloc.c:119-193 | freeing acts on the blocks in front of the final hole alone |
| HeapRuns.PlaceFreed | src/mem/alloc.c:119-193 | freeing the block just carved out of a hole gives the tiling back, up to a final hole |
| HeapRuns.NestRestores | src/mem/alloc.c:48-199 | requests released in last-in-first-out order, nested to any depth, restore the tiling up to the final hole, and no release meets a dead pointer |
| HeapRuns.AllocAtTail | src/mem/alloc.c:54-116 | when no inner hole suffices the block goes right behind the core, grown or not |
| HeapRuns.FirstHit | src/misc/ordered_array.c:35-59 | the hole inserted last is the first hit of exactly the requests it is a best fit of, since it goes in front of its equals |
| HeapRuns.BootCheck | src/main.c:79-86 | the boot check `a == c` for any nest of requests and any later request that is no smaller, when no inner hole fits the first |
| HeapRuns.BootCheckInner | src/main.c:79-86 | the same when an inner hole serves the first request: `a == c` exactly when that hole has room for the later one and the final hole is no better fit |
| HeapRuns.BootCheckEarly | src/main.c:79-86 | while core and hole fit in the least heap, `a == c` exactly when the hole has room for the later request |
| HeapRuns.BootCheckOuter | src/main.c:79-86 | when the first request is served behind the core: `a == c` exactly when no inner hole has room for the later one or the final hole is a best fit |
| KernelHeaps.KernelHeap.constructor | src/mem/heap.c:70-96 | the memory of a new heap is tagged as one hole, indexed once |
| KernelHeaps.KernelHeap.MakeHeader | src/mem/heap.c:51-59 | the bytes read back as the header, all other bytes unchanged |
| KernelHeaps.KernelHeap.MakeFooter | src/mem/heap.c:61-68 | the bytes read back as the footer, all other bytes unchanged |
| KernelHeaps.KernelHeap.FindSmallestHole | src/mem/heap.c:25-44 | reading sizes from memory finds the first fit of the model, or -1 when there is none |
| KernelHeaps.KernelHeap.FindHeaderIndex | src/mem/heap.c:144-151 | the position of a hole in the index |
| KernelHeaps.KernelHeap.Expand | src/mem/heap.c:98-115 | maps whole pages up to the new length exactly when the maximum allows, old bytes kept |
| KernelHeaps.KernelHeap.Contract | src/mem/heap.c:117-132 | as meant: the heap ends at the least end it may have, bytes below it kept, all pages behind it gone |
| KernelHeaps.KernelHeap.LastHole | src/mem/alloc.c:21-31 | as meant: the index position of the hole with the highest address |
| KernelHeaps.KernelHeap.MakeSpace | src/mem/alloc.c:12-46 | memory and index follow the model of growing; no live byte changes; the maximum and the full index are reached exactly when the model says |
| KernelHeaps.KernelHeap.Alloc | src/mem/alloc.c:48-117 | memory, index and result follow the model of a request, and no byte of any live block changes; it fails exactly when the model would pass the maximum or need a cell more than the index has |
| KernelHeaps.KernelHeap.Store | src/mem/alloc.c:115-116 | an owner writing inside a payload keeps the heap valid and every other live block untouched |
| KernelHeaps.KernelHeap.UnifyLeft | src/mem/alloc.c:119-132 | the probe in memory merges exactly with a hole on the left, which leaves the index |
| KernelHeaps.KernelHeap.UnifyRight | src/mem/alloc.c:134-154 | the probe in memory merges exactly with a hole on the right, which leaves the index |
| KernelHeaps.KernelHeap.Trim | src/mem/alloc.c:177-193 | memory after trimming is tagged as the trimmed tiling, and the heap ends as low as it may |
| KernelHeaps.KernelHeap.Free | src/mem/alloc.c:156-199 | memory and index follow the model of freeing, the heap shrinks as far as it may exactly when the block was at its end, and no byte of any block that stays live changes; it fails exactly when the model has more holes than the index has cells |
| KernelHeaps.SaneTags | src/mem/alloc.c:166-171 | the sanity checks of `free` hold for every live pointer |
| KernelHeaps.TagBytes | src/include/heap.h:6-17 | the tags byte by byte: magic number, flag and size in front, magic number and header address behind, payload 12 bytes up |
| KernelHeaps.HolesOnce | src/mem/alloc.c:195-198 | the index holds no hole twice |
| KernelHeaps.KernelHeap.Execute | src/mem/alloc.c:12-199 | what the owners see of any run of calls over the bytes is a run of the allocator in which each has a memory of their own, up to the first call that ends as predicted; the memory then holds everyone's bytes |
| KernelHeaps.RefusedExact | src/mem/alloc.c:48-199 | a call is refused exactly when its size leaves 32 bits, its pointer is not the caller's, or it reaches outside what was requested |
| KernelHeaps.RoomyEnding | src/mem/alloc.c:48-117 | an index with a cell to spare, two if the heap does not end in a hole, never runs full, and requests then fail for memory alone |
| KernelHeaps.UnalignedEnding | src/mem/alloc.c:12-59 | an unaligned request finds the index full exactly when every cell is taken, no hole suffices, the last block is live and the heap can grow |
| KernelHeaps.ReleaseExact | src/mem/alloc.c:156-199 | freeing finds it full exactly when every cell is taken, no neighbour is a hole and something of the block is left |
| HeapAsWritten.LastHeaderAsWritten | src/mem/alloc.c:21-31 | the scan as written counts maxima |
| HeapAsWritten.LastHeaderExact | src/mem/alloc.c:21-31 | it finds the highest hole exactly when the index ascends by address up to it |
| HeapAsWritten.LastHeaderWrong | src/mem/alloc.c:21-31 | a sound heap with three holes on which it finds the lowest |
| HeapAsWritten.MakeSpaceExact | src/mem/alloc.c:12-46 | growing as written keeps the heap tiled exactly when there is no hole, or the last block is one and the index ascends by address up to it |
| HeapAsWritten.ResizedSorted | src/mem/alloc.c:33-38 | a hole resized in its place keeps the index sorted exactly when its neighbours there allow the new size |
| HeapAsWritten.LeftProbeMisses | src/mem/alloc.c:119-132 | the left probe as written never yields the left neighbour, whatever the bytes |
| HeapAsWritten.ProbesExact | src/mem/alloc.c:119-140 | the left probe leaves the heap exactly for its first block, the right probe exactly for its last |
| HeapAsWritten.StaleFooterExact | src/mem/alloc.c:134-185 | freeing as written leaves the hole with both tags exactly when it does not merge on the right or ends the heap |
| HeapAsWritten.NewHoleExact | src/mem/alloc.c:96-113 | a new hole gets both tags exactly when it does not end the heap, or its footer was there already, which it never was if the hole was split off a tagged one |
| HeapAsWritten.DeadHeaderExact | src/mem/alloc.c:177-198 | a header that trimming removed is put into the index exactly when there is no left merge and the hole ends the heap and starts on a page from the least length on |
| HeapAsWritten.TrimExact | src/mem/heap.c:117-132 | the addresses for which trimming as written leaves a hole without room for tags |
| HeapAsWritten.FreedPagesAsWritten | src/mem/heap.c:126-128 | the pages unmapped are all behind the new end but the first |
| HeapAsWritten.FitsExact | src/mem/heap.c:30-38 | the unsigned comparison for aligned requests is the one that is meant exactly when the skip is no larger than the hole or the wrapped difference is still too small |
| HeapAsWritten.AlignedPosExact | src/mem/alloc.c:72-82 | the hole addresses for which the aligned position as written is the corrected one |
| HeapAsWritten.TakenExact | src/mem/alloc.c:65-69 | absorbing the remainder before the gap gives the corrected size exactly when there is no gap or no small remainder behind it |
| HeapAsWritten.TotalExact | src/mem/alloc.c:51 | the 32-bit sum holds the request exactly below 2^32 - 20, and is smaller than the tags otherwise |
| CStrings.SameString | src/lib/string.c:35-45 | `strcmp` returns 0 exactly for equal C strings |
| CStrings.CopyAsWritten | src/lib/string.c:25-33 | `strcpy` as written keeps the cell at the terminator's place and zeroes the next |
| CStrings.CopyExact | src/lib/string.c:25-33 | its result reads as the source exactly when that cell was zero before |
| Ext2Spec.BlockPlace | src/fs/ext2.c:77-83 | a block is read from its address modulo 2^32, so from its own place when that fits |
| Ext2Spec.SlotInBlock | src/fs/ext2.c:121-134 | an inode slot never straddles a block |
| Ext2Spec.SlotSplit | src/fs/ext2.c:121-134 | block and offset together give the address `table * block_size + index * 128` |
| Ext2Spec.InodeNumber | src/fs/ext2.c:121-134 | inode numbers count from 1 through the groups: group times size plus index is the number less one |
| Ext2Spec.SlotPlace | src/fs/ext2.c:121-134 | inode `i + 1` of a group lies `128 * i` bytes into the table of the group |
| Ext2Spec.SlotsInOrder | src/fs/ext2.c:121-134 | inode 1 is at the start of the first table, and the next of a group follows at 128 bytes |
| Ext2Spec.SlotsDisjoint | src/fs/ext2.c:121-134 | different inodes have disjoint slots when the tables of different groups are disjoint |
| Ext2Spec.InodeExact | src/fs/ext2.c:136-140 | the one-sector fetch yields the slot for offsets up to 384, and depends on the disk alone exactly then |
| Ext2Spec.InodeLayout | src/include/ext2.h:53-98 | the size is the word at byte 4 of an inode, the block numbers the twelve from byte 40 on |
| Ext2Spec.OpenedReadsDisk | src/fs/ext2.c:119-153 | opening from the disk up: size and blocks of the file are those that the slot of its inode names |
| Ext2Spec.BlockInFile | src/fs/ext2.c:155-190 | block `j` of a file is its bytes from `j * block_size` on |
| Ext2Spec.ReadExact | src/fs/ext2.c:155-190 | a read is the slice up to the end of the file; it panics exactly when it takes bytes and ends at the twelfth block's end or behind |
| Ext2Spec.ReadWraps | src/fs/ext2.c:157-183 | a read whose end leaves 32 bits escapes the end-of-file check, and panics exactly when the count fits behind the position in the block; else it copies on behind the buffer |
| Ext2Spec.Chunking | src/fs/ext2.c:155-190 | the outputs of any sequence of reads, each of which fits in 32 bits, concatenate to one slice, however the counts are split |
| Ext2Dirs.ShortRecord | src/fs/ext2.c:212-217 | a record shorter than its head and name always kills the reader, with the exact condition for the panic and for the overrun |
| Ext2Dirs.NextExact | src/fs/ext2.c:196-220 | reading a record whatever the bytes: where it ends, where it dies, what it yields and where it goes on |
| Ext2Dirs.LayoutOfDot | src/include/ext2.h:141-150 | the record of `.` byte by byte |
| Ext2Dirs.NextReadsRecord | src/fs/ext2.c:196-220 | reading a laid-out record yields its inode and name and moves behind its padding |
| Ext2Dirs.ListReadsRecords | src/fs/ext2.c:196-240 | listing a directory laid out from any records gives the records back, in order, and ends |
| Ext2Dirs.NotFoundExact | src/fs/ext2.c:222-242 | a lookup gives the inode of the first record of the name, and 0 exactly when there is none or that record is unused |
| Ext2Dirs.FindReadsRecords | src/fs/ext2.c:222-242 | in a directory laid out from records a lookup gives the first record of the name |
| Ext2Dirs.JoinSplit | src/fs/ext2.c:255-271 | the parts of a path joined by slashes are the path |
| Ext2Dirs.SplitJoin | src/fs/ext2.c:255-271 | parts without slashes come back from their joined path, empty ones included |
| Ext2Dirs.WalkStep | src/fs/ext2.c:255-278 | one turn of the path loop: look up the next part, stop at 0, else go on with the rest |
| Ext2Dirs.ResolveFollows | src/fs/ext2.c:247-278 | an absolute path is resolved by following its names, any names without slashes, from inode 2 up to the first 0 or failure |
| Ext2Dirs.ResolveRelative | src/fs/ext2.c:249-250 | a path that is empty or starts otherwise gives 0 |
| Ext2.Ext2File.constructor | src/fs/ext2.c:143-153 | the cursor starts at 0 with the first block buffered |
| Ext2.Ext2File.CopyOut | src/fs/ext2.c:171-173 | what is copied from the buffer is the file at the cursor |
| Ext2.Ext2File.Advance | src/fs/ext2.c:174-186 | cursor, block index and buffer stay in step; the panic comes exactly at the twelfth block's end |
| Ext2.Ext2File.CopyTurn | src/fs/ext2.c:163-186 | one turn of the loop with its 32-bit test: it takes the rest of the block or of the request, and overruns exactly when that sum wraps |
| Ext2.Ext2File.Read | src/fs/ext2.c:155-190 | the buffered loop refines slicing, panic and overrun included, and restores the cursor invariant |
| Ext2.Ext2File.NextDirent | src/fs/ext2.c:196-220 | three buffered reads refine the record parser at the cursor |
| Ext2.FindInDir | src/fs/ext2.c:222-242 | the loop terminates with the inode of the first record of that name, 0, or the failure behind the records before it |
| Ext2.LookUpPath | src/fs/ext2.c:247-278 | the result is the walk over the parts from inode 2, and the path cut in place is whole again on every return |
| Paging.PlacedApart | src/mem/kmalloc.c:18-42 | areas placed one after the other are disjoint, in order, aligned when asked, and leave no gap but less than a page in front of an aligned one |
| Paging.Paging.FirstFrame | src/mem/page.c:59-74 | the least clear frame when there is one, else the number of words |
| Paging.Paging.SetFrame | src/mem/page.c:39-46 | exactly the bit of the frame at the address becomes set |
| Paging.Paging.ClearFrame | src/mem/page.c:49-56 | exactly the bit of the frame at the address becomes clear |
| Paging.MaskOrder | src/mem/page.c:39-56 | frames count from the lowest bit of a word up |
| Paging.Paging.AllocFrame | src/mem/page.c:77-93 | a page without a frame gets the least free one, or with a full bitmap the frame numbered as the words; every present page keeps a frame of its own exactly when there was a free one or nobody has that number |
| Paging.Paging.FreeFrame | src/mem/page.c:96-106 | as meant: the frame of the page becomes free and no other, and every present page keeps a frame of its own |
| Paging.Paging.FreeFrameAsWritten | src/mem/page.c:96-106 | the bit cleared is that of `frame / 4096`; frames stay apart exactly when that is neither 0 nor anyone's and frame 0 is marked and nobody else's |
| Paging.Paging.ReuseAsWritten | src/mem/page.c:77-106 | freeing any frame below 4096 as written gives frame 0 to the next page that asks and the freed frame to nobody |
| Paging.FrameZeroTaken | src/mem/page.c:192-194 | after boot frame 0 is page 0's, so that freeing any other page as written ends with two pages on it |
| Paging.PointersApart | src/mem/page.c:108-127 | different pages have different entries |
| Paging.PointerOrder | src/mem/page.c:108-127 | the first page of a table has its entry at the start of the table, the next page the next word |
| Paging.WithTableFlat | src/mem/page.c:108-127 | making a table changes no other page's entry, and the pages of the new table are absent |
| Paging.WithTablesFlat | src/mem/page.c:108-127 | over any sequence of calls a page that has a table keeps its entry |
| Paging.Paging.GetPage | src/mem/page.c:108-127 | the address is the word `addr / 4096 % 1024` of the table of `addr / 4 MiB`, which is made when missing and asked for, and NULL exactly otherwise; frames stay apart |
| Paging.Paging.constructor | src/mem/page.c:178-185 | no page is present and no frame marked, from which frames are apart |
| Paging.Paging.MapIdentity | src/mem/page.c:192-194 | the loop ends although its own tables move its bound, with page `k` on frame `k` and all frames apart |
| Paging.BootFits | src/mem/page.c:178-199 | the loop ends exactly on its bound, and all boot frames have cleared bits exactly when the placement pointer was at most 3835 pages up |
| Paging.Paging.MapHeap | src/mem/page.c:196-199 | the heap pages get the next frames and nothing is allocated |
| Paging.InitPaging | src/mem/page.c:173-206 | pages below the final bound are identity mapped, heap frames are behind them, no two pages share a frame, and the heap struct lies in mapped memory |
| Initrd.WriteFile | tools/make_initrd.c:15-38 | the header is written here and the data there, and the position is behind the header |
| Initrd.WriteInitrd | tools/make_initrd.c:40-103 | every regular file has its header and data in the image, none overlapping, and the count comes first |
| Initrd.PackedNext | tools/make_initrd.c:64-91 | writing one more file disturbs no earlier header or data |
| Initrd.HeadersBeforeData | tools/make_initrd.c:61 | a header lies in front of the data area exactly for the first 64 files |
| Initrd.ImageLayout | src/include/initrd.h:9-14 | the image by its numbers: headers of 136 bytes from byte 1 on, their fields, and the data one after the other from byte 8705 on |
| Initrd.PackedRebased | src/fs/initrd.c:111-114 | rebasing a start in place touches no other header and no data |
| Initrd.Loaded | src/fs/initrd.c:66-69 | an image loaded at any address is what the reader asks for |
| Initrd.InitrdFs.constructor | src/fs/initrd.c:66-134 | all headers are rebased and every file has its node, with its name, length and number; memory in front of the image untouched |
| Initrd.InitrdFs.Read | src/fs/initrd.c:16-31 | exactly the bytes `offset..min(offset + size, length)` of the file that went into the image; it leaves the file exactly when the end of the request leaves 32 bits |
| Initrd.ReadCountExact | src/fs/initrd.c:21-27 | the copy stays inside the file exactly when `offset + size` fits in 32 bits |
| Initrd.InitrdFs.ReadDir | src/fs/initrd.c:35-52 | `dev` and then the files, in image order |
| Initrd.InitrdFs.FindDir | src/fs/initrd.c:54-64 | the first file of that name, `dev` first at the root, nothing exactly when there is none |
| Initrd.RoundTrip | src/fs/initrd.c:66-134 | writer, loader and reader in sequence give back the files, at any load address |
| Terminal.ColorNibbles | src/term/vga.c:16-19 | foreground in the low nibble, background in the high one |
| Terminal.EntryFields | src/term/vga.c:16-27 | the character survives in an entry always, the colour exactly for ASCII or colour 255, and is 255 otherwise |
| Terminal.PutInside | src/term/vga.c:76-107 | the cursor of the log stays in the window, and the window moves by at most a line |
| Terminal.Term.constructor | src/term/vga.c:34-41 | 2000 blanks in white on black, which is the window onto the empty log |
| Terminal.Term.Scroll | src/term/vga.c:53-64 | every line moves up one, the last is blank in black |
| Terminal.Term.PutChar | src/term/vga.c:76-107 | per character, in terms of the old screen and cursor: the next line with or without scrolling, the start of the line, one cell back across lines, or one cell written and passed; the screen stays the window onto the log, and the cursor leaves it exactly on a backspace in the top left cell |
| Terminal.Term.PutString | src/term/vga.c:109-113 | the same over any string |
| Terminal.PutAllParts | src/term/vga.c:109-113 | a string is its characters one after the other |
| Numbers.DigitsNumeral | src/term/term_printf.c:17-18 | a divisor that is the right power prints the numeral: value, digit range, no leading zero |
| Numbers.WrappedFails | src/term/term_printf.c:9-18 | no divisor that the first loop can leave for a number from 10^9 on prints its numeral |
| Numbers.FirstDivisor | src/term/term_printf.c:9-12 | the first loop ends exactly below 4135583744 |
| Numbers.PrintDecu | src/term/term_printf.c:7-19 | the numeral is printed exactly for numbers below 10^9, in decimal digits alone |
| Numbers.PrintDec | src/term/term_printf.c:21-29 | a sign and the numeral, exactly for magnitudes below 10^9 |
| Numbers.PrintHex | src/term/term_printf.c:53-70 | the numeral of every 32-bit number, which reads back as the number, with letters in the case asked for |

## Left out

- KernelHeap: heap memory is a byte sequence that `expand` lengthens by pages of arbitrary content and `contract` shortens; the page table entries behind it, and growth that calls `alloc` again for a page table, are not part of the heap model.
- KernelHeap.Alloc: asks for `size + 20 < 2^32`, see TotalExact; what a store behind a full index does to the first header is not followed further.
- KernelHeap.Free: the caller passes null or a live pointer; the source does not notice a second `free` of the same block.
- KernelHeap.constructor: the initial heap is asked to be at least `HEAP_MIN_SIZE` long, as its one caller makes it; `contract` would otherwise move the end up.
- InitPaging: the image must end early enough that all boot frames have bits in the 512 bytes of bitmap that the code allocates and clears (it means 512 words); BootFits shows that the bound is exact. The words behind are whatever memory follows the bitmap.
- FindInDir: the bytes behind the sector buffer of `read_inode` are an arbitrary parameter of the file system; the disk is a total map from addresses to bytes.
- LookUpPath: the state of the path after a panic or an overrun is not described, since the kernel does not go on.
- Ext2File.Read: what an overrun writes is not followed; the 4 GB stack buffer for wrapped padding is taken as given.
- PutString: strings that backspace from the top left cell; what is written outside the screen after that is not modelled.
- PrintDec: the most negative number, whose negation C leaves undefined, is taken as 2^31.
- InitrdFs.Read: the bytes copied from behind the file when the end of a request leaves 32 bits.
- The header of the image has 136 bytes on both sides; `size_t` in it has 8 bytes on a 64-bit host.
- The superblock and group table are taken as parsed; indirect blocks do not exist in the source.
- Port I/O, descriptor tables, interrupts, timer, keyboard, CR0/CR3, page faults, the VFS dispatch, `term_printf` formats and size suffixes, leaked names and failing host calls.
