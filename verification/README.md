# Verification model of the kernel's memory, processes and locks

This project models, in Dafny, the parts of a small single-CPU x86-64 kernel that keep the hard state,
and proves what holds of them over all inputs, all runs and all interleavings.

| file | models |
|---|---|
| `HeaderPages.dfy` | how many pages of a memory area its own bitmap takes |
| `Frames.dfy` | the bitmap allocator for physical page frames |
| `PageTables.dfy`, `Spaces.dfy`, `Memory.dfy` | four-level page tables living in those frames: words and bytes in place, what all tables together mean, and the mapping, walking, region and copying code |
| `Elf.dfy`, `ElfLayout.dfy` | loading the segments of a program; its headers field by field |
| `Lifetimes.dfy`, `Forking.dfy`, `Executing.dfy`, `Syscalls.dfy` | what anonymous allocation, fork, execve and exit do to memory; runs of them |
| `Interleavings.dfy` | the same calls taken apart where they let go of the page allocator, under every interleaving |
| `Access.dfy`, `Granting.dfy` | which mapped pages can be used from user mode; what the pages granted hold and whether they were free |
| `Processes.dfy`, `Semaphores.dfy`, `Scheduling.dfy` | the process struct, semaphores with hand-off, the round-robin scheduler |
| `Pipes.dfy`, `Locks.dfy` | pipes and ordered mutexes under every interleaving |
| `Heap.dfy` | the kernel heap |
| `Ustar.dfy` | the reader of the initial file system, in the ustar Interchange Format of the pax utility section of IEEE Std 1003.1 |
| `Bytes.dfy`, `Integers.dfy`, `Collections.dfy`, `Seal.dfy` | shared definitions |

How the pieces fit together:

- Code that changes state in place is a class whose methods are proved against functions or relations on values
  (`Allocate`, `Grows`, `Shrinks`, `Copied`, `Written`, `ExecDone`, `Wait`, `Signal`, `TakeAt`, `FreeAt`, ...). The
  theorems are about those values, so they hold of every sequence of calls of the methods.
- Tables live in the frames the allocator hands out. `PageTables.TreeInv` says that the entries in memory are a tree for
  each root and that no frame is reached by two paths. Every method of `Memory.Memory` keeps it, together with the
  agreement between the tables and the allocator's bitmap: each frame in use is reserved or exactly one node of one tree.
- When frames run out the machine halts. A method reports this as `halted`, and says nothing of what comes after.
- Semaphores, pipes and locks use one definition of `Wait`, `TryWait` and `Signal`. Each is one IRQ-off section of the
  code, so one step; everything else may be interleaved. A thread whose wait has put it in a queue stays there until a
  signal takes it out, and from then on has the token.

Some results are about where the code meets its purpose and where it does not:

- `calc_header_pages` never returns for one page count in 32769 (`HeaderPages.StopsExactlyWhen`).
- The page loop of `map_elf` ignores the offset of a segment in its first page and counts in an `int`; it covers the
  segment exactly as `Elf.CoveredExactlyWhen` says.
- `map_elf` reads headers from a buffer that segments may overwrite; `Executing.BufferKeptExactlyWhen` says where it keeps
  the file. To miss the buffer byte by byte is not enough for the program to be there afterwards: the buffer's last page
  goes whole (`Executing.ProgramInPlaceExactlyWhen`, `Executing.SharedPageExample`).
- After `execve` the anonymous memory starts at 8 MiB whatever the program has there (`Granting.GrantedFreeExactlyWhen`),
  and pages granted still hold what their last owner left (`Granting.LeftoversExactlyWhen`).
- `execve` makes the tables for that buffer without the user bit. Memory allocated later in the same 2 MiB cannot be used
  unless the tables were there before (`Access.AllocatedReachableExactlyWhen`, `Access.FirstProgramLosesMemory`).
- A fork by a process that is not last in the scheduler's list ties the list into a loop: the next insertion walks for
  ever, and neither the parent nor anybody before it runs again (`Scheduling.InsertForked`,
  `Scheduling.InsertedEndsExactlyWhen`, `Scheduling.NeverRunAgain`).
- `fork` passes over stack pages of a process whose program ends below 4 MiB (`Forking.ForkCarriesAllExactlyWhen`). It
  hands the end of each region to the copy as its length, so that more than the region is looked at, never less
  (`Forking.CopyReaches`).
- The question left open in `pipe_try_write`, whether not taking the lock is a problem, is answered by `Pipes.RunSound`
  and `Pipes.MidwayWriterExactly`.
- The wrap-around in `alloc`'s size test and in the ustar skip are pinned down by `Heap.CodedTestExactlyWhen` and
  `Ustar.SkipExactlyWhen`.

Check everything with `dafny verify dfyconfig.toml` (Dafny 4.11).

## Model

| member | source | states |
|---|---|---|
| `HeaderPages.StepIsCeiling` | src/memory.c:22-25 | One turn of the header loop, with its two roundings, is one ceiling: of (pages - header + 192) / 32768; so the test for zero in the loop can never fire. |
| `HeaderPages.FixedPoints` | src/memory.c:20-27 | A header size reproduces itself under the loop body if and only if (pages + 192) mod 32769 is not 1 and it is (pages + 192) / 32769 rounded up; so there is at most one. |
| `HeaderPages.StepContracts` | src/memory.c:20-27 | The loop body is antitone, and brings two header sizes 32768 times closer, rounding up. |
| `HeaderPages.StopsExactlyWhen` | src/memory.c:20-27 | For two pages or more the loop stops after some number of turns if and only if (pages + 192) mod 32769 is not 1. |
| `HeaderPages.Alternates` | src/memory.c:20-27 | Otherwise, from some turn on, the loop goes back and forth between two consecutive values for ever. |
| `HeaderPages.NeverStops` | src/memory.c:20-27 | The smallest page count for which the loop never stops is 32578. |
| `HeaderPages.CalcHeaderPages` | src/memory.c:15-30 | When it stops it returns the fixed point h, at least 1 and below the page count, and 24 bytes plus a bit for each of the other pages fit in h pages. |
| `HeaderPages.LeastThatFits` | src/memory.c:15-30 | No smaller number of header pages would hold the header and the bitmap of the rest. |
| `Frames.FindUnusedPage` | src/memory.c:63-88 | Searching the bitmap bytes bit by bit finds the lowest clear bit below the page count, sets that bit and no other, reports failure only when all are set, and stops the machine exactly for 0 or more than 1000000 pages. |
| `Frames.ByteWritten` | src/memory.c:80-82 | Or-ing or and-ing one mask into one byte changes exactly one flag of the bitmap. |
| `Frames.BitmapAllocator.constructor` | src/memory.c:37-61 | Every page is free, and each usable entry of at least 0x2000 bytes, and no other, has exactly one area: its last whole pages, behind 24 bytes and a bit for each of them, and not a page fewer. There may be any number of entries, but only 256 such areas. |
| `Frames.InitialAreas` | src/memory.c:43-58 | The same of the areas as values; they do not overlap, and no frame is in use. |
| `Frames.BitmapAllocator.AllocatePage` | src/memory.c:94-118 | The areas in memory, `used` counters included, change exactly as `Allocate` says: the lowest clear page of the first area with room, or nothing. |
| `Frames.AllocateTakesFreeFrame` | src/memory.c:94-118 | The page handed out was managed and free, is page aligned, above 0 and below 2^52, and is the only frame whose state changed. |
| `Frames.ExhaustedExactlyWhenFull` | src/memory.c:94-118 | Null comes back if and only if every managed frame is in use, and with areas of at most 1000000 pages the halt is never reached. |
| `Frames.CountFull` | src/memory.c:99-100 | The counter comparison that skips an area is true if and only if the area has no clear bit. |
| `Frames.BitmapAllocator.FreePage` | src/memory.c:121-136 | The areas in memory change exactly as `Free` says: a frame in use becomes free and no other changes; an address outside all areas changes nothing. |
| `Frames.FreeReleasesFrame` | src/memory.c:121-136 | Freeing a frame in use makes that frame free and changes no other. |
| `Frames.FreeUndoesAllocate` | src/memory.c:94-136 | Freeing the page just allocated restores every flag of every area. |
| `PageTables.BitForms` | src/memory.c:156-159 | On 64-bit words the shifts, masks and ors of the code equal the divisions, remainders and sums the model uses, for both address masks. |
| `PageTables.WriterAndReaderAgree` | src/memory.c:203-204 | For an aligned frame below 2^52 and flags below 128 the entry written leads back to the frame under the mask of the writer and under the mask of the reader. |
| `PageTables.PathOfShape` | src/memory.c:209-212 | The four indices the mapping code cuts out of an address are those the level loop of the reader computes. |
| `PageTables.PathOfInjective` | src/memory.c:156-159 | Two user addresses take the same path through the tables if and only if they lie in the same page. |
| `PageTables.InsertKeepsTree` | src/memory.c:163-186 | Storing an entry for a fresh frame, cleared if it becomes a table, adds one node to one tree and changes the lookup of no other path in any address space; no frame gets two owners. |
| `PageTables.RemoveKeepsTree` | src/memory.c:255-259 | Clearing the entry of a page removes that page and changes the lookup of no other path in any address space. |
| `PageTables.AddRootKeepsTree` | src/syscall.c:172-179 | A root table with an empty user half on a fresh frame is a new, empty address space and disturbs no other. |
| `PageTables.SlotIdentifies` | src/memory.c:163-186 | Two paths, of whatever address spaces, end in the same slot of the same table only if they are the same path. |
| `Memory.WalkTables` | src/memory.c:214-238 | The reader returns nothing if and only if a table on the way is missing, and otherwise the slot whose entry is present if and only if the page is mapped. |
| `Memory.Memory.AllocPageOrHalt` | src/memory.c:143-151 | It either hands out a frame that nobody owned or stops the machine with everything as it was. |
| `Memory.Memory.MapMemoryPage` | src/memory.c:153-189 | The page and the tables on its path are there afterwards, every entry that was there is unchanged, each new one has the flags asked for and a frame that was free; it stops only when no frame is left or an area has more than the 1000000 pages the search allows. |
| `Spaces.MapIsInsert` | src/memory.c:153-189 | Mapping a page is an insertion into the translation of all spaces: that page appears, all pages keep their frames, no other page of any space appears, and a new page has the flags and a frame that was free. |
| `Spaces.TranslationInjective` | src/memory.c:153-238 | Two mapped user pages share a frame if and only if they are the same page of the same address space. |
| `Memory.Memory.AllocateRegion` | src/memory.c:263-271 | Afterwards the nodes are the old ones and those on the paths of all pages of the range, rounded down at the start. |
| `Spaces.RegionIsInserted` | src/memory.c:263-271 | Of all spaces, exactly the pages of the range become mapped, and no page changes its frame. |
| `Spaces.RegionReaches` | src/memory.c:243-271 | The loops over a range reach exactly the pages from that of the start to the last that begins below the end. |
| `Spaces.CopyReachesPages` | src/memory.c:280 | The copy loop reaches as many pages as its length rounds up to, from that of its start on. |
| `Spaces.GrowthCost` | src/memory.c:263-271 | The number of frames in use rises by exactly the number of nodes, pages and tables, that were missing. |
| `Spaces.LevelBound` | src/memory.c:263-271 | On the way to N contiguous pages there are at most (N - 1) div 512 + 2 last-level tables, and a level further up 512 times fewer each. |
| `Spaces.RegionCostBound` | src/memory.c:263-271 | So allocating a region takes a frame for each page not mapped yet and no more frames for tables than those bounds add up to. |
| `Memory.Memory.FreeRegion` | src/memory.c:243-261 | Afterwards the nodes are the old ones without the pages of the range; tables stay. |
| `Spaces.RegionIsRemoved` | src/memory.c:243-261 | Of all spaces, exactly the pages of the range become unmapped, their frames are free again, and all other pages keep theirs. |
| `Spaces.ShrinkYield` | src/memory.c:243-261 | The number of frames in use falls by exactly the number of pages that were mapped in the range. |
| `Spaces.RegionPairRepeats` | src/memory.c:243-271 | Allocating and freeing the same range a second time leaves exactly the state the first time left: no further frame is held. |
| `Spaces.UsedCount` | src/memory.c:94-271 | Frames in use are the reserved ones and one for each node of each tree. |
| `Memory.Memory.CopyPages` | src/memory.c:273-297 | Every page of the range mapped in both spaces gets the contents of the source page, nothing else changes in any space, and the result is how many there were. |
| `Spaces.CopiedMore` | src/memory.c:280-294 | One more page of the copy keeps that description, since no two pages share a frame. |
| `Memory.Memory.StoreBytes` | src/elf.c:20-28 | Bytes written at mapped user addresses read back from there, and every other byte of every space is as before. |
| `Memory.Memory.NewRoot` | src/syscall.c:169-179 | A new address space whose table has zeros in entries 0 to 255 and the given one's entries from 256 to 511, and no other change. |
| `Elf.CoveredExactlyWhen` | src/elf.c:16-19 | The turns of the page loop, their number an int and their offset an int product, give every byte of a segment its page if and only if the segment has at most 2^31 bytes and does not run over the last page because of where in its first page it starts. |
| `Elf.UncoveredExample` | src/elf.c:16 | Two bytes that start at the end of a page are counted as one page, and the second byte is not in it. |
| `Elf.HugeSegmentExample` | src/elf.c:16-19 | Of an aligned segment of 16 TiB no page is mapped, and of one of 2.25 GiB the page 2 GiB after its start is not. |
| `Elf.MapElf` | src/elf.c:7-32 | With the file in memory, count, headers and bytes are read from there at each turn; segments are mapped and filled one after the other as the file says, later ones on top, other bytes of all spaces are kept, and the greatest end of a loadable segment is returned; or the machine stops. |
| `Elf.StillHolds` | src/elf.c:12-28 | While segments that miss the buffer are being loaded, every byte of the file can still be read from it; the loader relies on this at each turn. |
| `Elf.NumberRoundTrip` | include/elf.h:7-33 | A number that fits a header field is read back from its bytes, lowest first. |
| `Elf.StoredRoundTrip` | include/elf.h:7-33 | Any bytes of a field are those of the number read from them, which fits the field. |
| `ElfLayout.HeadersReadBack` | include/elf.h:7-33 | From a file whose header and program headers are laid out field by field as declared, the loader reads exactly the entry point, the number of headers, and kind, offset, address and sizes of each. |
| `Elf.SegmentPages` | src/elf.c:13-19 | A segment of kind 1 is given the pages from that of its start on, as many as its size rounds up to; others none. |
| `Elf.SegmentsReadBack` | src/elf.c:17-28 | With covered segments that do not overlap, every byte of every segment is mapped and reads back as the file's byte, or as zero beyond the file's part. |
| `Elf.OutsideSegments` | src/elf.c:17-28 | Bytes outside the segments, of this space and of all others, keep their place and value. |
| `Elf.HighestIsGreatest` | src/elf.c:14-15 | The end returned is at least the end of every loadable segment, and is the end of one unless there is none. |
| `Syscalls.PagesCoverExactlyWhen` | src/syscall.c:119 | The page count, a 64-bit sum cut down to a signed 32-bit integer, covers the bytes asked for if and only if they are at most (2^31 - 1) pages; then it is the least that does. |
| `Syscalls.NoPagesExample` | src/syscall.c:119 | A request for 8 TiB is granted no page. |
| `Syscalls.AnonAllocate` | src/syscall.c:117-134 | Returns the old end. A request of up to 2^31 - 1 pages is mapped byte for byte from there on, and the end moves by it rounded up to pages; of any larger one as many pages as the wrapped count says, none if that is negative. Nothing else changes; or the machine stops. |
| `Syscalls.Exit` | src/syscall.c:149-153 | Exactly the pages of the stack, the program and the anonymous memory are unmapped and given back. |
| `Syscalls.Fork` | src/syscall.c:162-251 | A new process struct, a copy of the parent's in its ends, status and both links, with a new root and saved context; the new space has the parent's kernel half and fork's two regions; then both copies as `copy_pages_between_pagetables` describes them. |
| `Syscalls.Execve` | src/syscall.c:267-310 | Refuses exactly for a missing file or a path of more than 0x2000 bytes, then with nothing changed; otherwise, for a file whose segments miss the buffer, old program and anonymous memory go, the file is read into a buffer, its segments are loaded from there, both ends are set, the buffer goes, and the entry point is the file's. |
| `Lifetimes.InitialSystem` | src/main.c:231-244 | The state in which the first user process starts satisfies the invariant over all processes. |
| `Lifetimes.StepKeeps` | src/syscall.c:117-327 | Every fork, anonymous allocation, exit and execve of a file whose segments miss the buffer keeps all mapped pages inside what the exit of their own, live process will free. |
| `Lifetimes.ExitReturnsAllPages` | src/syscall.c:136-159 | After exit the process's space has tables only, the frame of each of its pages is free, one frame for each page has come back, and no other space changed. |
| `Lifetimes.StepSparesOthers` | src/syscall.c:117-327 | No call of one process changes a translation of another; only fork adds to another space, its child's. |
| `Lifetimes.TablesStay` | src/memory.c:241-242 | Tables are never given back: in every call each table stays where it is. |
| `Lifetimes.RunKeeps` | src/syscall.c:117-327 | Over every run of such calls, one after the other, by any number of processes the invariant holds in every state. |
| `Lifetimes.RunConserves` | src/syscall.c:117-327 | When all processes of such a run have exited, no page is mapped and the frames in use are those reserved at the start, one root for each fork, and the tables. |
| `Lifetimes.FramesAddUp` | src/syscall.c:117-327 | At any time the frames in use are the reserved ones, the tables and the pages, each counted once. |
| `Interleavings.BetweenCalls` | src/syscall.c:117-327 | With nobody in the middle of a call, the invariant over sections is that over whole calls, and the other way round. |
| `Interleavings.StepKeeps` | src/syscall.c:125-130 | Each section of a call between taking and letting go of the page allocator keeps for every mapped page a live process whose exit, or whose call under way or its child's exit, will free it, whatever calls the others are in the middle of. |
| `Interleavings.SparesOthers` | src/syscall.c:117-327 | No section touches a translation of another process, nor of the child another is making. |
| `Interleavings.Undisturbed` | src/syscall.c:125-130 | Over any sections of others a process finds its struct and its space as it left them. |
| `Interleavings.ExecAsOneCall` | src/syscall.c:286-310 | The four sections of an execve, with any of others in between, leave in its struct and space what execve leaves as one call: the same nodes, the old entries in those kept, the flags asked for in the new ones. |
| `Interleavings.AnonAsOneCall` | src/syscall.c:125-130 | Page after page, with any sections of others in between, an allocation of N pages takes N sections and leaves in struct and space what it leaves as one call, entries included. |
| `Interleavings.ForkAsOneCall` | src/syscall.c:168-253 | The three sections of a fork, with any of others in between, leave the child with the struct, the nodes, the flags and the kernel half that it gets in one call. |
| `Interleavings.ParentAfterFork` | src/syscall.c:168-253 | And the parent's space is as it was, entry for entry. |
| `Interleavings.ExitFreesAll` | src/syscall.c:149-153 | Exit leaves no page of its space and frees their frames, though others may be in the middle of calls. |
| `Interleavings.RunConserves` | src/syscall.c:117-327 | In every state of every interleaving the frames in use are those reserved at the start, one root for each fork begun, the tables and the pages; and without processes there are no pages. |
| `Forking.ChildMaps` | src/syscall.c:181-184 | The child has a page if and only if it lies from 2 MiB below the end of the program or from 8 MiB below the end of the anonymous memory, whatever the parent has there. |
| `Forking.OthersUnchanged` | src/syscall.c:172-184 | All other spaces translate as before, and the child has the parent's kernel half entry for entry. |
| `Forking.ForkIsolates` | src/syscall.c:181-249 | Every parent page in fork's regions is mapped in the child on another frame with the parent's contents, and no page of the parent or of anybody else changed. |
| `Forking.ForkCarriesAllExactlyWhen` | src/syscall.c:182-183 | The child gets every page of its parent if and only if the parent has none between the end of its program and 4 MiB; a program that ends at 4 MiB or above always meets this. |
| `Forking.StackLostExample` | src/syscall.c:182-183 | A process whose program ends at 3 MiB loses the stack page below 4 MiB on fork. |
| `Executing.BufferKeptExactlyWhen` | src/syscall.c:294-304 | At any point of loading the buffer holds the file's byte if and only if no segment lies there or the last one loaded there has the same byte. |
| `Executing.BufferHoldsFile` | src/syscall.c:294-304 | So while segments that miss the buffer are being loaded it still holds the file. |
| `Executing.BufferOverwritten` | src/elf.c:9-28 | Once a segment that meets the buffer is loaded, the buffer holds that segment's byte where they meet. |
| `Executing.OverwrittenExample` | src/elf.c:9-28 | Of a file with the first byte of an ELF file whose one segment is a zero at 8 MiB, loading wipes out that byte in the buffer. |
| `Executing.ExecveKeepsSystem` | src/syscall.c:267-310 | What execve promises of a file whose segments start at 2 MiB or above keeps the invariant over all processes. |
| `Executing.ProgramInPlaceExactlyWhen` | src/syscall.c:284-310 | After execve a segment byte is mapped if and only if its page is none of the buffer's, and then it is the file's byte, or zero beyond the file's part. |
| `Executing.ProgramInPlace` | src/syscall.c:284-310 | So all bytes of segments between 4 and 8 MiB are there. |
| `Executing.SharedPageExample` | src/syscall.c:308-310 | A segment that begins right behind a file of 0x100 bytes in the buffer misses the buffer, is mapped by the loader, and is unmapped with the buffer. |
| `Executing.StackAfterExec` | src/syscall.c:284-310 | Wherever the segments lie, execve leaves all bytes of all other spaces and the stack's bytes as they were, except that a stack byte in a segment is the segment's. |
| `Executing.StackKept` | src/syscall.c:284-310 | So stack bytes in no segment are as they were. |
| `Granting.LeftoversExactlyWhen` | src/memory.c:184-186 | Pages are not cleared when they are mapped: the frame of a page allocated after another process's exit was in use before if and only if it was a page of that process, and then the new page holds what that page held. |
| `Granting.LeftoversShow` | src/memory.c:184-186 | So when memory was full, every page allocated after an exit shows a page of the exited process. |
| `Granting.MappedAfterExec` | src/syscall.c:284-310 | Above 8 MiB execve leaves exactly the pages of the segments that are none of the buffer's. |
| `Granting.GrantedFreeExactlyWhen` | src/syscall.c:292 | The first N pages of anonymous memory after execve are all free if and only if no segment has a page among them behind the buffer. |
| `Granting.OccupiedExample` | src/syscall.c:292 | A program with a byte at 10 MiB that allocates 3 MiB is granted its own page, on the frame it has. |
| `Access.ReachableInTables` | src/memory.c:163-186 | User code can use a page if and only if all four entries read from the tables on its way are present with the user bit. |
| `Access.MappedIsReachable` | src/memory.c:163-186 | With the user bit in every entry of the user halves, the pages that can be used are the mapped ones. |
| `Access.InitialUser` | src/main.c:231-244 | The first process starts with the user bit everywhere. |
| `Access.StepKeepsUserExactlyWhen` | src/syscall.c:297 | A call leaves the user bit everywhere if and only if it is no execve that has to make a table for its buffer. |
| `Access.RunKeepsUserExactlyWhen` | src/syscall.c:297 | Over every run it is everywhere in every state if and only if no execve of the run had to. |
| `Access.AllocatedReachableExactlyWhen` | src/syscall.c:117-310 | A page allocated after execve is mapped, and can be used if and only if each table on its way had the user bit before, or was not there and not made for the buffer. |
| `Access.BufferPagesReachableExactlyWhen` | src/syscall.c:297 | Where the buffer was it can be used if and only if all three tables were there before, with the bit. |
| `Access.FirstProgramLosesMemory` | src/syscall.c:297 | If the first process starts a program before it allocates, the first page that program allocates is mapped and cannot be used. |
| `Semaphores.SemCreate` | src/sem.c:9-16 | A new semaphore with the given count and nobody waiting joins the others without disturbing their queues. |
| `Semaphores.SemWait` | src/sem.c:18-40 | The count falls by one; the caller joins the end of the queue and is blocked if and only if it was not positive; the invariant over all semaphores and processes holds. |
| `Semaphores.SemTryWait` | src/sem.c:44-56 | It takes a token if and only if the count is positive, never blocks, and keeps the invariant over all semaphores. |
| `Semaphores.SemSignal` | src/sem.c:58-73 | The count rises by one; if it was negative the process at the head of the queue, and only that one, becomes ready and is in no queue; the invariant over all semaphores holds. |
| `Semaphores.OnePlace` | src/sem.c:18-73 | A process waits on one semaphore at most, at one place of its queue, although all queues share the one link field. |
| `Semaphores.StaysGood` | src/sem.c:18-73 | After any sequence of operations the queue is as long as the count is below zero. |
| `Semaphores.WokenInOrder` | src/sem.c:58-73 | Over any sequence of operations those woken so far, followed by those still waiting, are those who came, in the order they came. |
| `Semaphores.WokenByItsSignal` | src/sem.c:58-73 | No wake-up is lost: who is k places behind the head is woken by signal k + 1, whoever joins or tries meanwhile. |
| `Pipes.CreateSound` | src/pipe.c:6-24 | A new pipe satisfies everything that later holds of it, whatever its buffer holds, if and only if its length is from 1 to 2^31 - 1; longer ones lose bits in the semaphore's int count. |
| `Pipes.StepKeeps` | src/pipe.c:26-100 | Each statement of each writer, reader and interrupt-side writer, in any interleaving, keeps the invariant over positions, contents, queues and counts, provided an interrupt-side store does not fall between a locked writer's store and its position update. |
| `Pipes.PipeIsFifo` | src/pipe.c:26-100 | In every state of every run with any number of threads, the bytes taken out are a prefix of the bytes put in, each writer's bytes are there in its order, and each reader received what it took. |
| `Pipes.RunSound` | src/keyboard.c:114-119 | That proviso is met whenever the writing side is used in one way only: by `pipe_write` alone, or by `pipe_try_write` alone, as the keyboard does, also when it fires between a reader's load and position update. |
| `Pipes.MidwayWriterExactly` | src/pipe.c:57-64 | If an interrupt-side store does fall between those two statements, the locked writer's bytes are still in the pipe as sent if and only if the next slot happens to hold that very byte. |
| `Pipes.MixedWritersExample` | src/pipe.c:57-64 | A run of seven steps in which mixing the two kinds of writer replaces a byte sent by an old one from the buffer. |
| `Pipes.NoOverwrite` | src/pipe.c:36-37 | A thread about to store, locked or not, stores into no slot that holds a byte still to be read. |
| `Pipes.OneHolder` | src/pipe.c:35-38 | At most one thread is between the lock and the unlock of the buffer. |
| `Pipes.TokensConserved` | src/pipe.c:19-21 | In every such state the free tokens of both semaphores and those held by threads, woken ones included, add up to the buffer length; so no count exceeds it. |
| `Pipes.CallsComplete` | src/pipe.c:43 | A write that returns has put in all its data; a read that returns reports as many bytes as it received, and its buffer holds those. |
| `Pipes.WritePutsInAll` | src/pipe.c:26-47 | Over any run: a write that returns has sent exactly the bytes it was called with, behind what the thread had sent before. |
| `Pipes.WriteArrives` | src/pipe.c:26-47 | And they are in the pipe's history, as given, behind the thread's earlier ones. |
| `Pipes.TryWritePutsInOne` | src/pipe.c:49-70 | Over any run: a try-write sends its byte if and only if there was a free token when it began; otherwise nothing at all changes. |
| `Pipes.ReadTakesSome` | src/pipe.c:72-100 | Over any run: a read of N > 0 bytes that returns has received 1 to N, and fewer than N only if there was no byte at the moment it stopped; it reports how many. |
| `Pipes.WaitsForFirstOnly` | src/pipe.c:78-85 | A reader that waits has received nothing yet in the call it is in. |
| `Pipes.UnqueuedCanMove` | src/pipe.c:26-100 | A thread that waits in no queue can always take its next step. |
| `Pipes.NoDeadlock` | src/pipe.c:26-100 | When no thread can move, nobody waits for the lock, writers wait only if the pipe is full and readers only if it is empty. |
| `Locks.StepKeeps` | src/sem.c:18-73 | Every lock and unlock keeps count = 1 - holders - waiters for every mutex, handed-over ones included. |
| `Locks.OneHolder` | src/sem.c:18-73 | A mutex has at most one holder. |
| `Locks.RankRises` | src/fs/vfs.c:10-20 | Who holds a mutex waits only for one that comes later in the order. |
| `Locks.NoCircularWait` | src/fs/vfs.c:10-20 | However many processes wait for one another, the chain never comes back to its start. |
| `Locks.SomebodyMoves` | src/fs/vfs.c:10-20 | As long as some process has not finished, some process can go on. |
| `Locks.CallOrderly` | src/fs/vfs.c:22-139 | Every path through mounting, unmounting, opening and reading works on the list and on the heap only while it holds their mutexes, takes the list before the heap, and lets go of all it took. |
| `Locks.MountWork` | src/fs/vfs.c:22-61 | How often each path of mounting works on the list and on the heap. |
| `Locks.OpenWork` | src/fs/vfs.c:116-128 | How often each path of opening does. |
| `Locks.UmountWork` | src/fs/vfs.c:96-114 | How often unmounting does. |
| `Locks.UmountInOnePiece` | src/fs/vfs.c:96-114 | Unmounting holds the list from its lookup to the removal. |
| `Locks.UsersHold` | src/sem.c:18-73 | Who is about to work on what a mutex guards holds that mutex. |
| `Locks.FileSystemNeverDeadlocks` | src/fs/vfs.c:22-139 | For any processes making any such calls in any interleaving: one holder at most, one process at most working on what a mutex guards, no circular wait, and progress, in every state. |
| `Locks.OppositeOrdersDeadlock` | src/fs/vfs.c:10-20 | The order is needed: two processes that take two mutexes in opposite orders reach a state in which neither can ever move. |
| `Scheduling.Scheduler.GoRound` | src/sched.c:106-124 | Whatever the links are, the loop stops at the first process it comes to that is neither dead nor blocked, if it comes to one. |
| `Scheduling.Scheduler.Schedule` | src/sched.c:100-127 | A process that was neither dead nor blocked becomes the running one, all that are nearer in cyclic order were dead or blocked, and its saved context is handed out; the old one keeps its context and is ready unless dead or blocked; nobody else changes. |
| `Scheduling.QueuedNotChosen` | src/sched.c:106-124 | No process in a semaphore's queue is ever gone to, whatever the links are. |
| `Scheduling.SwitchKeepsQueues` | src/sched.c:100-127 | A switch leaves all semaphores and their queues as they are, and whom it runs waited in none. |
| `Scheduling.VisitsExactly` | src/sched.c:106-124 | From a process on a ring of links the loop comes, over any number of turns, to each process of the ring and to no other. |
| `Scheduling.SpinsExactlyWhen` | src/sched.c:106-124 | On a proper list some turn of the loop, however late, comes to a process that is neither dead nor blocked if and only if some listed process is neither; otherwise it goes on for ever. |
| `Scheduling.Scheduler.MarkCurrentDead` | src/sched.c:170-179 | The process that runs next is the first behind the caller that can, never the caller, which is dead and the only one that can no longer run. |
| `Scheduling.Scheduler.InsertProcess` | src/sched.c:183-194 | The process is last in the chain, with its own `next` as it was, the order of the others is kept, and the list is proper if and only if that `next` is null. |
| `Scheduling.InsertForked` | src/syscall.c:192-253 | A forked process, with its parent's `next`, leaves a proper list if and only if the parent is last. |
| `Scheduling.InsertedEndsExactlyWhen` | src/sched.c:183-194 | After a process is appended, the walk of the next `insert_process` comes to an end at some turn if and only if the appended one's `next` is null. |
| `Scheduling.OnlyTheRestRuns` | src/sched.c:106-124 | If that `next` is the process at k, then from the one before it on the loop of `schedule` comes, over any number of turns, to exactly those from k on. |
| `Scheduling.NeverRunAgain` | src/sched.c:100-127 | So over any number of switches, whatever can run, no process before k, a forking parent included, is chosen again. |
| `Scheduling.SecondForkExample` | src/syscall.c:192-253 | After a second fork by the same process the walk of an insertion never ends and the parent is never come to again. |
| `Scheduling.Scheduler.RemoveProcess` | src/sched.c:378-400 | The list is the old one without the process, in the same order, and an unlisted process changes nothing. |
| `Scheduling.SwitchNearer` | src/sched.c:100-127 | A switch that passes over a process able to run brings it nearer in cyclic distance. |
| `Scheduling.RemoveNotFarther` | src/sched.c:378-400 | Taking another process off the list never moves a process farther away. |
| `Scheduling.InsertFarther` | src/sched.c:183-194 | A process put at the tail moves others at most one place away. |
| `Scheduling.RunsWithinListLength` | src/sched.c:100-127 | A process that stays able to run is passed over fewer times than the list was long, plus one for each insertion. |
| `Heap.Allocator.constructor` | src/alloc.c:4-16 | A heap of 64 bytes or more is one free block: all of it but for one header. |
| `Heap.Allocator.Alloc` | src/alloc.c:18-51 | A pointer is null if and only if no free block has the size asked for, at least 32, or 64 bytes more; otherwise it is a new payload of just that size in the first block that fits, and all live payloads stay. Only headers are written. |
| `Heap.CodedTestExactlyWhen` | src/alloc.c:31 | The size test in the code, whose sum may wrap, decides rightly for every block if and only if the sum does not wrap or no free block is large enough for the wrapped sum. |
| `Heap.CodedTestWithSpare` | src/alloc.c:31 | With a free block of 63 bytes or more of another size it decides rightly if and only if the request is below 2^64 less 64. |
| `Heap.WrappedTestExample` | src/alloc.c:31 | A request for all but one byte of the address space passes the test on a free block of 64 bytes. |
| `Heap.TakeKeeps` | src/alloc.c:26-46 | Allocation keeps the blocks tiling the heap, each of 32 bytes or more, with no two free ones side by side. |
| `Heap.TakeAddsPayload` | src/alloc.c:26-46 | The payload handed out is new, and every live payload keeps its place and size. |
| `Heap.Allocator.Free` | src/alloc.c:53-87 | A live payload is freed, that one only, and its block merged with free neighbours on both sides; null pointers, pointers outside the heap and free blocks change nothing. Only headers are written. |
| `Heap.FreeKeeps` | src/alloc.c:67-85 | Merging on both sides leaves no two free blocks side by side, and the blocks still tile the heap. |
| `Heap.FreeDropsPayload` | src/alloc.c:53-87 | Freeing takes away that payload, and every other live payload keeps its place and size. |
| `Heap.FreeUndoesTake` | src/alloc.c:18-87 | Freeing a block just allocated restores the identical list of blocks, after an exact fit and after a split. |
| `Heap.FreeingAllLeavesOneBlock` | src/alloc.c:53-87 | Freeing all live payloads, in whatever order, leaves one free block of the heap size less 32. |
| `Heap.RunKeeps` | src/alloc.c:18-87 | Over every sequence of allocations and frees of live payloads the heap stays good. |
| `Heap.LiveApart` | src/alloc.c:18-51 | Live payloads lie inside the heap and do not overlap; a header lies between any two. |
| `Heap.LivePayloadsUnwritten` | src/alloc.c:33-44 | No header an allocation or a free writes overlaps a payload live before and after it. |
| `Heap.SplitLinked` | src/alloc.c:33-44 | The pointer updates of a split put one node into the doubly linked list and keep `prev` and `next` inverse to each other. |
| `Heap.MergeLinked` | src/alloc.c:70-85 | The pointer updates of a merge take one node out of the doubly linked list and keep `prev` and `next` inverse to each other. |
| `Ustar.Oct2Bin` | src/fs/initramfs.c:10-21 | The accumulation in 32-bit arithmetic gives the number the digits stand for, wrapped to 32 bits once. |
| `Ustar.OctalRoundTrip` | src/fs/initramfs.c:10-21 | Octal digits of a number that fits them stand for that number. |
| `Ustar.OctalExample` | src/fs/initramfs.c:10-21 | The digits 1750 stand for 1000. |
| `Ustar.HeaderLayout` | src/fs/initramfs.c:27-31 | An encoded header has the name with zeros behind it in bytes 0 to 99, the size in octal in 124 to 134 and the magic in 257 to 261. |
| `Ustar.EntryLayout` | src/fs/initramfs.c:35 | An entry is its header, its content, and what fills the last block of 512 bytes. |
| `Ustar.InitramfsLookup` | src/fs/initramfs.c:23-38 | A null name is refused; otherwise the answer is that of the walk over the headers, in order, to the first whose name matches from its second byte on. |
| `Ustar.NameMatchesExactlyWhen` | src/fs/initramfs.c:31 | In an encoded archive a header matches a name of at most 99 bytes if and only if the entry is called that behind any first byte and does not fill its 100-byte name field. |
| `Ustar.SkipExactlyWhen` | src/fs/initramfs.c:35 | Of all sizes eleven octal digits allow, the step to the next header leads just behind the file if and only if the file has at most 2^31 - 1024 bytes, and for all others it falls short; it leads back or stays if and only if the size modulo 2^32 is above 2^31 - 1024 and at most 2^32 - 1023. |
| `Ustar.SkipBackExample` | src/fs/initramfs.c:35 | From a file of 2^31 - 1023 bytes the walk steps back by 2^31. |
| `Ustar.SkipShortExample` | src/fs/initramfs.c:10-35 | A file of 2^32 + 5 bytes is taken for one of 5 bytes, and the walk goes on inside its content. |
| `Ustar.LookupFindsFirst` | src/fs/initramfs.c:23-38 | For any list of files encoded as ustar, whatever their contents and other header fields, the lookup finds the first that answers to the name, with its size as an int and its content, and misses when there is none. |
| `Ustar.OpenFile.Read` | src/fs/initramfs.c:77-94 | A read hands out the bytes of the file's content from the offset on, as many as asked for or as are left, whichever is less, and moves the offset behind them. |
| `Ustar.ReadsConcatenate` | src/fs/initramfs.c:77-94 | However the counts are cut up, what successive reads hand out adds up to a prefix of the content from where they began. |

## Left out

- Syscalls.Fork: the frame for the new root is required to exist, because the source uses the result of `allocate_page` unchecked (src/syscall.c:169-175); PID and resources of the child are not modelled, and inserting it is `Scheduling.InsertForked`.
- Syscalls.Execve: the jump to the entry point is left out. Segments must miss the buffer the file is read into, since otherwise the loader reads its own output as headers; `Executing.BufferKeptExactlyWhen` and `Executing.BufferOverwritten` say when the buffer keeps the file.
- Syscalls.AnonAllocate: the end of the anonymous memory must stay below 2^47 less 8 MiB, because ownership of frames is claimed for the user half of the tables only.
- Elf.MapElf: segments must end below 2^32, be `Covered` (so have at most 2^31 bytes) and have their file bytes inside the file, and the headers must lie inside it; the code trusts the file in these points. The file of the first process is not in a buffer of the user half but in kernel memory, which no segment can reach; reading it from there is not modelled.
- Elf.SegmentsReadBack: for such segments only; for the others see `Elf.CoveredExactlyWhen`.
- Frames.BitmapAllocator.FreePage: an address inside an area must be a frame in use, as the source assumes of its callers.
- Frames.BitmapAllocator.constructor: entries are page aligned and do not overlap, as the boot loader promises, at most 256 of them become areas, and sizes for which the header loop never ends are excluded, since then nothing is returned.
- Memory.Memory.MapMemoryPage: addresses are those of the user half, below 2^47, and flags are present and not huge, as in all calls; upper-half entries are carried along unchanged.
- Heap.Allocator.constructor: heaps under 64 bytes are excluded; for them the source subtracts to a block smaller than any it hands out, or wraps.
- Heap.Allocator.Alloc: requests whose wrapped sum a free block would pass are excluded; `Heap.CodedTestExactlyWhen` says which.
- Memory.Memory.NewRoot: a frame is required to be left, because the source goes on with frame 0 otherwise.
- Heap.Allocator.Free: a pointer inside the heap is taken to be a payload, as the source does; which one is a ghost parameter.
- Scheduling.Scheduler.RemoveProcess: one atomic step, although the source does not disable interrupts there (src/sched.c:378-400).
- Scheduling.Scheduler.InsertProcess: starts from a proper list, because on any other the walk never ends (`Scheduling.InsertedEndsExactlyWhen`); what `remove_proc_from_list` does to a list tied into a loop is not modelled.
- Ustar.LookupFindsFirst: names looked up have at most 99 bytes and files in front of the hit at most 2^31 - 1024 bytes, the exact limits being those of `Ustar.NameMatchesExactlyWhen` and `Ustar.SkipExactlyWhen`.
- Lifetimes.RunConserves: takes each call as one step; `Interleavings` takes calls apart into sections under the page allocator's mutex. The contents of pages are not part of `Interleavings`, and neither is a switch inside a section, where nobody else can change the page tables or the bitmap.
- Pipes.MidwayWriterExactly: statements are the steps; the store and the position update of src/pipe.c:36-37 are several instructions each, and an interrupt inside one of them, which can lose an update in other ways, is not modelled.
- Pipes are a state machine on values and not a class, because their statements interleave; semaphore counts are unbounded integers there and in `Semaphores`, bounded above by the buffer length in `Pipes.TokensConserved`.
- Frames that serve as tables are modelled by their words and frames that serve as pages by their bytes; a frame never serves as both, since tables are never freed. Accessed and dirty bits set by the processor are left out.
- The TLB, huge pages beyond the reader's refusal of them, and ownership of upper-half tables.
- Context save and restore, interrupt setup, port I/O and everything in assembly; only the pointer to the saved context is kept.
- `src/ll.c` and lookup among several mount points, the growth of resource tables, `pipe_close` and the branches for pipes without readers or writers, `waitpid`, PID numbers, system call dispatch, keyboard scan codes, the framebuffer, `printk` and `src/string.c`.
- What `open` and `close` of the initial file system allocate, and that a file of size 0 cannot be opened.
