# pintos2 virtual memory, indexed inodes and file system calls, in Dafny

This project models the core of a Pintos kernel (the pintos2 repository) and
proves properties of that model. It covers:

- **Swap space** (`vm/swap.c`). A bitmap of swap sectors; a page occupies a run
  of 8 free sectors, found by first fit and flipped in one step. The swap device
  is a sequence of 512-byte sectors.
- **Frame table** (`vm/frame.c`). A FIFO list of frames. Eviction pops the oldest
  frame, clears the present bit of its page-table word, writes the page to swap
  and records the slot in the page's descriptor.
- **Supplemental page table** (`vm/page.c`, `vm/page.h`). Descriptors keyed by
  their page-aligned user address, the FNV-1 hash and the `<` order on that key,
  keyed lookup, and the `LOC_*` location flags with the `setLocation` /
  `clrLocation` bit macros.
- **Page-fault handling** (`userprog/exception.c`). The fault counter, decoding of
  the error code, the up-front rejections, the choice between loading a known
  page, growing the stack and rejecting, and `kill`'s dispatch on the code segment.
- **Indexed inodes** (`filesys/inode.c`, FILESYS build):
  - sizing;
  - the offset-to-sector mapping through 10 direct entries, one indirect block of
    128 entries and a double-indirect block of 128 x 128;
  - tier-by-tier growth with a shrinking allocation chunk;
  - block release;
  - chunked reads and writes through the index;
  - the open-inode list with its open and deny-write counters.
- **File system calls** (`userprog/syscall.c`):
  - the per-thread descriptor list and the global descriptor list;
  - the list of recorded exit statuses;
  - the fd-validation rules of `read` and `write`;
  - the dispatch in `syscall_handler`.

The model follows the shape of the C code. Code that updates state in place is a
class:
- `SwapSpace` (with the bitmap kept as an `array`);
- `FrameTable`, `FaultHandler`;
- `DiskInode` (with the direct-entry array);
- `Inode`, `InodeTable`;
- `Thread`, `Kernel`.

Its loops become methods proved against specification functions. Computations
become functions and lemmas.

The model leaves out what the kernel gets from elsewhere and passes it in as
parameters or havoc:
- the answers of the free-map allocator, `filesys_open`, `file_read`,
  `file_write`, `file_length`, `file_tell`, `malloc` and the user-address check;
- the page-table word;
- the bytes of a frame.

A kernel `PANIC` or failed `ASSERT` appears as an outcome value (for example
`SwapExhausted`, `OutOfDiskSpace`, `KernelPanic`). Nothing models it as a
precondition, except where noted under "Left out".

Where the repository's design notes and its code disagree, the model follows the
code:
- eviction always writes the frame to swap; there is no file-backed or
  dirty-page write-back and no mmap;
- every fault on a present page is rejected, with no copy-on-write or
  protection handling;
- stack growth has no upper bound below `PHYS_BASE` (see
  `Fault.GrowthHasNoUpperBound`).

## Model

| member | source | states |
|---|---|---|
| PageFlags.SetLocation | vm/page.h:11 | bit n of the byte is set and every other bit is unchanged; a shift of 8 or more leaves the byte as it was |
| PageFlags.ClrLocation | vm/page.h:12 | bit n is cleared and every other bit is unchanged |
| PageFlags.SetLocationIdempotent | vm/page.h:11 | setting the same bit twice is the same as setting it once |
| PageFlags.ClrUndoesSet | vm/page.h:11-12 | clearing a bit that was just set restores a byte that did not have it |
| PageFlags.SetLocationMisreadsMask | vm/page.h:6-11 | the macro takes a bit index, so passing a `LOC_*` mask sets the next flag up: `setLocation(LOC_SWAP, 0)` is `LOC_FILE` |
| PageFlags.MarkLocation | vm/page.h:6-9 | OR-ing a location mask sets exactly the bits of the mask and keeps the others |
| PageFlags.MarkFreshIsMask | vm/frame.c:58 | marking a fresh location with `LOC_SWAP` gives exactly `LOC_SWAP` |
| SupPage.GetSupPTE | vm/page.c:9-16 | the new descriptor's key is the page-aligned page holding the address; location zero, no file, offsets 0 |
| SupPage.GetSupPTESamePage | vm/page.c:11 | two addresses in one page give the same key |
| SupPage.PageHashAgreesWithLess | vm/page.c:19-28 | entries `page_less` cannot order hash to the same value, as the hash table needs of its two callbacks |
| SupPage.PageLessStrictOrder | vm/page.c:24-28 | `page_less` is irreflexive, transitive and asymmetric, and two entries are incomparable exactly when their keys are equal |
| SupPage.PageLookup | vm/page.c:30-36 | a found entry is in the table and has the key; nothing is found exactly when no entry has the key |
| SupPage.PageLookupFindsEntry | vm/page.c:30-36 | with unique keys, looking up an entry's key yields that entry |
| Swap.FirstFreeRunFrom | vm/swap.c:19 | the first-fit scan yields the lowest start of 8 free bits, or none when there is none |
| Swap.FirstFreeRunUnique | vm/swap.c:19 | the scan's answer is the unique lowest free run |
| Swap.ReadSlotWriteSlot | vm/swap.c:24-33 | reading a slot back after writing a page to it yields the page |
| Swap.WriteSlotFrame | vm/swap.c:24-26 | writing a slot changes no sector outside its 8 |
| Swap.ClaimThenFreeRestores | vm/swap.c:18-36 | claiming the first free run and then freeing it restores the bitmap |
| Swap.ClaimedRunNotReissued | vm/swap.c:19 | once claimed, a run is not handed out again before it is freed; the next run found is disjoint from it |
| Swap.SetBitNeverClaimed | vm/swap.c:19 | a sector in use is never part of the run found |
| Swap.SwapSpace.constructor | vm/swap.c:9-13 | one bit per swap sector, all free |
| Swap.SwapSpace.WriteToBlock | vm/swap.c:15-28 | the slot is the first free run of the old bitmap; its 8 bits become set and its 8 sectors hold the page; nothing changes when the swap is full (the panic) |
| Swap.BlockRead | vm/swap.c:31-33 | a sector read into the page buffer fills exactly its 512 bytes and changes no other byte |
| Swap.SwapSpace.SetMultiple | vm/swap.c:35-37 | exactly bits idx..idx+7 take the given value; every other bit is kept |
| Swap.SwapSpace.ReadFromBlock | vm/swap.c:30-40 | the page read is the slot's 8 sectors; exactly bits idx..idx+7 are cleared |
| Swap.SwapOutIn | vm/swap.c:15-40 | swapping a page out and back in returns the same page and leaves the bitmap as it was |
| Frames.ClearPresent | vm/frame.c:53-54 | the present bit is clear and every other bit of the page-table word is unchanged |
| Frames.SwappedOut | vm/frame.c:57-59 | the evicted page's descriptor says swap and the slot; its key, file and file offset are kept |
| Frames.FrameTable.constructor | vm/frame.c:21-24 | the frame table starts empty |
| Frames.FrameTable.InstallFrame | vm/frame.c:27-36 | the new entry goes at the back of the list |
| Frames.FrameTable.EvictFrame | vm/frame.c:38-67 | the victim is the oldest entry and leaves the list; the present bit is cleared; the page is written to the first free swap run, which is recorded in the descriptor; when the swap is full the result is the panic |
| Frames.FifoClient | vm/frame.c:27-67 | of two frames installed, the first installed is the first evicted |
| Fault.DecodeErrorCode | userprog/exception.c:146-148 | not-present, write and user are read from bits 0, 1 and 2 of the error code |
| Fault.Kill | userprog/exception.c:73-111 | only a fault in the kernel code segment panics; user and unknown segments end the thread |
| Fault.ClassifyFault | userprog/exception.c:143-273 | a fault refused up front is rejected; with a descriptor for the page it is loaded; without one, near the stack it grows the stack, otherwise it is rejected; without VM it goes to `kill` |
| Fault.UnmappedFarFaultRejected | userprog/exception.c:237-254 | a fault with no descriptor and away from the stack is rejected |
| Fault.GrowthHasNoUpperBound | userprog/exception.c:238-241 | any user fault above the stack pointer and below `PHYS_BASE` grows the stack |
| Fault.FaultHandler.PageFault | userprog/exception.c:124-274 | counts the fault once and acts as classified |
| InodeMap.BytesToSectors | filesys/inode.c:14-18 | the sector count is the ceiling of size / 512 |
| InodeMap.ByteToSector | filesys/inode.c:26-32 | a byte inside the file lies in the returned sector; past the end the result is -1 |
| InodeMap.PathOf | filesys/inode.c:387-405 | every sector index below 16522 has a valid place in the direct, indirect or double-indirect tier; beyond that there is none |
| InodeMap.PathRoundTrip | filesys/inode.c:387-425 | a sector index and its place in the index tiers determine each other |
| InodeMap.InodeOffsetToSector | filesys/inode.c:382-426 | the sector of byte `offset` is read from the direct entry, the indirect block or the double-indirect blocks by the tier of offset / 512, and is -1 past 16522 sectors |
| InodeMap.InodeOffsetToSectorAsWritten | filesys/inode.c:382-426 | as written, the opening assertion fails exactly for an offset past the allocated sectors; otherwise the direct and indirect tiers agree with the intended lookup, the double-indirect inner index is taken mod 512, and past 16522 sectors the result is -1 |
| InodeMap.AsWrittenDoubleIndirect | filesys/inode.c:407-418 | as written, the lookup agrees with the intended one exactly when the inner index is below 128, and otherwise reads past the 128-entry block |
| InodeMap.AsWrittenReadsPastBlockAt173056 | filesys/inode.c:407-418 | byte 173056 makes the as-written lookup read entry 200 of a 128-entry block |
| InodeMap.IsDirectBlockSequential | filesys/inode.c:283-300 | true exactly when n != 0 and the first n direct entries are consecutive sectors, so a negative count answers true |
| InodeMap.ReleaseBlock | filesys/inode.c:309-329 | a count of 0 returns 0 at once; a refused buffer is the kernel panic; otherwise frees min(128, n) entries of the index block, in order, and returns n minus that (n itself when n < 0) |
| InodeMap.ReleaseDirectBlock | filesys/inode.c:265-281 | a count of 0 returns 0; for 0 < m = min(n, 10) < 10 the path with no return value is taken exactly when the first m entries are consecutive, and otherwise they are freed one by one and n - m is returned; a negative count takes the no-value path; a full 10 trips the assertion |
| InodeGrow.ShrinkChunk | filesys/inode.c:199-206 | a failed chunk shrinks to a smaller chunk of at least 1, and never by more than 10 |
| InodeGrow.StepChunk | filesys/inode.c:183-207 | a granted request stores the chunk, capped by what is left; a refused chunk of 1 is the out-of-disk panic; any other refusal retries with a smaller chunk |
| InodeGrow.FullIndirectTierRefused | filesys/inode.c:177 | as written, the assertion refuses a file that fills all 128 indirect entries, which the intended bound admits |
| InodeGrow.ChunkSectorBlocks | filesys/inode.c:175-210 | slots start..start+filled-1 hold the runs the free map granted, in order, each run consecutive sector numbers and no longer than the first chunk; Filled exactly when all num are stored; on disk-full the last chunk tried was 1; no other slot changes |
| InodeGrow.DiskInode.constructor | filesys/inode.c:228-242 | a new on-disk inode with its length and index sectors and no data sectors yet |
| InodeGrow.DiskInode.ExtendDirect | filesys/inode.c:53-90 | takes j = min(n, free direct entries); the new direct entries hold the granted sectors, either one run of j consecutive sectors or single sectors one at a time; on success adds j to the sector count and returns n - j; a request of 0 returns 0; other entries are unchanged |
| InodeGrow.DiskInode.ExtendIndirect | filesys/inode.c:92-118 | takes j = min(n, free indirect entries); slots used..used+j-1 of the written-back indirect block hold the granted sectors; when the block already held entries its other slots are kept, otherwise they are indeterminate; adds j to the sector count and returns n - j; no other device sector changes |
| InodeIo.TransferLen | filesys/inode.c:586-592 | a transfer moves at most `size` bytes, never past the end of the file, nothing at or past the end, and something whenever both allow it |
| InodeIo.FileBytesInSector | filesys/inode.c:594-603 | the bytes of the file inside one sector are that sector's slice |
| InodeIo.NextChunk | filesys/inode.c:584-590 | the next chunk starts at the byte's offset in its sector and is the largest piece inside the request, the file and that sector |
| InodeIo.LookupSector | filesys/inode.c:578-579 | for a byte inside the file, the sector found is the file's sector holding that byte |
| InodeIo.InodeReadAt | filesys/inode.c:571-613 | returns TransferLen bytes, and they are the file's bytes from `offset` |
| InodeIo.TransferStepAsWritten | filesys/inode.c:576-592 | as written, a pass of the transfer loop looks the sector up before the end-of-file test and panics exactly when the offset is past the allocated sectors; a chunk it transfers stays within `size`, the sector and the file |
| InodeIo.AsWrittenPanicsOnlyOnEmptyTransfer | filesys/inode.c:576-592 | the as-written pass panics only where the intended transfer moves no bytes, and otherwise stops exactly when the intended transfer is empty |
| InodeIo.EmptyFileReadPanicsAsWritten | filesys/inode.c:576-592 | as written, reading 1 byte at offset 1 of an empty file trips the lookup's assertion, though the intended transfer moves 0 bytes |
| InodeIo.ChunkIsBytewise | filesys/inode.c:645-668 | writing a chunk inside one sector equals writing its bytes one by one |
| InodeIo.WriteBytesAppend | filesys/inode.c:672-675 | writing a + b is writing a and then b right after it |
| InodeIo.ChunkExtends | filesys/inode.c:641-675 | one more chunk continues the bytewise write of everything before it |
| InodeIo.WriteSectorChunk | filesys/inode.c:645-669 | whole-sector and bounce-buffer writes both leave the sector's other bytes intact |
| InodeIo.WriteNextChunk | filesys/inode.c:645-675 | one pass of the write loop leaves the device holding the bytewise write of the buffer up to the chunk's end |
| InodeIo.InodeWriteAt | filesys/inode.c:616-679 | with writes denied returns 0 and changes nothing; otherwise writes TransferLen bytes of the buffer at `offset`, as a bytewise write, never extending the file |
| InodeIo.DistinctSectorsNoAlias | filesys/inode.c:382-426 | a file whose sectors are pairwise distinct never stores two of its bytes in one place |
| InodeIo.WriteBytesFrame | filesys/inode.c:645-669 | a write changes no device byte outside the positions written |
| InodeIo.FirstByteSurvives | filesys/inode.c:616-679 | the first byte written is not overwritten by the rest of the write |
| InodeIo.ReadAfterWrite | filesys/inode.c:571-679 | reading back the bytes just written yields exactly them |
| InodeOpen.Inode.constructor | filesys/inode.c:500-506 | a new inode has one opener, writes allowed, not removed |
| InodeOpen.Inode.DenyWrite | filesys/inode.c:683-688 | one more denial, still at most the number of openers |
| InodeOpen.Inode.AllowWrite | filesys/inode.c:693-699 | one denial fewer, never below 0 |
| InodeOpen.InodeTable.constructor | filesys/inode.c:42-46 | no inode is open |
| InodeOpen.InodeTable.Reopen | filesys/inode.c:511-517 | a null inode is returned untouched; otherwise one more opener |
| InodeOpen.InodeTable.Open | filesys/inode.c:479-508 | an open sector yields the same inode with one more opener; otherwise a new inode with one opener at the front of the list, or none when allocation fails; the table stays valid |
| InodeOpen.InodeTable.Close | filesys/inode.c:355-379 | one opener fewer; the last close takes exactly that inode off the list and reports whether its blocks are released (it was removed) |
| InodeOpen.OpenTwice | filesys/inode.c:484-493 | opening a sector twice yields one inode with two openers |
| Syscall.FirstMatch | userprog/syscall.c:393-402 | the first index whose descriptor has the number and owner, or the length when none |
| Syscall.FindFileSound | userprog/syscall.c:393-402 | lookup finds a file exactly when a descriptor matches, and then the file of a matching descriptor |
| Syscall.RemoveFirstNoMatch | userprog/syscall.c:411-435 | an unknown (fd, thread) leaves the list unchanged |
| Syscall.RemoveFirstOne | userprog/syscall.c:411-435 | with a match, removal takes out exactly one descriptor, the first matching one |
| Syscall.Owned | userprog/syscall.c:271-272 | the thread's share of the global list holds only its descriptors, all from the list |
| Syscall.OwnedAppend | userprog/syscall.c:271-272 | appending to the global list appends to the owner's share |
| Syscall.OwnedRemoveFirst | userprog/syscall.c:409-435 | removing from the global list removes the same descriptor from the owner's share |
| Syscall.OwnedFindFile | userprog/syscall.c:393-422 | only the owner's descriptors can match, so both lists give the same file |
| Syscall.CloseKeepsStep | userprog/syscall.c:238 | closing from both lists keeps the thread's list valid and in step with its share of the global list; an fd unknown to the thread is unknown globally |
| Syscall.RemoveKeepsOrder | userprog/syscall.c:424-435 | removal keeps the other descriptors in order |
| Syscall.TakeStatusAt | userprog/syscall.c:369-381 | `getReturnStatus` returns the first record of the thread and takes out exactly that record |
| Syscall.TakeStatusNone | userprog/syscall.c:369-381 | with no record of the thread, the answer is -1 and the list is unchanged |
| Syscall.SetThenGetTwice | userprog/syscall.c:359-381 | a status set for a thread is returned once; the next get answers -1 |
| Syscall.Dispatch | userprog/syscall.c:87-125 | an invalid stack pointer ends the caller; numbers 0..12 reach their call; any other number does nothing |
| Syscall.DispatchReachesEveryCall | userprog/syscall.c:97-124 | every system call is reached by its own number |
| Syscall.GetFileFromFD | userprog/syscall.c:393-402 | the file of the first descriptor with this number and owner, or none |
| Syscall.CloseHelper | userprog/syscall.c:411-435 | unlinks and returns the first matching descriptor; none exactly when nothing matches |
| Syscall.OpenAssertAdmitsConsole | userprog/syscall.c:264 | as written, the assertion on a new descriptor holds for 0 and 1 too |
| Syscall.Thread.constructor | userprog/syscall.c:263 | a thread has no descriptors and has issued up to 1, so its first open yields 2 |
| Syscall.Kernel.constructor | userprog/syscall.c:77-82 | both lists start empty |
| Syscall.Kernel.SetReturnStatus | userprog/syscall.c:359-367 | appends the record unless the allocation fails |
| Syscall.Kernel.GetReturnStatus | userprog/syscall.c:369-381 | returns and takes out the first record of the thread, or -1 |
| Syscall.Kernel.Exit | userprog/syscall.c:186-196 | the status is args[1], or -1 without arguments; it is recorded only when a parent waits and the record's allocation succeeds |
| Syscall.Kernel.Open | userprog/syscall.c:248-276 | a bad name ends the caller with -1, recorded as by exit; a failed open returns -1 and changes nothing; otherwise fd = ++lowestOpenFD, above every fd the thread holds and neither 0 nor 1, added to both lists |
| Syscall.Kernel.Close | userprog/syscall.c:230-246 | removes the (fd, thread) descriptor from both lists and closes its file; an unknown fd changes nothing; the counter is not lowered |
| Syscall.CloseThenOpen | userprog/syscall.c:230-276 | a descriptor number, once closed, is never issued again |
| Syscall.Kernel.Read | userprog/syscall.c:311-339 | a bad buffer or fd 1 or 2 ends the caller with -1, recorded as by exit; an unknown fd reads 0; otherwise file_read's count |
| Syscall.Kernel.Write | userprog/syscall.c:203-228 | a bad buffer or fd 0 or 2 ends the caller with -1, recorded as by exit; fd 1 reports `size`; an unknown fd writes 0; otherwise file_write's count |
| Syscall.QueryFile | userprog/syscall.c:342-355 | `filesize` (and `tell`, userprog/syscall.c:294-309, of the same shape): the answer for the descriptor's file, 0 for an unknown fd |
| Syscall.Seek | userprog/syscall.c:278-292 | the descriptor's file is repositioned; an unknown fd has no effect |

## Left out

- Block-device I/O, the hardware page table and `pagedir`, `palloc`, locks and
  interrupt levels are not modelled. The swap device, the file-system device,
  the page-table word and the frame bytes are values.
  - The model also has no concurrency. The bitmap, frame-table and file-system
    locks only serialise, so the model is sequential.
- The free-map allocator (`free_map_allocate`, `free_map_release`) answers
  nondeterministically (`InodeGrow.FreeMapAllocate`). Released sectors are
  returned as lists rather than given back to a free map.
- These file-layer calls are parameters: `filesys_open`, `file_read`,
  `file_write`, `file_length`, `file_seek`, `file_tell` and `file_close`. So is the
  user-address check `isValidAddr`. The system calls `halt`, `exec`, `wait`,
  `create` and `remove` only forward to those layers. They appear only in
  `Syscall.Dispatch`.
- `malloc` failures are modelled where the code tests for them: `inode_open`,
  `setReturnStatus` and `release_block`, whose test is a kernel panic
  (`InodeMap.MallocPanic`). The test in `release_double_indirect_block` belongs
  to a function that is not modelled (see below). Where the code does not test
  the result (the index buffers of `extend_inode_indirect` and
  `inode_offset_to_sector`, the descriptor of `open`), the allocation is taken
  to succeed. A bounce-buffer failure in `inode_read_at` or `inode_write_at`
  only stops the transfer early and is not modelled.
- Pointers and aliasing: a frame entry holds its page descriptor by value. So do
  a file descriptor its file and the global list its descriptors. The C shares one
  object between the two descriptor lists. The model keeps equal values in both
  and proves the lists stay in step (`Syscall.Kernel.Consistent`).
- Integer widths: `off_t` and `int` overflow and the 32-bit wrap of
  `lowestOpenFD` are not modelled. Sizes, offsets and descriptor numbers are
  unbounded integers. The page-table word, the error code and the FNV hash are
  32-bit bit vectors.
- `extend_inode_dbl_indirect`, `inode_create`, `inode_remove`, `inode_length`,
  `inode_get_inumber` and `get_individual_sector`: growth is modelled tier by tier
  through the direct and indirect tiers and `chunk_sector_blocks`. The
  double-indirect growth and inode creation drive the same helpers.
- `release_indirect_block` and `release_double_indirect_block`: the double-indirect
  release (filesys/inode.c:332-353) falls off its end without a return value, so
  it has no specified result. `inode_close` reports whether blocks are released
  instead of releasing them.
- InodeGrow.DiskInode.ExtendDirect: does not model the `write_back` argument of
  `extend_inode_direct`. That argument only chooses whether the inode sector is
  written to disk.
- InodeMap.InodeOffsetToSector: requires the offset to lie within the
  allocated sectors, the assertion at filesys/inode.c:384. The as-written
  lookup, InodeMap.InodeOffsetToSectorAsWritten, reports a failure of that
  assertion as an outcome.
- InodeMap.IsDirectBlockSequential: requires n < 10, the assertion at
  filesys/inode.c:285. Its only caller, InodeMap.ReleaseDirectBlock, reports
  a count of 10 as `AssertionFails` before calling it.
- InodeGrow.DiskInode.ExtendDirect: requires fewer than 10 allocated sectors,
  the assertion at filesys/inode.c:56.
- InodeGrow.DiskInode.ExtendIndirect: requires at least 10 allocated sectors,
  the assertion at filesys/inode.c:98, and at most 138. Beyond 138 the
  assertion in `chunk_sector_blocks` (filesys/inode.c:177) fails.
- InodeGrow.ChunkSectorBlocks: requires the intended bound num + start <= 128
  in place of the assertion at filesys/inode.c:177. The bound as written is
  `InodeGrow.ChunkAdmitsAsWritten` (see Findings).
- InodeIo.InodeWriteAt and InodeIo.ReadAfterWrite: the single file-system
  device is modelled as two maps, index blocks (`InodeMap.Device`) and data
  sectors (`InodeIo.DataDevice`). The model therefore assumes that no sector
  is both an index block and a data sector of the file, as a correct free map
  guarantees. A data write into a sector that also holds one of the file's
  index blocks would, in the C, change later lookups; the model does not
  capture that aliasing.
- InodeMap.ReleaseDirectBlock: the sequential branch (filesys/inode.c:272-273)
  falls off its end without a return value. The model reports that path as
  `NoReturnValue` and gives it no result.
- The contiguous (`#ifndef FILESYS`) variant is not modelled except for
  `byte_to_sector` (`InodeMap.ByteToSector`).
- `inode_write_at`'s `memset` branch (filesys/inode.c:666) is unreachable. A chunk
  that starts a sector and fills it takes the whole-sector branch. The model does
  not include it.
- InodeOpen.Inode.DenyWrite: the documented caller obligation (at most one
  denial per opener) is a precondition, not a panic.
- InodeOpen.Inode.AllowWrite: the documented caller obligation (a denial to
  undo) is a precondition, not a panic.
- InodeOpen.InodeTable.Close: requires the closing opener to have re-enabled any
  writes it denied, as the source documents.
- Frames.FrameTable.EvictFrame: requires a non-empty frame table. `list_pop_front`
  asserts this itself.
- Swap.SwapSpace.ReadFromBlock: requires a slot inside the swap device. The source
  does not check it.
- The page-fault paths `vm_grow_stack` and `vm_load_install` are outcomes, not
  effects. Their bodies are not part of this model.
- `kill` ends the thread in its default case (userprog/exception.c:104-109),
  although its comment says panic. The model follows the code.
- Source fragments that do not compile have their evident meaning in the model:
  - the frame entry declared with `= {` (vm/frame.c:13-18);
  - the self-include of vm/swap.c (vm/swap.c:1);
  - `spte->off_t` and `spte->diskOffset->0` (vm/page.c:14-15);
  - the unbalanced parentheses of `clrLocation` (vm/page.h:12);
  - `setLocation(LOC_SWAP, 0)` (vm/frame.c:58), which expands to an assignment
    to the literal 0. The model reads it as the value the macro computes from 0
    (see Findings).
- The arity mismatches are resolved by the header prototypes:
  - `install_frame` takes the descriptor as its second argument (vm/frame.h).
    vm/frame.c:27-31 builds it with `getSupPTE` instead.
  - `page_lookup` takes the table. vm/page.c:30 uses the current thread's.
- The system-call numbers come from the standard Pintos `lib/syscall-nr.h`
  (SYS_HALT = 0 through SYS_CLOSE = 12). That header is not part of this model.
- A thread's first descriptor counter value (1, so that the first fd is 2) comes
  from thread creation. threads/thread.c is not part of this model.

## Findings

| source | as written | input that shows it | evidently intended | confidence | as-written member | corrected member |
|---|---|---|---|---|---|---|
| vm/frame.c:58, vm/page.h:11 | `setLocation(LOC_SWAP, 0)` treats the mask `LOC_SWAP` (1) as a bit index and yields 2 | any eviction: the descriptor's location becomes `LOC_FILE` | the location is `LOC_SWAP` | high (not executed) | PageFlags.SetLocationMisreadsMask | Frames.SwappedOut |
| filesys/inode.c:417 | the double-indirect inner index is taken `% BLOCK_SECTOR_SIZE` (512) | byte offset 173056 (sector index 338): inner index 200 of a 128-entry block | inner index `% 128` | high (not executed) | InodeMap.AsWrittenReadsPastBlockAt173056 | InodeMap.InodeOffsetToSector |
| filesys/inode.c:177 | `ASSERT(num + start < 128)` | a file of 138 sectors fills 128 indirect slots from 0: 128 + 0 < 128 fails | `num + start <= 128` | high (not executed) | InodeGrow.FullIndirectTierRefused | InodeGrow.ChunkSectorBlocks |
| filesys/inode.c:579-628 | the sector is looked up before the end-of-file test, and the lookup asserts the offset is inside the allocation | read 1 byte at offset 1 of an empty file | a transfer at or past the end moves 0 bytes | medium (not executed) | InodeIo.EmptyFileReadPanicsAsWritten | InodeIo.InodeReadAt |
| userprog/syscall.c:264 | `ASSERT(setFD != 0 \|\| setFD != 1)` holds for every number | setFD = 1 passes | `setFD != 0 && setFD != 1` | high (not executed) | Syscall.OpenAssertAdmitsConsole | Syscall.Kernel.Open |
