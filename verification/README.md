# PolarisOS in Dafny

A model of the kernel of PolarisOS and proofs of what its parts promise one another. Each subsystem has two layers. One
states it on values: a state, the steps the code takes from one point at which another process can run to the next, an
invariant, and theorems over every run of those steps. The other is the code itself, as classes whose methods change
fields, arrays and linked nodes in place with the loops of the source; their contracts tie each call to a step or a
function of the first layer, or, for the linked list, the sleep queue, bitmaps and strings, say outright what it does.

| subsystem | values | code |
|---|---|---|
| copy-on-write paging | `Paging.dfy`, `CopyOnWrite.dfy`, `DirectoryCopy.dfy`, `PageHistory.dfy`, `RemapCopied.dfy` | `MemoryManager.dfy`, `PageRanges.dfy` |
| zone and inode bitmaps, mkfs | `Zones.dfy` | `Zones.dfy`, `InodeBitmap.dfy`, `Bitmap.dfy` |
| files: block tree, read, write, truncate | `BlockTree.dfy`, `BlockMapping.dfy`, `FileContents.dfy`, `FileWriting.dfy`, `Truncation.dfy`, `FileRuns.dfy`, `StaleZones.dfy`, `ZoneClaims.dfy`, `ZoneRuns.dfy`, `ZonesLost.dfy` | `FileSystem.dfy` |
| buffer cache | `BufferCache.dfy`, `CacheRuns.dfy`, `CacheSleeps.dfy` | `BufferPool.dfy` |
| disk elevator | `Elevator.dfy` | `DiskQueue.dfy`, `LinkedList.dfy` |
| fork, exit, waitpid; sleeping | `Processes.dfy`, `Ancestry.dfy` | `TaskTable.dfy`, `SleepQueue.dfy` |
| kernel heap | `HeapBlocks.dfy`, `Heap.dfy`, `HeapRuns.dfy` | `KernelHeap.dfy` |
| directories and link counts | `Links.dfy`, `Lookups.dfy`, `Creations.dfy`, `LinkLimit.dfy`, `LongNames.dfy` | `Namei.dfy` |
| working-directory strings | `Paths.dfy` | `WorkingDirectory.dfy` |
| re-entrant lock | `Locks.dfy` | `Mutex.dfy` |
| pipes | `Pipes.dfy` | `Pipes.dfy`, `Fifo.dfy` |
| open files | `OpenFiles.dfy`, `FileOrigins.dfy` | `FileTable.dfy` |

`Limits.dfy`, `Blocks.dfy`, `Bytes.dfy`, `Options.dfy`, `FiniteSets.dfy` and `Queues.dfy` hold small types and facts that several modules use.

## How the code is read

- System calls run with interrupts off, so code between two calls of `task_block` or `schedule` is one step. The lock is
  the exception: its assignments outside the mutex are separate steps, because kernel threads run with interrupts on.
- Many calls can sleep in the disk. The machines split a call there where a sleep changes what the call is for: exit
  between recording the status and waking the parent, creations between choosing and claiming a slot, reads that wait for
  a buffer, writes that wait for the device, allocation between marking a zone and storing it, truncation around every
  zone it frees. Elsewhere, and where files are read and written as wholes, calls on one volume run one at a time.
- What a machine computes is also said without its own functions: where the disk has a block (`FileContents.BlockLayout`),
  or, by the events of a run alone, what a page, a cached block or a name holds (`PageHistory.RunBytes`,
  `CacheRuns.ReadsSeeLastStored`, `Lookups.RunFinds`), whose child a task is (`Ancestry.RunParents`), which descriptors share
  a file (`FileOrigins.SharedBySource`), who is woken (`Locks.WakesLongest`).
- In `Links`, `Creations`, `CacheRuns` and `ZoneRuns` a step tests no more than the code does. What is missing for the
  invariant is a predicate of its own, and lemmas say what happens without it.
- A failed kernel assertion or a panic stops the machine. Methods return a value that stands for it, and their contracts
  say when it can happen. Where the source asserts something that is always true, the methods prove it.
- A disk is a map from block numbers to blocks, and a device request is one atomic read or write of it, except in the
  elevator, which models the requests themselves.
- Pages, blocks and buffers are records in tables, addressed by number where the source uses pointers.

## Where the code and what it is for part ways

The model follows the code, and lemmas say exactly when the code does what it is for.

- `balloc` does not clear the zone it hands out, but `bmap` reads a fresh index zone as an array of zone numbers. Files
  stay unshared if and only if each zone taken as an index block reads as zeros then (`BlockMapping.FillExact`).
  `StaleZones.StaleRun` is a run in which a write to a file lands on the super block.
- `balloc` can sleep before `bmap` stores the zone in the block it remembers. The zone gets where it should, and none is
  lost or shared, if and only if that block still holds the slot and the slot is still empty (`ZoneClaims.StoreExact`,
  `ZoneRuns.StoreFate`). `ZonesLost.WriteLost` and `ZonesLost.TruncatedAway` are runs in which a zone is lost: two writers of
  one missing block, and a truncation that overtakes a write.
- `bfree` picks the bitmap block from the zone number without the offset that `balloc` uses. They agree on a zone if and
  only if its number is small enough for its block (`Zones.SearchFindsHome`), and on all zones if and only if the volume
  has at most 8193 blocks (`Zones.SearchFindsEvery`, `Zones.SearchMisses`). Truncation fails exactly for the other files.
- `mkfs` leaves the right zone bits clear if and only if 8 <= zcount < 8192 (`Zones.MkfsExact`, `Zones.MkfsOverruns`): it
  does not subtract the bitmap's own blocks, and it overwrites the partial byte at the tail. The right inode bits are
  clear if and only if the number of inodes is at least 7 and not 0 or 8191 modulo 8192 (`Zones.MkfsInodesExact`,
  `Zones.MkfsLosesInodes`).
- A process whose exit sleeps in its closes loses its condition `TASK_DIED`. Its status is kept, and a parent that waits
  for it finds it, if and only if no sleep falls between (`Processes.ExitFate`, `Processes.WokenFinds`,
  `Processes.StatusLost`).
- A creation that sleeps in `ialloc` claims a slot that may be taken by then; it keeps the counts exact if and only if the
  slot is still free and its name, as stored, new (`Creations.ClaimExact`, `Creations.FileLost`).
- A write marks the buffer clean after the device slept. Over every run that keeps the cache right if and only if the last
  store into the buffer meanwhile, if there was one, is what the disk has (`CacheRuns.CleanFate`, `CacheRuns.StepExact`);
  `CacheSleeps.StoreLost` is a run in which a store is lost.
- A read that slept for want of a buffer does not look for its block again (`CacheRuns.ResumeExact`). It does not come to
  that: a read sleeps only when all 3855 buffers are held (`BufferPool.Pool.Bread`), and one is unused while fewer reads
  are without their release (`CacheSleeps.ReadFindsBuffer`). At once the kernel holds at most 64 inodes, 17 buffers for each
  of 16 super blocks, and a few more in each of 64 processes.
- An entry has room for 13 characters of a name, but the name is looked for whole. A call that enters a name keeps the names
  of a directory different if and only if no entry has its first 13 characters for a name (`Links.StepExact`). A longer name
  is never found again (`Links.LongNeverFound`) and can be created twice (`LongNames.CreatedTwice`).
- `inode_read` stops at a hole, and `inode_write` makes one if and only if it skips a whole block
  (`FileContents.WroteLeavesHole`).
- Mapping a page that is present keeps copy-on-write sound exactly in the cases of `CopyOnWrite.RemapKeepsInv`;
  `RemapCopied.CopyLost` is a run outside them.
- A link count is one byte wide: `sys_link` and `sys_mkdir` keep it exact if and only if it stood below 255
  and no entry has the name as stored (`Links.LinkExact`, `Links.MkdirExact`, `LinkLimit.CountOverflows`).
- The last inode, whose number is the number of inodes, is never handed out: with only that one left `ialloc` stops the
  kernel (`InodeBitmap.InodeMap.Ialloc`).
- `ialloc` and `ifree` give the bit scanner a length in bits where it expects bytes. The number found is one of the
  block's if and only if the block has a clear bit (`InodeBitmap.InodeMap.ScanBlock`).
- The free-page counter runs ahead of the real number of free frames by a constant, fixed at boot
  (`MemoryManager.Memory.constructor`).
- `abspath` takes an empty name, as in two slashes in a row, for a name like any other; `Paths.ResolveProper` therefore
  asks that there is none, while `WorkingDirectory.AbsPath` holds for every path (`Paths.DoubledSeparator`).

## Model

| member | source | states |
|---|---|---|
| `CopyOnWrite.RunRefines` | src/kernel/memory.c:382-534 | over every run of spawn, page-table allocation, map, harmless mapping of a present page, unmap, fork, user store with its fault, and exit, each process reads at each page what it would read had fork copied every private page on the spot; the invariant (a page writable without a fault is shared or alone on its frame) holds throughout |
| `CopyOnWrite.StepRefines` | src/kernel/memory.c:382-534 | forward simulation: one kernel step keeps the invariant and the eager reference can take the same step |
| `CopyOnWrite.FaultRefines` | src/kernel/memory.c:651-713 | the fault handler, in both its branches, leaves what every process reads unchanged and the page writable |
| `CopyOnWrite.StoreRefines` | src/kernel/memory.c:651-713 | a store, with the fault it may take first, changes the page and the pages of its shared group and nothing else |
| `CopyOnWrite.ForkRefines` | src/kernel/memory.c:448-495 | copying the page directory looks like copying all private pages; shared pages stay in their group |
| `CopyOnWrite.ExitRefines` | src/kernel/memory.c:498-534 | releasing an address space changes no page of any other process |
| `CopyOnWrite.MapRefines` | src/kernel/memory.c:382-401 | a page mapped on a fresh frame disturbs no other page |
| `CopyOnWrite.UnmapRefines` | src/kernel/memory.c:404-427 | unlinking a page removes it and nothing else, and its frame had a use to give back |
| `CopyOnWrite.RunCounts` | src/kernel/memory.c:165-207 | in every reachable state the count of a user frame equals the address spaces and page tables using it, is at most the number of tasks, and all its users have it at the same page |
| `PageHistory.RunBytes` | src/kernel/memory.c:382-534 | over every run, by the operations alone: a page is there exactly if it was mapped, or copied by a fork, and neither unmapped since nor gone with its process; each byte in its frame is the one stored last, by its process, by one it was forked from before that, or by any process sharing the page |
| `PageHistory.RunFlags` | src/kernel/memory.c:382-534 | over every run a page is read-only exactly if the last request to map it, or the page it is a copy of, said so, and shared exactly if one asked for that |
| `CopyOnWrite.FaultFrugal` | src/kernel/memory.c:685-701 | a write fault takes a frame, and a free one, only if somebody else has the page too; all other pages stay where they are |
| `CopyOnWrite.RemapKeepsInv` | src/kernel/memory.c:382-401 | mapping a page that is present already keeps the invariant if and only if the page is alone on its frame, or already shared, or asks for neither sharing nor writing |
| `CopyOnWrite.RemapRefines` | src/kernel/memory.c:581-606 | in those cases a page that is present keeps its contents and its group, or starts a group if it was private and is to be shared, and no other page notices |
| `RemapCopied.CopyLost` | src/kernel/memory.c:382-401 | a failing run from any boot state with three free frames: after map, fork and a second request for the same page with write access, the invariant is broken and a store by the parent is read by the child |
| `Paging.CountsBounded` | src/kernel/memory.c:184-207 | no counter exceeds the number of tasks, so the byte-wide counters never come near wrapping |
| `Paging.ForkedKeepsInv` | src/kernel/memory.c:448-495 | the copied directory keeps counts, alignment and sole writers right |
| `Paging.SplitKeepsInv` | src/kernel/memory.c:685-701 | splitting a copy-on-write frame keeps them right |
| `Paging.ExitedKeepsInv` | src/kernel/memory.c:498-534 | releasing an address space keeps them right |
| `DirectoryCopy.CopyingPage` | src/kernel/memory.c:467-486 | one turn of the inner copy loop: the parent's page is protected unless shared and counted once more, from any partial state |
| `DirectoryCopy.CopyingTable` | src/kernel/memory.c:487-489 | the end of a turn of the outer loop: the child's table lands on a frame that was free and not yet taken |
| `DirectoryCopy.CopyingDone` | src/kernel/memory.c:448-495 | when every table has been visited the partial states add up to the fork |
| `DirectoryCopy.ReleasingDone` | src/kernel/memory.c:498-534 | when every table has been released the counters are those after the exit |
| `MemoryManager.Memory.constructor` | src/kernel/memory.c:56-162 | after boot the kernel's frames are in use, all others free, and the free-page counter is ahead of the real number by a constant |
| `MemoryManager.Memory.GetPage` | src/kernel/memory.c:165-181 | the lowest free frame, or none exactly when there is none; the counter keeps its constant distance |
| `MemoryManager.Memory.PutPage` | src/kernel/memory.c:184-207 | one use less; the assertions on the counter hold |
| `MemoryManager.Memory.GetPte` | src/kernel/memory.c:299-318 | finds or allocates a page table, and nothing else changes |
| `MemoryManager.Memory.LinkPage` | src/kernel/memory.c:382-401 | a present page is left alone; any other gets a table if it needs one and the lowest free frame, writable and private; failure means fewer than two free frames |
| `MemoryManager.Memory.SetFlags` | src/kernel/memory.c:581-606 | what mmap does to the flags of a linked page, and the exact condition under which that keeps the invariant |
| `MemoryManager.Memory.UnlinkPage` | src/kernel/memory.c:404-427 | refines unmapping; an absent page is left alone |
| `MemoryManager.Memory.PageFault` | src/kernel/memory.c:651-713 | a segmentation fault exactly outside the user's pages; a present page is refused exactly if read-only and otherwise refines the fault step; a missing page is mapped on demand exactly below the break and in the stack |
| `MemoryManager.FaultAddresses` | src/kernel/memory.c:668-703 | user pages are those from 16 MB to 256 MB; mapped on demand is what lies below the break or in the top two megabytes |
| `MemoryManager.Memory.UserStore` | src/kernel/memory.c:651-713 | refines a store of the state machine, after mapping the page on demand if it is not there; refused exactly where the handler refuses |
| `MemoryManager.Memory.CopyPage` | src/kernel/memory.c:467-486 | one page of the copy: one more use, protected unless shared |
| `MemoryManager.Memory.CopyPde` | src/kernel/memory.c:448-495 | the nested loops refine fork |
| `MemoryManager.Memory.FreePde` | src/kernel/memory.c:498-534 | the nested loops refine exit |
| `PageRanges.UnlinkRange` | src/kernel/memory.c:550-556 | exactly the pages of the range go, from this process alone |
| `PageRanges.Brk` | src/kernel/memory.c:536-564 | shrinking unmaps exactly the pages given up; growing maps none and is refused exactly if it asks for more pages than the counter shows |
| `PageRanges.Munmap` | src/kernel/memory.c:617-635 | the range goes from the address space and from the bitmap; the assertion fails exactly if some page was not marked |
| `PageRanges.Mmap` | src/kernel/memory.c:566-606 | exactly the pages of the range are there, with the access and sharing asked for, and are marked; pages that were there keep their contents and group, every other page of every process is as before; failure means fewer than two free frames for each page |
| `Bitmaps.Bitmap.Scan` | src/lib/bitmap.c:70-117 | first fit: the lowest run of clear bits is found and set, or none exists and nothing changes |
| `Bitmaps.Bitmap.Set` | src/lib/bitmap.c:42-67 | exactly one bit changes |
| `Bitmaps.Bitmap.Test` | src/lib/bitmap.c:22-39 | the value of the bit |
| `Bitmaps.ByteUpdate` | src/lib/bitmap.c:58-66 | or-ing in a mask sets one bit, and-ing with its complement clears one, and the others stay |
| `Zones.SearchFindsHome` | src/fs/bmap.c:54 | bfree looks in the block where balloc keeps the zone if and only if the zone is at most BLOCK_BITS times that block's number plus one |
| `Zones.SearchFindsEvery` | src/fs/bmap.c:51-57 | on a volume that mkfs lays out, bfree can find every data zone, and so free every file, if and only if the volume has at most 8193 blocks |
| `Zones.SearchMisses` | src/fs/bmap.c:51-57 | a volume of 15104 blocks: zone 8193 has its bit in block 0 and is looked for in block 1 |
| `Zones.SuperBlock.Balloc` | src/fs/bmap.c:11-40 | the lowest unmarked zone is marked; a refusal means every zone below the volume's end is marked |
| `Zones.SuperBlock.BitOfZone` | src/fs/bmap.c:20-40 | bit k of bitmap block i, from the lowest bit of each byte up, stands for zone firstdatazone - 1 + 8192 * i + k |
| `Zones.SuperBlock.Bfree` | src/fs/bmap.c:43-74 | succeeds exactly when the zone is on the volume, marked, and looked for in its own bitmap block; then its mark alone goes |
| `Zones.Devmkfs` | src/fs/super.c:275-358 | the zone bitmap that mkfs writes, bit for bit; with one bitmap block and a tail offset of at least 8 it marks everything but the data zones |
| `Zones.LayoutFits` | src/fs/super.c:253-284 | boot block, super block, bitmaps, inodes and data zones lie one behind the other, each part just big enough; the number of inodes is the one asked for, or a third of the blocks |
| `Zones.MarkTail` | src/fs/super.c:323-358 | the marking of the bits past the end of a map, in whole bytes and one partial byte, bit for bit |
| `Zones.MkfsExact` | src/fs/super.c:275-358 | the clear bits stand for the data zones, one to one, if and only if 8 <= zcount < BLOCK_BITS |
| `Zones.TailExact` | src/fs/super.c:323-358 | the bits left clear are those of the data zones exactly in that case |
| `Zones.MkfsOverruns` | src/fs/super.c:275-358 | a volume of 15104 blocks: a clear bit stands for block 15104, which is not there |
| `Zones.DevmkfsInodes` | src/fs/super.c:290-358 | the inode bitmap that mkfs writes, bit for bit |
| `Zones.MkfsInodesExact` | src/fs/super.c:314-358 | its clear bits stand for the inodes after the root's, one to one, if and only if there are at least 7 inodes and their number is not 0 or 8191 modulo 8192 |
| `Zones.MkfsLosesInodes` | src/fs/super.c:314-358 | a volume of 24576 blocks with the default number of inodes: the one bit left clear is that of the reserved number 0 |
| `Zones.RunsAreSafe` | src/fs/bmap.c:11-74 | from any bitmap with the reserved bit set, over any run of balloc and bfree, no live zone is handed out twice, every zone handed out is a data zone, and the marks are those at first plus the live zones |
| `Zones.FreedZonesAreReusable` | src/fs/bmap.c:11-74 | after any run balloc can take a zone if and only if some data zone is neither live nor marked at first; whether bfree can free a live one is the subject of SearchFindsEvery |
| `BlockTree.AttachChangesOneSlot` | src/fs/bmap.c:183-202 | storing a fresh zone in an empty slot changes that slot and no other slot of any file, if an index block reads as zeros |
| `BlockTree.AttachKeepsSound` | src/fs/bmap.c:183-202 | and keeps every zone marked and held once |
| `BlockTree.AttachKeepsNoLeaks` | src/fs/bmap.c:183-202 | and leaves no marked zone unheld |
| `BlockTree.StaleIndexBlock` | src/fs/bmap.c:29-39 | since balloc does not clear a zone, taking it as an index block keeps zones unshared and marked if and only if it happens to read as zeros |
| `StaleZones.StaleRun` | src/fs/bmap.c:183-202 | a failing run from a sound volume: one byte is written to one file, that file is truncated, and when another file grows past its seventh block its data lands on the super block |
| `BlockMapping.FillExact` | src/fs/bmap.c:134-204 | mapping a block, all levels of it, keeps zones marked and unshared if and only if every zone it takes as an index block reads as zeros when it is taken |
| `BlockMapping.CleanFillKeeps` | src/fs/bmap.c:134-204 | then only slots on the way to the block change, nothing that is held moves or is written, and no zone leaks |
| `BlockMapping.FillSucceeds` | src/fs/bmap.c:134-204 | and it works if and only if there are as many free zones as empty slots on the way |
| `BlockMapping.AttachMendsNothing` | src/fs/bmap.c:183-202 | filling more slots never repairs a volume that shares a zone or holds an unmarked one |
| `ZoneClaims.StoreExact` | src/fs/bmap.c:183-202 | balloc can sleep before bmap stores the zone in the block it remembers, with any number of zones reserved by others: the zone (one that reads as zeros, if it is to be an index block) comes to stand in its slot, and none is lost or shared, if and only if that block is still the one that holds the slot and the slot is still empty |
| `ZoneRuns.RunKeeps` | src/fs/bmap.c:134-204 | over every run in which any number of processes mark zones, store them later, write blocks, and truncate slot by slot with a sleep around every single bfree: while stores fit and no slot is truncated by two processes at once, no zone is shared, and once nobody is in the middle of anything every marked zone is held |
| `ZoneRuns.StoreFate` | src/fs/bmap.c:183-202 | in every such run a store is right, by the same test, if and only if the block it remembers still holds the slot, the slot is empty, and neither is being truncated |
| `ZoneRuns.ClearedPending` | src/fs/inode.c:343-392 | a slot that is being truncated reads as empty from the start: what it held is what is still to be freed, and nothing else changes |
| `ZonesLost.WriteLost` | src/fs/bmap.c:183-202 | a failing run: two processes write the same missing block of a file; the first one's byte is lost and its zone is marked for good |
| `ZonesLost.TruncatedAway` | src/fs/bmap.c:183-202 | a failing run: a file is truncated while a process waits for a zone for it; the zone goes into the freed index block and is marked for good |
| `BlockTree.PosOfInjective` | src/fs/bmap.c:134-204 | the divider arithmetic sends different blocks of a file to different slots |
| `FileSystem.Files.StartWalk` | src/fs/bmap.c:139-177 | the slot of the inode and the number of levels from which a block is reached, and what is left of its number for the levels below; FileContents.BlockLayout says where that is on the disk |
| `FileSystem.Files.FillSlot` | src/fs/bmap.c:183-187 | an empty slot is filled with the lowest free zone, whatever it contains; failure means no data zone is free |
| `FileSystem.Files.Bmap` | src/fs/bmap.c:134-204 | on any volume: without create, the zone held at the block's slot and no change; with create, the volume is the one in which the empty slots on the way are filled top down, and failure is exactly when that runs out of zones or the block number is out of range |
| `FileContents.BlockLayout` | src/fs/bmap.c:134-204 | where the disk has block b: slot b of the inode below 7, entry b - 7 of the block in slot 7 for the next 512, and block 519 + 512 * i + j in entry j of the block that entry i of the block in slot 8 names; an entry is two bytes, the lower first; a zero on the way means that it is missing |
| `FileContents.ByteLayout` | src/fs/inode.c:226-278 | byte k of block b of a file is byte k of that zone |
| `FileSystem.Files.InodeRead` | src/fs/inode.c:226-278 | returns exactly the slice of length min(len, size - offset), EOF at or beyond the size, and fails exactly when a needed block is missing |
| `FileSystem.Files.InodeWrite` | src/fs/inode.c:281-341 | on any volume: the result is the volume after the chunks are written one by one, and failure is exactly when some block cannot be mapped |
| `FileWriting.CleanWriteIsFlat` | src/fs/inode.c:281-341 | a write that takes only index blocks that read as zeros overwrites and extends the file as a flat byte sequence, leaves every other file as it was, and shares and leaks no zone |
| `FileWriting.WriteSucceeds` | src/fs/inode.c:281-341 | such a write works if and only if it ends within the largest size and there are as many free zones as empty slots on the way to its blocks |
| `FileRuns.RunReads` | src/fs/inode.c:281-392 | over any run of writes that start within their file, take clean index blocks and find room, and of truncations whose zones bfree finds, every file reads as the flat sequence its operations make of it, and no zone is shared, unmarked or lost |
| `FileRuns.StepReads` | src/fs/inode.c:281-392 | each call of such a run does |
| `FileRuns.FormattedReads` | src/fs/super.c:275-385 | a new volume, whose root directory holds the first data zone with its two entries and whose other files are empty, is where such a run can begin |
| `FileRuns.SmallWriteIsClean` | src/fs/bmap.c:156-159 | writes within the first seven blocks need no index block |
| `FileRuns.ZeroWrite` | src/fs/bmap.c:183-202 | while every free zone reads as zeros every write is clean, and the free zones left over still read as zeros |
| `FileContents.WroteOneMore` | src/fs/inode.c:291-336 | one turn of the write loop extends what has been written by one chunk |
| `FileContents.WroteIsOverwrite` | src/fs/inode.c:281-341 | contents after a write at or before the end equal the flat overwrite |
| `FileContents.WroteKeepsOthers` | src/fs/inode.c:281-341 | every other file keeps its bytes |
| `FileContents.WroteLeavesHole` | src/fs/inode.c:281-341 | a write beyond the end leaves an unmapped block below the size, which inode_read refuses, if and only if it skips a whole block |
| `Truncation.TreeByChildren` | src/fs/inode.c:343-363 | the zones under a slot are its own zone and the trees of its children |
| `Truncation.NextChildDisjoint` | src/fs/inode.c:343-363 | a child's tree is untouched when the earlier children have been freed |
| `Truncation.RootTreesAreHeld` | src/fs/inode.c:366-392 | the nine trees together are all zones of the inode |
| `Truncation.TruncatedKeeps` | src/fs/inode.c:366-392 | a truncated file leaves the volume sound and without leaks, and no other file notices |
| `FileSystem.Files.InodeBfree` | src/fs/inode.c:343-363 | frees exactly the zones under the slot, each once; bfree's assertion fails exactly if one of them is not looked for where its bit is kept |
| `FileSystem.Files.InodeTruncate` | src/fs/inode.c:366-392 | frees exactly the zones of the file and leaves nine zero slots and size 0; it fails exactly if bfree looks for some zone of the file in the wrong bitmap block |
| `InodeBitmap.InodeMap.ScanBlock` | src/fs/bmap.c:87-100 | a bit of the block is found exactly if the block has a clear one, and then the lowest; otherwise the scan, told a length eight times too long, runs on behind the block |
| `InodeBitmap.InodeMap.Ialloc` | src/fs/bmap.c:77-102 | the number handed out is the lowest clear bit, below the number of inodes, and inside its block exactly if the block had a clear bit; while the last inode is free the assertion fails exactly when all others are taken, so the last is never handed out |
| `InodeBitmap.InodeMap.Ifree` | src/fs/bmap.c:105-130 | succeeds exactly for a number below the number of inodes whose bit is set in the block where it is looked for, and clears that one bit, which lies in the block exactly if the number is below the block's end |
| `CacheRuns.ReadsSeeLastStored` | src/kernel/buffer.c:131-212 | over every run whose steps before it were careful (see StepExact) a read returns the contents last stored in that block, evictions or not |
| `CacheRuns.EvictsOldest` | src/kernel/buffer.c:105-128 | a buffer is taken over only once all 3855 exist, and it is, of all unused ones, the one released longest ago |
| `CacheRuns.WritesReachDisk` | src/kernel/buffer.c:175-212 | over every such run, a release or write of a buffer leaves what was stored last in its block on the disk, also while others still hold it |
| `CacheRuns.RunKeeps` | src/kernel/buffer.c:131-212 | over every such run: one buffer for a block, each in its own bucket, on the free list exactly when unheld, dirty only while held, clean ones equal to the disk |
| `CacheRuns.StepExact` | src/kernel/buffer.c:131-212 | the steps test no more than the code does; the first step of a run that breaks the cache is the first that is not careful: a read going on after a wait for a buffer although another buffer holds its block by now, or the second half of a write that a store overtook |
| `CacheRuns.CleanFate` | src/kernel/buffer.c:175-183 | bwrite counts the buffer as clean after the device has slept: over every run that keeps the cache right if and only if the last store into the buffer between the halves, if there was one, is what the disk has; with no store in between it always does |
| `CacheRuns.ResumeExact` | src/kernel/buffer.c:105-149 | should a read ever sleep for want of a buffer, it does not look for the block again: going on keeps the cache right if and only if no other buffer has come to hold the block |
| `CacheSleeps.ReadFindsBuffer` | src/kernel/buffer.c:104-128 | no read has to sleep for want of a buffer while fewer reads are without their release than there are buffers |
| `CacheSleeps.HoldsAreReads` | src/kernel/buffer.c:131-212 | over every careful run the counts of all buffers add up to the reads without their release |
| `CacheSleeps.StoreLost` | src/kernel/buffer.c:175-183 | a failing run: a store between the two halves of a write never reaches the disk |
| `CacheRuns.ViewIsLastStored` | src/kernel/buffer.c:131-212 | the cache and disk together show the last contents stored in each block |
| `BufferCache.TakenOverKeeps` | src/kernel/buffer.c:105-149 | evicting loses nothing |
| `BufferCache.HitKeeps` | src/kernel/buffer.c:32-60 | a hit changes no contents and takes the buffer off the free list |
| `BufferCache.ReleasedKeeps` | src/kernel/buffer.c:186-212 | a release writes a dirty buffer back and frees it with its last holder |
| `BufferPool.Pool.Search` | src/kernel/buffer.c:32-60 | the chain walk finds the block's buffer exactly if it is cached |
| `BufferPool.Pool.Getblk` | src/kernel/buffer.c:131-149 | a hit, a new buffer while the memory is not full, and the far end of the free list once it is; headers and data never meet |
| `BufferPool.Pool.WaitForBuffer` | src/kernel/buffer.c:125-126 | the caller would go to sleep behind those who wait already |
| `BufferPool.Pool.BreadWoken` | src/kernel/buffer.c:105-128 | the rest of a read whose task was woken: the unused buffer is taken without another look, and the exact condition under which the cache stays right |
| `BufferPool.Pool.Bread` | src/kernel/buffer.c:152-172 | refines the read step and returns the block's contents; the caller has to sleep exactly when the block is not cached, all 3855 buffers that fit into the memory exist, and each is held |
| `BufferPool.Pool.Bwrite` | src/kernel/buffer.c:175-183 | refines the write-back step |
| `BufferPool.Pool.SendOut` | src/kernel/buffer.c:175-183 | the first half of a write: the device gets the block |
| `BufferPool.Pool.MarkClean` | src/kernel/buffer.c:175-183 | the second half; CacheRuns.CleanFate says when the cache stays right |
| `BufferPool.Pool.Brelse` | src/kernel/buffer.c:186-212 | refines the release step, and wakes whoever has waited longest for a buffer exactly when the last holder leaves |
| `LinkedList.List.constructor` | src/lib/list.c:5-11 | an empty list |
| `LinkedList.InsertBefore` | src/lib/list.c:14-21 | four pointer writes splice a node into the chain at that place |
| `LinkedList.InsertAfter` | src/lib/list.c:24-31 | likewise behind a node |
| `LinkedList.Remove` | src/lib/list.c:81-89 | four pointer writes take a node out of the chain |
| `LinkedList.List.PushFront` | src/lib/list.c:34-38 | the new node is first |
| `LinkedList.List.PopFront` | src/lib/list.c:41-47 | the first node goes |
| `LinkedList.List.PopBack` | src/lib/list.c:57-63 | the last node goes |
| `LinkedList.List.Search` | src/lib/list.c:66-78 | whether the node is in the list |
| `LinkedList.List.Empty` | src/lib/list.c:92-95 | whether the list is empty |
| `LinkedList.List.InsertSort` | src/lib/list.c:111-131 | the node goes behind all keys not greater and before the first greater one; a sorted list stays sorted |
| `LinkedList.SortedInsert` | src/lib/list.c:111-131 | sortedness is kept by that place |
| `SleepQueue.Sleepers.Sleep` | src/kernel/task.c:152-171 | the due tick is the whole ticks in the time asked for, at least one; the sleeper stands behind exactly those due no later, and its condition becomes sleeping |
| `SleepQueue.Sleepers.Wakeup` | src/kernel/task.c:173-193 | exactly the tasks that are due leave the list and stop sleeping, the earliest first |
| `Elevator.RunKeeps` | src/kernel/device.c:140-220 | over every run a non-empty queue has exactly one request with the turn and every other task asleep, the queue is sorted and stable, and each request that arrived is waiting or was served once |
| `Elevator.NextPlace` | src/kernel/device.c:140-169 | there is no next request if and only if the finished one was alone; otherwise it is a neighbour on the side of travel |
| `Elevator.ServiceOrder` | src/kernel/device.c:140-220 | without arrivals, what was served followed by what remains in sweep order never changes |
| `Elevator.DrainsInTwoSweeps` | src/kernel/device.c:140-220 | a queue of n requests is empty after exactly n completions, served in one sweep in the current direction and one back |
| `Elevator.SweepTravel` | src/kernel/device.c:140-169 | the head moves exactly as far as those two sweeps, at most twice across the queue |
| `Elevator.NotPassedOver` | src/kernel/device.c:140-220 | over every run, whatever arrives, a request ahead of the head keeps its side and the head does not turn round before it has the turn |
| `Elevator.TurnsExactly` | src/kernel/device.c:140-169 | the head turns round exactly when no request lies before it, also at the last of all |
| `DiskQueue.Device.NextRequest` | src/kernel/device.c:140-169 | the pointer comparisons compute the neighbour and the direction of the state machine |
| `DiskQueue.Device.Submit` | src/kernel/device.c:172-206 | inserts by sector and sleeps exactly if others were there; refines the arrival step |
| `DiskQueue.Device.Finish` | src/kernel/device.c:208-220 | chooses, unlinks and wakes: refines the completion step; whoever is woken was asleep |
| `Processes.RunKeeps` | src/kernel/task.c:373-526 | over every run of fork, exit (with sleeps in its closes or without) and waitpid: each parent is in the table and alive, a task asleep in waitpid has a live child it accepts and no dead one, and a dead task's status is in the table until delivered |
| `Processes.ExitFate` | src/kernel/task.c:428-479 | over every run, an exit status is in the table or delivered if and only if its exit did not sleep; after one that slept the slot is never free again and the status never delivered |
| `Processes.KeptUnlessSlept` | src/kernel/task.c:428-479 | the same of one state |
| `Processes.WokenFinds` | src/kernel/task.c:469-523 | the parent that the end of an exit wakes finds a dead child if and only if the exit did not sleep, or the parent waits for any child and is left a dead child of the process |
| `Processes.NeverReaped` | src/kernel/task.c:481-526 | over every run, waitpid never returns the pid of a task whose exit slept |
| `Processes.StatusLost` | src/kernel/task.c:435-476 | a failing run: a child exits, sleeps in its closes and goes on; its parent is woken, finds no dead child and sleeps again, and the status is lost |
| `Processes.WokenReaps` | src/kernel/task.c:469-523 | a task that an exit without a sleep woke finds a dead child when it looks again |
| `Processes.DeliveredOnce` | src/kernel/task.c:481-526 | no exit status is delivered twice, however often pids are used again |
| `Processes.ReapDelivers` | src/kernel/task.c:481-526 | waitpid returns the status that exit left |
| `Processes.DeliversStatus` | src/kernel/task.c:428-526 | over every run, what waitpid returns for a process is what that process gave to exit |
| `Processes.ReusedPidHasNoChildren` | src/kernel/task.c:34-48 | a task in a slot used before inherits nobody's children |
| `Processes.EndFamily` | src/kernel/task.c:457-466 | however a process leaves, reparenting leaves every task with a living, older parent |
| `Ancestry.RunParents` | src/kernel/task.c:373-479 | over every run the parent of a task is the one that forked it or, if the exit of that one has handed its children over, the nearest ancestor whose exit has not |
| `Ancestry.ForkAddsChild` | src/kernel/task.c:373-426 | a fork gives the caller exactly one more child, the one whose number it returns, and changes nobody else's children |
| `Ancestry.ForkedIsAwaited` | src/kernel/task.c:373-526 | waitpid for the pid just returned finds a live child to wait for |
| `Ancestry.EndHandsOver` | src/kernel/task.c:457-466 | the end of an exit gives all children of the process to its parent, and changes nobody else's |
| `Ancestry.OthersKeepChildren` | src/kernel/task.c:428-526 | no other step changes whose child a task is; waitpid takes out the one it reaps |
| `Processes.ExitWaits` | src/kernel/task.c:469-474 | an exit without a sleep wakes every waiter that needs it: whoever goes on waiting still has a live child and no dead one |
| `TaskTable.Tasks.GetFree` | src/kernel/task.c:34-48 | the first free slot, none exactly when the table is full |
| `TaskTable.Tasks.Fork` | src/kernel/task.c:373-426 | the child is a ready copy in that slot whose parent is the caller |
| `TaskTable.Tasks.Reparent` | src/kernel/task.c:457-466 | the loop hands every child to the grandparent |
| `TaskTable.Tasks.Exit` | src/kernel/task.c:428-479 | an exit without a sleep is its two halves and refines the exit step on the table |
| `TaskTable.Tasks.ExitUntilSleep` | src/kernel/task.c:428-455 | the first half and a sleep: the status is recorded and the condition overwritten |
| `TaskTable.Tasks.EndExit` | src/kernel/task.c:457-474 | the second half: children handed over, a waiting parent woken |
| `TaskTable.Tasks.Wait` | src/kernel/task.c:481-526 | one look through the table: the first dead child is reaped, else the caller sleeps if it has a live one |
| `HeapBlocks.BlockInPage` | src/kernel/arena.c:24-35 | get_arena gives back the arena of each of its blocks, and the block lies on the page behind the header |
| `HeapBlocks.ClassFor` | src/kernel/arena.c:60-67 | the smallest class that is big enough |
| `HeapBlocks.Sizes` | src/kernel/arena.c:11-22 | each size is twice the one before, from 16 to 1024 bytes, and as many blocks are made as fit behind the header |
| `HeapBlocks.PagesFor` | src/kernel/arena.c:44-47 | the fewest pages that hold the block and its header |
| `HeapRuns.MallocKeeps` | src/kernel/arena.c:37-99 | the block returned was not out and is big enough, no other block is affected, counts stay exact and below full |
| `HeapRuns.MallocFrugal` | src/kernel/arena.c:37-99 | the block has the smallest size that fits; no page is taken while a block of that size is spare, one otherwise, and just enough for more than a kilobyte |
| `HeapRuns.FreeKeeps` | src/kernel/arena.c:101-131 | exactly that block comes back; an arena whose blocks are all free gives its page back |
| `HeapRuns.FreePossible` | src/kernel/arena.c:101-131 | every block that is out can be given back |
| `HeapRuns.LiveDisjoint` | src/kernel/arena.c:37-99 | blocks that are out do not overlap |
| `HeapRuns.ExtentInArena` | src/kernel/arena.c:24-35 | a block lies inside pages the heap owns |
| `HeapRuns.FreeUndoesMalloc` | src/kernel/arena.c:37-131 | giving back the block just handed out restores the whole heap, order of free lists included |
| `HeapRuns.AllFreed` | src/kernel/arena.c:101-131 | once everything is given back the heap owns no page and all free lists are empty |
| `HeapRuns.RunRestores` | src/kernel/arena.c:37-131 | over every run from an empty heap the invariant holds, and whenever nothing is out the kernel page map is that of the other users |
| `KernelHeap.Allocator.AllocPages` | src/kernel/memory.c:334-370 | the first run of free pages is marked, or there is none |
| `KernelHeap.Allocator.FreePages` | src/kernel/memory.c:350-379 | exactly those pages are unmarked; each was marked |
| `KernelHeap.Allocator.Kmalloc` | src/kernel/arena.c:37-99 | refines the malloc step; failure means no run of free pages |
| `KernelHeap.Allocator.Kfree` | src/kernel/arena.c:101-131 | refines the free step |
| `Links.RunKeeps` | src/fs/namei.c:240-592 | over every run from a new volume, of directory calls that do not sleep and are careful (see StepExact): nlinks is the number of entries naming the inode, names in a directory differ, an inode bit is set exactly when nlinks > 0, and directories form a tree |
| `Lookups.RunFinds` | src/fs/namei.c:240-592 | over every such run, by the calls alone: a name in a directory leads to an inode exactly if the last call that entered the name there entered it for that inode, and neither the name nor the directory was removed since |
| `Links.StepExact` | src/fs/namei.c:240-592 | the steps test no more than the code does; a step keeps that invariant if and only if the name it enters is new as it will be stored, cut to 13 characters, and the count it raises is below 255 |
| `Links.ShortIsCareful` | src/fs/namei.c:35-148 | for names of at most 13 characters the code's own test for the name is enough |
| `Links.LongNeverFound` | src/fs/namei.c:35-148 | no entry is ever found by a name of more than 13 characters |
| `LongNames.CreatedTwice` | src/fs/namei.c:101-148 | a failing run: any name of more than 13 characters is created twice in a new volume, both times with success |
| `Creations.ClaimExact` | src/fs/namei.c:266-286 | a creation chooses a slot, may sleep in ialloc, and then claims the slot: the claim keeps the invariant if and only if the slot is still free and no entry has its name as stored (and, for a directory, the parent has fewer than 255 links) |
| `Creations.WorldRunKeeps` | src/fs/namei.c:240-751 | over every run, with creations in two steps, in which nobody puts an entry into the directory between a choice and its claim and the other steps are careful, the invariant holds |
| `Creations.FileLost` | src/fs/namei.c:736-740 | a failing run: two processes create files in the root, both choose its third slot, and the first inode ends with a link and no entry |
| `Creations.ChooseThenClaim` | src/fs/namei.c:736-740 | without a sleep the two steps are the creation |
| `Links.RmdirAsserts` | src/fs/namei.c:395-410 | both assertions of sys_rmdir hold: an empty directory has exactly two links, its parent keeps one |
| `Links.EmptyNamedTwice` | src/fs/namei.c:307-348 | an empty directory is named by its own "." and its parent's entry and nowhere else |
| `Links.CountTwo` | src/fs/namei.c:307-348 | counting two live slots means nothing but the dots is there, and the reverse |
| `Links.LinkExact` | src/fs/namei.c:424-471 | sys_link keeps the counts exact and the names different if and only if the file has fewer than 255 links and no entry has the name as stored |
| `LinkLimit.CountOverflows` | src/fs/namei.c:424-471 | a failing run: a file gets 255 names, the next link succeeds and sets its count to zero |
| `Links.MkdirExact` | src/fs/namei.c:240-305 | sys_mkdir does if and only if the parent has fewer than 255 links and no entry has the name as stored |
| `Links.CreatedExact` | src/fs/namei.c:530-592 | creating a file does if and only if no entry has the name as stored |
| `Links.UnlinkedKeeps` | src/fs/namei.c:473-528 | unlinking keeps it; the inode goes with the last link |
| `Links.MkdiredAtKeeps` | src/fs/namei.c:240-305 | below 255 links and with a new name, mkdir keeps the directories a tree and every count exact |
| `Links.RmdiredKeeps` | src/fs/namei.c:350-422 | rmdir keeps it |
| `Links.EntryNamesLive` | src/fs/namei.c:55-98 | no entry dangles |
| `Namei.MatchName` | src/fs/namei.c:35-52 | matches exactly when the path's next name equals the entry's, and moves behind it |
| `Namei.Volume.FindEntry` | src/fs/namei.c:55-98 | finds a live entry of that name exactly if there is one |
| `Namei.Volume.AddEntry` | src/fs/namei.c:101-148 | the first 13 characters of the name go into the first free slot, or into one more at the end |
| `Namei.Volume.ChooseSlot` | src/fs/namei.c:101-148 | the first half of a creation: fails exactly if the name is found, otherwise the first free slot carries the first 13 characters of it and stays free |
| `Namei.Volume.ClaimSlot` | src/fs/namei.c:266-305 | the second half: the slot gets the inode whatever it holds by now, with the exact condition under which the volume stays right |
| `Namei.Volume.Create` | src/fs/namei.c:710-751 | succeeds exactly if it is allowed and the name is not found, and then refines creation, with the exact condition under which the volume stays right |
| `Namei.Volume.LinkTo` | src/fs/namei.c:424-471 | succeeds exactly for a file, if it is allowed and the name is not found, with the exact condition under which the volume stays right |
| `Namei.Volume.UnlinkAt` | src/fs/namei.c:473-528 | removes the entry of a file if it is allowed, never of a directory, and never by a name of more than 13 characters |
| `Namei.Volume.MakeDirectory` | src/fs/namei.c:240-305 | succeeds exactly if it is allowed and the name is not found, and then refines mkdir, with the exact condition under which the volume stays right |
| `Namei.Volume.IsEmpty` | src/fs/namei.c:307-348 | whether exactly two slots are live |
| `Namei.Volume.RemoveDirectory` | src/fs/namei.c:350-422 | succeeds exactly, if it is allowed, for a directory with only its dots that nobody holds and that is not the one searched; never by a name of more than 13 characters |
| `Locks.RunKeeps` | src/kernel/mutex.c:14-106 | over every interleaving: at most one owner, repeat equals the owner's unmatched acquires, the wait list holds exactly the sleepers, and while the mutex is free with sleepers some woken task is in the retry loop |
| `Locks.AssertionsHold` | src/kernel/mutex.c:14-106 | the assertions of lock and mutex hold in every such state |
| `Locks.UnlockKeeps` | src/kernel/mutex.c:39-63 | handing the mutex back loses no wake-up |
| `Locks.WakesLongest` | src/kernel/mutex.c:14-63 | over every interleaving an unlock wakes, if anybody sleeps for the mutex, exactly the one that fell asleep first, by the numbers of the steps |
| `Locks.AttemptKeeps` | src/kernel/mutex.c:14-36 | neither a newcomer nor a woken task breaks it |
| `Mutex.Lock.BeginAcquire` | src/kernel/mutex.c:74-88 | goes deeper exactly for the owner |
| `Mutex.Lock.TryMutex` | src/kernel/mutex.c:14-36 | one turn of the loop: takes a free mutex, sleeps on a taken one |
| `Mutex.Lock.FinishAcquire` | src/kernel/mutex.c:78-82 | holder and repeat are set; repeat was zero |
| `Mutex.Lock.BeginRelease` | src/kernel/mutex.c:91-106 | one level less; the last one clears the holder |
| `Mutex.Lock.UnlockMutex` | src/kernel/mutex.c:39-63 | wakes whoever is at the back of the list |
| `Fifo.Ring.Get` | src/lib/fifo.c:28-34 | the oldest byte goes |
| `Fifo.Ring.Put` | src/lib/fifo.c:36-44 | the byte is last; only in a full ring the oldest is lost |
| `Fifo.Ring.Full` | src/lib/fifo.c:17-21 | full at one byte less than the length |
| `Fifo.Ring.Empty` | src/lib/fifo.c:23-26 | empty |
| `Pipes.RunConserves` | src/fs/pipe.c:15-57 | over every run with one reader and one writer the bytes read are the first of those written and the rest is in the ring |
| `Pipes.NeverBothAsleep` | src/fs/pipe.c:15-57 | reader and writer are never both asleep |
| `Pipes.OtherWakes` | src/fs/pipe.c:15-57 | a sleeper is woken by the other's next byte |
| `Pipes.WriteCompletes` | src/fs/pipe.c:37-57 | over every run, when a call of write is over exactly its bytes have gone in since it began |
| `Pipes.ReadCompletes` | src/fs/pipe.c:15-35 | over every run, when a call of read is over it has taken exactly as many bytes as it asked for |
| `Pipes.Pipe.Read` | src/fs/pipe.c:15-35 | refines the reader's step: takes bytes in order, returns only with all it asked for, sleeps only at an empty ring and never reads one |
| `Pipes.Pipe.Write` | src/fs/pipe.c:37-57 | refines the writer's step: adds bytes in order, returns only when all are in, sleeps only at a full ring and never overwrites a byte |
| `WorkingDirectory.AbsPath` | src/fs/namei.c:602-669 | a canonical directory string becomes that of the directory the path leads to: "." stays, ".." goes up and stops at the root; passed separators become slashes |
| `Paths.NameAndBack` | src/fs/namei.c:632-645 | a name leads one directory down, and ".." leads back |
| `Paths.DotAndRoot` | src/fs/namei.c:628-640 | "." and the empty path lead nowhere, and ".." stays at the root |
| `Paths.ResolveInTwo` | src/fs/namei.c:618-647 | following a path is following its parts one after the other, with either separator between them |
| `Paths.AbsoluteIgnoresStart` | src/fs/namei.c:606-611 | a path that begins with a separator leads to the same place from everywhere, its rest from the root |
| `Paths.CanonicalGrows` | src/fs/namei.c:641-661 | the string of a directory is the root's slash and every name with a slash behind it |
| `Paths.DoubledSeparator` | src/fs/namei.c:618-647 | two separators in a row are not one: an empty name counts as a name |
| `Paths.ResolveProper` | src/fs/namei.c:602-669 | if no name of the path is empty the result has no ".", ".." or empty name |
| `Paths.CanonicalReads` | src/fs/namei.c:602-669 | reading a canonical string back gives the directory |
| `Paths.CanonicalInjective` | src/fs/namei.c:602-669 | different directories have different canonical strings |
| `WorkingDirectory.Up` | src/fs/namei.c:632-640 | drops the last name by cutting at the slash before it, and stays at the root |
| `WorkingDirectory.CopyPart` | src/lib/string.c:14-26 | strncpy: up to the end of the string or one less than the count, then a terminator; nothing before or behind is touched |
| `WorkingDirectory.LastSeparator` | src/lib/string.c:168-183 | the last separator or none |
| `WorkingDirectory.NextSeparator` | src/lib/string.c:151-165 | the first separator or none |
| `OpenFiles.RunKeeps` | src/fs/file.c:13-91 | over every run from boot of open, pipe, dup, close, fork and exit a file's count is the number of descriptors pointing at it, and an inode is held once for each file open on it |
| `FileOrigins.SharedBySource` | src/fs/file.c:50-250 | over every run from boot, by the calls alone: a descriptor is open exactly if it stems from an open, a pipe end or boot; two descriptors of whatever tasks share a file exactly if they stem from the same one, and the file is open on that inode |
| `OpenFiles.ClosedKeeps` | src/fs/file.c:27-35 | the inode reference goes exactly with the last descriptor |
| `OpenFiles.UsedIsOpen` | src/fs/file.c:27-29 | put_file never finds a count of zero |
| `OpenFiles.ForkedKeeps` | src/kernel/task.c:413-419 | fork copies all descriptors and counts each once |
| `OpenFiles.ClosedAllKeeps` | src/kernel/task.c:448-455 | the closes of exit never find a count of zero |
| `OpenFiles.NothingHeld` | src/kernel/task.c:448-455 | with the last task gone every file is closed and no inode is held |
| `FileTable.Files.FindFile` | src/fs/file.c:13-25 | the first unused file, never one of the first three |
| `FileTable.Files.FindDescriptor` | src/kernel/task.c:64-77 | the first free descriptor |
| `FileTable.Files.Open` | src/fs/file.c:50-73 | refines the open step; none exactly if there is no free descriptor or no unused file |
| `FileTable.Files.MakePipe` | src/fs/pipe.c:59-81 | two descriptors, two files, two references on the inode; none exactly if some are missing |
| `FileTable.Files.Close` | src/fs/file.c:80-91 | refines the close step; a closed descriptor is left alone |
| `FileTable.Files.DupFrom` | src/fs/file.c:220-238 | fails exactly for a closed descriptor or a full table |
| `FileTable.Files.Dup2` | src/fs/file.c:245-251 | the new descriptor points where the old one does, and is closed if the old one is not open |
| `FileTable.Files.ForkFiles` | src/kernel/task.c:413-419 | the loop refines fork |
| `FileTable.Files.ExitFiles` | src/kernel/task.c:448-455 | the loop refines exit |

## Left out

- FileSystem.Files.Bmap: on a volume with eight bitmap blocks whose every bit is set, past the volume's end too, balloc returns EOF and bmap stores 65535; here that counts as a failure. No volume that mkfs makes comes to it.
- FileRuns.RunReads: calls run one at a time; what sleeps in allocation and truncation do is stated over runs of zones, in ZoneRuns, not of file contents.
- ZoneRuns.RunKeeps: what two truncations of one file at a time do is not modelled; a truncation of a slot decides at its start which zones it frees.
- CacheRuns.RunKeeps: the lock under which a block is read is not modelled, and a read is one step.
- FileSystem.Files.InodeTruncate: asks for a volume in which no zone is shared; on others bfree's assertion can fail for a zone freed twice.
- FileSystem.Files.InodeRead: returns the bytes as a value; the copy into the caller's buffer, file modes, times and the buffer cache underneath are not modelled.
- Namei.Volume.LinkTo: the tests of permission, sticky bit and device are one input, and the walk from a path to its directory is not modelled; the calls start from the directory found.
- Namei.Volume.ClaimSlot: the number that ialloc finds is an input. Sleeps of a creation after it has claimed its slot, and sleeps of find_entry and add_entry while they read directory blocks, are not modelled.
- Namei.Volume.Create: mknod of a directory, which would have no dots, is not modelled.
- Namei.Volume.FindEntry: the switch to the mount point for ".." at a root is not modelled.
- Links.RunKeeps: slots of a directory are a sequence; that they lie in zones of the directory's file is not modelled.
- Processes.RunKeeps: what a process does when it is scheduled again after an exit that slept, with its address space gone, is not modelled; here it does nothing.
- CopyOnWrite.RunRefines: user-mode stores only; the kernel writes through read-only entries, and the TLB and the page-directory window are hardware.
- PageRanges.Mmap: pages that are there must be ones that can harmlessly be mapped again (CopyOnWrite.RemapKeepsInv says what happens otherwise); the choice of an address by a scan of the bitmap and the reading of a file into the pages are not modelled.
- BufferPool.Pool.Bread: the per-buffer lock under which a block is read is not modelled; a block reaches the disk as a whole.
- SleepQueue.Sleepers.Sleep: wrap-around of the tick counter is not modelled.
- Mutex.Lock.TryMutex: one turn of the retry loop at a time; the loop itself spans other processes' steps and lives in Locks.
- Pipes.RunConserves: one reader and one writer; several of either can meet failed assertions.
- KernelHeap.Allocator.Kmalloc: free lists are sequences here; their pointers are the subject of LinkedList. The contents of blocks are not modelled.
- HeapBlocks.PagesFor: wrap-around of a size near four gigabytes is not modelled.
- InodeBitmap.InodeMap.ScanBlock: the memory behind a block of the bitmap belongs to that block alone, where in the source it holds other buffers.
- InodeBitmap.InodeMap.Ialloc: memory behind one block of the bitmap is kept apart from the other blocks; the directory calls take the number found as an input.
- The in-memory inode table (iget, iput, inode_block) and mounts: one volume, and reference counts only as far as open files and held directories need them.
- new_inode does not clear the zone array; the model's new inodes come from truncated ones.
- Zones.Devmkfs: devices of 65536 blocks or more, whose counts do not fit into the super block, are left out; the root directory's zone and entries are part of FileRuns.Formatted and Links.Fresh.
- Zones.DevmkfsInodes: likewise.
- Device numbers kept in the first zone slot of device inodes.
- Priorities, time slices and the choice of the next process: every ready process may run next.
- Boot code, interrupt entry, drivers, the calendar, ELF loading, the shell and formatted output.
