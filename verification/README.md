# Rxd-os: storage, memory, tasks, keyboard and printf in Dafny

Rxd-os is a small i386 teaching kernel. This project models its stateful parts and proves what their
code keeps without saying so. `dafny verify dfyconfig.toml` checks everything.

Four groups are modelled, each layer giving the one above an abstract view.

* Storage. `BufferCache.dfy` is the write-back buffer cache; its view is the logical disk. `Bitmap.dfy`
  turns bitmap blocks into sets. `InodeTable.dfy` and `Bytes.dfy` lay inodes out in bytes.
  `Ownership.dfy` says which file owns which block, `Transfer.dfy` what the block splitting of `_read`
  and `_write` does to bytes. `FsState.dfy` states the invariant of the file system over disk and
  loaded inodes and proves it step by step; `FileSystem.dfy` is the code of fs/fs.c over all of them,
  and every operation is specified by the map from inode numbers to files. `SysCalls.dfy`,
  `Directory.dfy` and `CStrings.dfy` sit on top; `Undo.dfy` joins operations into runs that give back
  all they took, `Runs.dfy` into others. `Superblock.dfy` is the superblock. `Outcomes.dfy` runs the loops of `_read` and `_write` guard by guard and says when they
  are right.
* Memory. `Pages.dfy` is the page-run allocator. `Slab.dfy` and `SlabLayout.dfy` are the slab allocator
  on it, `Paging.dfy` the page tables, fork sharing and the page faults.
* Lists. `List.dfy` is the pointer level of include/list.h. The cache and the slab allocator keep their
  lists as sequences; `BufferLists.dfy` and `SlabLists.dfy` run the same relinking on the pointers beside
  them and prove that pointers and sequences go on to agree, the reclaim walk of `bread` included.
* Runs and small machines. `SchedulerSpec.dfy` is the rule of the scheduler and what follows for whole
  runs, `Scheduler.dfy` the code that realizes it. `RingQueue.dfy` and `Keyboard.dfy` are the keyboard,
  `Numbers.dfy`, `Format.dfy` and `Printf.dfy` the formatter.

`Collections.dfy` counts members of finite sets and turns sequences around.

A `panic` or a failing `assert` of the kernel is a precondition here, discharged at every call inside
the model; that is why methods ask for room on the disk, in memory or in a queue. A global of a C file
is a field of the class that models the file. Disk blocks, device numbers and addresses are
mathematical integers where the code never leaves their range; stored fields, `atoi`, `__itoa` and page
table entries have their 16 or 32 bits written out.

Where the code does other than one would expect, the code is followed.

* `_read` and `_write` move `left_bytes % BLOCK_SIZE` bytes in the middle of a transfer and then go to
  the next zone, and `_get_zone_blk` checks zones against the old size of the file. They are right exactly
  for transfers of at most 2048 - pos % 1024 bytes that stay in the first seven blocks and, for a write,
  add at most one zone (`Outcomes.ReadExactIff`, `Outcomes.WriteExactIff`); 1500 bytes into an empty file
  panic (`Outcomes.EmptyFileWrite`). `sys_read` and `sys_write` inherit that: a panic spins, and behind the
  end of the file the loop of `sys_read` does (`SysCalls.SysReadEndsIff`).
* A `_write` behind the end shows what the last block of the file still holds there (`Outcomes.GapZeroIff`):
  bytes cut off by `sys_truncate` come back (`Runs.CutAndSkip`).
* `bread` fails when the oldest cached buffer is pinned, even if another is idle (`Buffers.OldestPinned`).
* The inode table holds 84 inodes although the bitmap has more numbers (`InodeTable.InTableIff`); the
  invariant keeps to 84, and `create_inode` breaks it when they are used up (`FileSystem.Fs.CreateBeyond`,
  `Runs.UseUpNumbers`).
* `sys_truncate` accepts negative lengths, which break the invariant (`FileSystem.Fs.Truncate`).
* `strncmp` compares one character more than ISO C (section 7.24.4.4 of ISO/IEC 9899:2011) says; the
  exactness of directory lookup rests on it (`CStrings.StrncmpExact`).
* `mem_init` counts the page at its end as free; some history makes `alloc_pages` run into its own assert
  exactly when memory ends on a page boundary (`Pages.AssertHoldsIff`, `Pages.LastPageRun`).
* `free_pages` refuses a run that ends with the last page of the map; some history gets there exactly when
  `mem_init` frees that page (`Pages.GivesBackIff`), as the call of the kernel does (`Pages.LastPageKept`).
* `__align` rounds down (`SlabLayout.AlignIff`). `kmem_cache_destroy` does not free the structure of its cache.
* `__itoaf` loses its terminator when only the precision pads (`Format.ItoafInto`); a point without
  digits leaves the precision unset.
* A child shares 4 MB of the identity tables of the kernel, and copied pages come from the lowest free
  frames, so another task may see the copy, or the page table of the child, in its own first 4 MB
  (`Paging.SiblingSees`). The first megabyte of every task is isolated from the first stores of every fork
  (`Paging.Mmu.FirstStore`); all 1024 entries are if and only if none leads to the lowest free page or to
  that table (`Paging.FirstStoreSeen`), which for forks that have not faulted means that both lie behind
  the first 4 MB (`Paging.ForksSee`). A store to a shared page above the first megabyte ends in the endless
  loop of `do_wp_page`.

## Model

| member | source | states |
|---|---|---|
| Buffers.BufferCache.constructor | kernel/blk_drv/buffer.c:85-105 | The loop makes as many buffers as 56-byte heads from the start and blocks from the end have room for, and no more; every one is on the free list, nothing is cached or pinned, and readers see the disk. |
| Buffers.BufferCache.Bread | kernel/blk_drv/buffer.c:9-55 | Returns the block as a reader of the logical disk sees it, on a hit and on a miss; a hit adds a pin and moves nothing, a miss takes the head of the free list or, after a reclaim, the oldest cached buffer, and both lists are then known; the logical disk and every other buffer stay as they were. |
| Buffers.BufferCache.Find | kernel/blk_drv/buffer.c:15-22 | The search hits exactly when the block is cached, and then finds the one buffer that holds it. |
| Buffers.BufferCache.TakeFree | kernel/blk_drv/buffer.c:24-44 | Its checks pass if and only if a buffer is free or the oldest cached one is idle. Then either both lists are left alone and the head of the free list chosen, or the unpinned cached buffers are the free list in reverse, headed by the oldest, which is chosen, and the pinned ones are left. The logical disk stays in any case. |
| Buffers.OldestPinned | kernel/blk_drv/buffer.c:24-44 | A read that fails its check although a buffer is idle: the older of two buffers is pinned. |
| Buffers.BufferCache.ReclaimWalk | kernel/blk_drv/buffer.c:26-36 | The walk moves exactly the unpinned cached buffers to the free list, in reverse order, and leaves the pinned ones in order. |
| Buffers.BufferCache.Reclaim | kernel/blk_drv/buffer.c:24-40 | Reclaiming keeps the cache invariant and the logical disk, and forgets no pinned block. |
| Buffers.BufferCache.Forget | kernel/blk_drv/buffer.c:26-36 | Dropping unpinned buffers loses nothing, because each is clean and equal to the disk. |
| Buffers.BufferCache.Install | kernel/blk_drv/buffer.c:45-54 | A free buffer becomes the single buffer of an uncached block, pinned once and clean. |
| Buffers.BufferCache.Brelease | kernel/blk_drv/buffer.c:56-69 | The last release of a marked buffer writes it back, any other leaves the disk; readers see no difference, and unpinned buffers are clean afterwards. |
| Buffers.BufferCache.Bwrite | kernel/blk_drv/buffer.c:70-73 | Marks the buffer and changes nothing a reader sees. |
| Buffers.BufferCache.Store | kernel/blk_drv/buffer.c:9-73 | What a holder stores into a pinned buffer is what readers of that block see from then on, and no other block changes. |
| Buffers.BufferCache.QuietFacts | kernel/blk_drv/buffer.c:24-44 | With no buffer pinned the logical disk is the disk, and a read of any block succeeds. |
| Buffers.BufferCache.Load | fs/fs.c:155-157 | bread, copy and brelease give the bytes of the disk and leave it unchanged with nothing pinned. |
| Buffers.BufferCache.Save | fs/fs.c:188-191 | bread, copy, bwrite and brelease change exactly those bytes of that block on the disk, with nothing pinned afterwards. |
| Buffers.PartitionFacts | kernel/blk_drv/buffer.c:26-36 | Splitting a list by pinning yields two lists without repeats that share nothing and lose nothing. |
| Buffers.KeepLast | kernel/blk_drv/buffer.c:26-43 | If the oldest cached buffer is unpinned it is the one that ends in front. |
| BufferLists.BufferInit | kernel/blk_drv/buffer.c:85-105 | The free list linked by `buffer_init`, buffer by buffer at its head, is the free list of the new cache, and nothing is cached. |
| BufferLists.LinkedLists.LinkAll | kernel/blk_drv/buffer.c:94-101 | Adding the buffers one by one to the head links them all in order. |
| BufferLists.LinkedLists.Find | kernel/blk_drv/buffer.c:15-22 | Following `next` through the cached list finds a buffer with that device and block, or none of them matches. |
| BufferLists.LinkedLists.Reclaim | kernel/blk_drv/buffer.c:27-32 | The walk that saves `next`, unlinks the idle nodes from the hash list and puts them on the free list leaves a chain of the pinned buffers in order and a circle of the idle ones in reverse, and ends at the last buffer. |
| BufferLists.LinkedLists.Turn | kernel/blk_drv/buffer.c:27-32 | After a turn the pointers hold the two lists of the next turn, and the saved `next` is the node of the next buffer, although its predecessor was relinked. |
| BufferLists.WalkTurn | kernel/blk_drv/buffer.c:27-32 | In the lists after n turns buffer n stands where the walk is, and its successor is that of the original list. |
| BufferLists.LinkedLists.Install | kernel/blk_drv/buffer.c:45-46 | `list_del` and `hlist_add_head` take the first free buffer out of the circle and put it at the head of the chain. |
| BufferLists.LinkedLists.Choose | kernel/blk_drv/buffer.c:15-46 | Search, reclaim and relinking on the pointers choose the cached buffer of the block, the first free one, or the oldest cached one, and leave the two lists that go with it. |
| BufferLists.LinkedLists.Bread | kernel/blk_drv/buffer.c:9-55 | `bread` on the linked lists and `bread` on the sequences choose the same buffer, and the pointers go on to hold the sequences. |
| Bitmap.FindFirstZero | fs/bitmap.h:30-50 | The least clear bit of the area, or -1 exactly when every bit is set. |
| Bitmap.FirstZeroOfByte | fs/bitmap.h:40-47 | Shifting finds the least clear bit of a byte that is not 0xff. |
| Bitmap.SetNBit | fs/bitmap.h:5-17 | On a zeroed area exactly the first `count` bits become set. |
| Bitmap.WithBitLaw | fs/bitmap.h:1-3 | Setting or clearing bit i changes bit i and no other. |
| Bitmap.SetAfter | fs/bitmap.h:52-90 | Rewriting the block of a bit adds or removes exactly that member of the set the whole bitmap stands for. |
| Bitmap.UpdateBit | fs/bitmap.h:59-76 | Writing the block back leaves a quiet cache and a disk that differs in that one bit. |
| Bitmap.BitmapAlloc | fs/bitmap.h:52-78 | Returns the least clear bit over all blocks of the area, sets it and nothing else. |
| Bitmap.BitmapFree | fs/bitmap.h:80-90 | Clears exactly that bit, so it undoes an allocation. |
| Bitmap.BitmapTest | fs/bitmap.h:92-108 | Answers membership in the set and leaves the disk as it was. |
| InodeTable.RoundTrip | fs/fs.c:137-192 | An inode whose fields fit their C types survives being stored as bytes and loaded: number, size, mode, links and all nine zones. |
| InodeTable.ZonesRoundTrip | fs/fs.c:165-165 | Every list of 32-bit zone numbers survives the trip through bytes. |
| InodeTable.Back4 | include/fs.h:37-42 | A 32-bit field, signed or unsigned, reads back as stored. |
| InodeTable.Back2 | include/fs.h:40-41 | A 16-bit field, signed or unsigned, reads back as stored. |
| Bytes.ToAndOfByte | include/fs.h:37-42 | Every value below 256 survives being a byte. |
| InodeTable.SlotsDisjoint | fs/fs.c:150-153 | For the 84 inode numbers that the table holds, slots lie inside the table and inside one block, and different numbers have disjoint slots. |
| InodeTable.InTableIff | fs/fs.c:150-153 | A record lies in the table if and only if its number is below 84; that of 84 is the start of block 10, the first data block. |
| InodeTable.SlotAfterWrite | fs/fs.c:168-192 | After a slot was written it reads back as that inode, and every other slot reads as before. |
| Ownership.Take | fs/fs.c:39-52 | A block whose bit was clear may go to any file: ownership stays disjoint and the bitmap stays exactly the reserved blocks plus the owned ones. |
| Ownership.Give | fs/fs.c:53-56 | Clearing the bit of the last block of a file keeps ownership exact. |
| Ownership.SameBlocks | fs/fs.c:59-134 | Files that hold no block may come and go without a change of ownership. |
| Transfer.ReadShort | fs/fs.c:243-278 | A transfer that crosses at most one block boundary delivers the exact slice. |
| Transfer.WriteShort | fs/fs.c:280-322 | Such a transfer lays the buffer over the bytes and changes nothing else. |
| Transfer.ReadSkips | fs/fs.c:268-274 | A read of between one and two blocks after the first transfer delivers the start of a later block where an earlier byte belongs. |
| Transfer.WriteMisses | fs/fs.c:306-313 | Such a write leaves a byte in the middle of its range unwritten. |
| Transfer.WriteBefore | fs/fs.c:292-313 | No write touches a byte before its position. |
| Outcomes.ReadStuck | fs/fs.c:265-275 | With two blocks or more left the loop of `_read` never finishes: it goes on until a guard of `_get_zone_blk` panics. |
| Outcomes.WriteStuck | fs/fs.c:303-314 | So does the loop of `_write`. |
| Outcomes.ReadEnds | fs/fs.c:265-275 | With less left the loop panics exactly when its last zone is refused, and otherwise delivers the bytes of the block splitting. |
| Outcomes.WriteEnds | fs/fs.c:303-314 | The same for the loop of `_write`. |
| Outcomes.ReadOutcomeIs | fs/fs.c:243-278 | Computed guard by guard, `_read` inside a file of at most seven blocks panics exactly when two blocks or more are left after the first transfer or the position is behind zone 6. |
| Outcomes.WriteOutcomeIs | fs/fs.c:280-322 | Computed guard by guard, `_write` panics exactly when two blocks or more are left after the first transfer, when it adds more than one zone to the old size, or when it ends behind zone 6. |
| Outcomes.ReadExactIff | fs/fs.c:243-278 | For a file size, a position and a count inside the file, `_read` returns the slice of every such file if and only if count <= 2048 - pos % 1024 and pos < 7168. |
| Outcomes.ReadFails | fs/fs.c:262-275 | For every other read, a file of that size on which it panics or delivers wrong bytes. |
| Outcomes.WriteExactIff | fs/fs.c:280-322 | For a file size, a position at or before its end and a count, `_write` is the flat write for every content and buffer if and only if count <= 2048 - pos % 1024, the end lies at most one zone behind those of the old size, and within 7168 bytes. |
| Outcomes.WriteFails | fs/fs.c:300-314 | For every other write, a file of that size and a buffer on which it panics or stores wrong bytes. |
| Outcomes.WroteFlat | fs/fs.c:280-322 | A short write that returns is the flat write. |
| Outcomes.EmptyFileWrite | fs/fs.c:204-205 | A short write that panics: 1500 bytes at the start of an empty file. |
| Outcomes.BoundaryAppend | fs/fs.c:204-205 | So does every append of more than a block to a file that ends on a block boundary. |
| Outcomes.GapBytes | fs/fs.c:280-322 | A write behind the end leaves the file, then what its last block holds behind the end, then zero bytes up to the position, and the buffer if the write is short. |
| Outcomes.GapZeroIff | fs/fs.c:280-322 | The gap reads as zero bytes if and only if the last block is zero from the end to the position. |
| FsState.RawSplice | fs/fs.c:300-313 | Bytes written into block i of a file with distinct blocks appear in its content at i * 1024, and nowhere else. |
| FsState.HeldLaws | fs/fs.c:39-56 | From the invariant: the blocks of a file are distinct data blocks marked in the bitmap and belong to no other file. |
| FsState.GrowStep | fs/fs.c:219-226 | One turn of growing keeps the invariant, adds one bit and one zeroed block, and leaves every other file alone. |
| FsState.ShrinkStep | fs/fs.c:227-236 | One turn of truncating keeps the invariant, clears the bit of the last block only, and leaves every other file alone. |
| FsState.DataStep | fs/fs.c:300-313 | Storing into a block of a file keeps the invariant and every other file. |
| FsState.MetaStep | fs/fs.c:316-319 | Changing size, mode or links within bounds keeps the invariant and every other file. |
| FsState.SlotStep | fs/fs.c:168-192 | Writing an inode back changes nothing that is live and makes the disk agree with memory. |
| FsState.CreateStep | fs/fs.c:59-89 | A free inode number becomes one more file, empty and unlinked; all others keep fields, blocks and bytes. |
| FsState.DeleteStep | fs/fs.c:112-134 | An inode without blocks leaves: exactly that file is gone. |
| FsState.LoadStep | fs/fs.c:90-111 | Loading an inode from the disk, or dropping one the disk agrees with, changes no file. |
| FsState.FilesAfter | fs/fs.c:216-322 | A step on one inode that keeps the others changes the file map at that inode only. |
| FsState.Settle | fs/fs.c:216-240 | An inode that holds as many zones as its size asks for meets the invariant of all inodes. |
| Superblock.SuperRoundTrip | fs/fs.c:381-399 | A superblock whose fields fit their C types reads back as stored. |
| Superblock.LayoutStored | fs/fs.c:945-961 | After `write_super` the superblock read from the block is the one `mkfs` set. |
| FileSystem.Fs.Mkfs | fs/fs.c:945-989 | Whatever the disk held, afterwards it has the superblock, one empty file, inode 1, and meets the invariant; the inode bitmap is {0, 1} and the block bitmap the ten reserved blocks. |
| FileSystem.Fs.Init | fs/fs.c:991-1024 | A disk with the magic number is left as it is and all its files are found; any other becomes an empty file system. The layout read back is that of `mkfs`, and the root is the one inode loaded. |
| FileSystem.Fs.ReadSuper | fs/fs.c:381-391 | The fields of block 1, with the device number set. |
| FileSystem.Fs.WriteSuper | fs/fs.c:393-399 | Block 1 gets the layout; no other block changes. |
| FileSystem.Fs.Mount | fs/fs.c:1008-1024 | Loading the root of a file system changes nothing on the disk and finds exactly its files. |
| FileSystem.Fs.Persistent | fs/fs.c:90-134 | When every loaded inode is on the disk as in memory, as when none is loaded any more, the disk alone meets the invariant and holds the same files. |
| FileSystem.MkfsState | fs/fs.c:945-989 | Those bitmaps and that root inode meet the invariant. |
| FileSystem.Fs.FormatMap | fs/fs.c:965-977 | A cleared bitmap block with its first n bits set stands for {0, ..., n-1}; only that block changes. |
| FileSystem.Fs.GetBlk | fs/fs.c:39-52 | The least free block, marked and zeroed. |
| FileSystem.Fs.ReadInode | fs/fs.c:137-167 | The inode in memory gets exactly the fields of its record; the disk stays. |
| FileSystem.Fs.WriteInode | fs/fs.c:168-192 | Exactly the record of the inode changes on the disk. |
| FileSystem.Fs.SetZoneBlk | fs/fs.c:194-200 | One direct zone of one inode changes in memory. |
| FileSystem.Fs.GrowZones | fs/fs.c:219-226 | Zeroed blocks that were free are appended behind the old content; the bitmap gains exactly them; other files stay. |
| FileSystem.Fs.ShrinkZones | fs/fs.c:227-236 | The content is cut to the blocks kept; the bitmap loses exactly the blocks behind them; other files stay. |
| FileSystem.Fs.ReserveZone | fs/fs.c:216-240 | Grows, truncates or does nothing, as asked; content is resized with zero bytes and the bitmap changes by exactly the blocks taken or given back. |
| FileSystem.Fs.WriteBlocks | fs/fs.c:303-314 | The loop of `_write` leaves what the block-splitting function says and touches no other file. |
| FileSystem.Fs.ReadBlocks | fs/fs.c:265-275 | The loop of `_read` delivers what the block-splitting function says and touches nothing. |
| FileSystem.Fs.Write | fs/fs.c:280-322 | The file becomes what the block splitting leaves, its size grows to the end of the transfer if that is past it, the bitmap gains exactly the new zones, which were free, and no other file changes. |
| FileSystem.FlatWrite | fs/fs.c:280-322 | For a short transfer at or before the end that is old[..pos] + buf + old[pos+count..]. |
| FileSystem.WrittenIsOutcome | fs/fs.c:280-322 | The bytes `Write` promises are those of `_write` computed guard by guard, which panics exactly where `Write` may not be called. |
| FileSystem.Fs.Read | fs/fs.c:243-278 | -1 exactly past the end; otherwise the bytes of the block splitting, which for short transfers are the slice of the file; nothing changes. |
| FileSystem.FlatRead | fs/fs.c:243-278 | A short read inside the file is the slice of its bytes. |
| FileSystem.ReadIsOutcome | fs/fs.c:243-278 | The bytes `Read` promises are those of `_read` computed guard by guard, which panics exactly where `Read` may not be called. |
| FileSystem.Fs.Truncate | fs/fs.c:817-833 | A shorter length keeps the first bytes and gives back exactly the blocks behind them, and the last block keeps its bytes behind the new end; a longer one changes nothing; other files stay. A negative length is accepted and gives back all blocks; the invariant survives if and only if the length is not negative. |
| FileSystem.Fs.SetNlink | fs/fs.c:358-359 | A new link count reaches the disk and changes that file only. |
| FileSystem.Fs.CreateInode | fs/fs.c:59-89 | The least free inode number becomes an empty, unlinked file with one reference; every other file and the block bitmap stay. |
| FileSystem.Fs.CreateBeyond | fs/fs.c:59-89 | With all 84 numbers taken it goes on with number 84 and writes its record over the start of the first data block: the file that holds block 10, if any, has the 72 bytes of the record there, every other file is as it was, and the invariant is gone. |
| FileSystem.Fs.GetInode | fs/fs.c:90-111 | The loaded inode with one more reference, or the record of the disk with its first; no file changes and no inode is loaded twice. |
| FileSystem.Fs.PutInode | fs/fs.c:112-134 | The last reference to an unlinked file removes exactly that file, its number and its blocks; to a linked one it writes it back; any other only counts down. |
| FileSystem.DeleteFiles | fs/fs.c:119-126 | After the deletion the files are the old ones without that one. |
| FileSystem.ImapOfLive | fs/fs.c:59-134 | The inode bitmap is exactly 0 and the live inode numbers. |
| Undo.NumbersOfFiles | fs/fs.c:59-134 | In every reachable state the inode bitmap is exactly 0 and the numbers of the files. |
| Undo.TemporaryFile | fs/fs.c:59-134 | Creating a file, writing to it and dropping its last reference leaves files, inode bitmap and block bitmap exactly as they were. |
| Undo.AppendAndCut | fs/fs.c:280-322 | Appending bytes and truncating to the old size leaves every file and the block bitmap exactly as they were. |
| Runs.UseUpNumbers | fs/fs.c:59-89 | The run to that state: a fresh file system and 82 calls of `create_inode` use up the numbers, and the next call breaks the invariant. |
| Runs.CutAndSkip | fs/fs.c:280-322 | After `sys_truncate` a `_write` behind the new end brings back the bytes cut off, up to the end of their block, and zero bytes behind that. |
| Runs.Reboot | fs/fs.c:991-1024 | On a fresh cache over the same disk `fs_init` finds every file, as long as every loaded inode was written back. |
| SysCalls.SysRead | fs/fs.c:736-769 | On every input on which the call returns it delivers min(count, size - pos) bytes, those that `_read` has there, the slice of the file when the transfer is short, and moves the position by as much. |
| SysCalls.SysReadEndsIff | fs/fs.c:736-769 | The call returns if and only if nothing is asked for, or the position is not behind the file and the bytes it would deliver leave less than two blocks after the first transfer; a panic of `_read` spins and is no return. |
| SysCalls.PastTheEnd | fs/fs.c:759-764 | Behind the end every turn is refused and leaves bytes to go, for ever. |
| SysCalls.PageReadSpins | fs/fs.c:748-751 | A read that never returns: 4096 bytes at the start of a file of 7168. |
| SysCalls.SysWrite | fs/fs.c:770-795 | Writes everything in one `_write` whenever that does not panic: the file is what `_write` leaves, patched at the position when the transfer is short, and the position moves behind it; no other file changes. |
| SysCalls.SysWriteEndsIff | fs/fs.c:778-783 | The first `_write` of the loop returns if and only if one `_write` of all the data would, and that is less than a page. |
| CStrings.Strncmp | lib/string.c:165-177 | Zero exactly when the strings agree up to the first difference, end, or the character at index `num`, which is compared too; otherwise -1 or 1 as the signed characters there compare. |
| CStrings.StrncmpExact | lib/string.c:165-177 | With `num` the length of the name, a zero result means equal names and not a common prefix. |
| CStrings.Strncpy | lib/string.c:149-163 | A source of at most `num` characters is copied and padded with zero bytes; nothing behind it changes. |
| Directory.EntryRoundTrip | include/fs.h:52-60 | A directory record survives being stored and loaded. |
| Directory.RecordInBlock | fs/fs.c:328-335 | No 32-byte record straddles a block, so moving one is always a short transfer. |
| Directory.PatchedRecs | fs/fs.c:357-357 | Writing record k changes record k and no other. |
| Directory.AddBinding | fs/fs.c:349-359 | A live record with a new name in a blank or new place keeps names unique and adds exactly that binding to the map. |
| Directory.FindDirEntry | fs/fs.c:323-338 | -1 exactly when the directory does not bind the name; otherwise the place of the one live record of that name, with its inode number. |
| Directory.FindPlace | fs/fs.c:350-356 | The first blank record, or the end when every record is live. |
| Directory.AddDirEntry | fs/fs.c:339-361 | Fails exactly when the name is bound, changing nothing; otherwise adds that one binding and one link, and changes no other binding and no other file. |
| Pages.PageMap.constructor | mm/memory.c:34-49 | Exactly the pages from the start to that of the end, inclusive, are free; no run is out; the closing assert of `alloc_pages` is safe if and only if memory does not end on a page boundary. |
| Pages.PageMap.FindRun | mm/memory.c:66-75 | The search stops at the last page of the lowest free run of the length asked for. |
| Pages.PageMap.AllocPages | mm/memory.c:60-91 | Returns the lowest run of 2^order free pages, marks exactly it, keeps all runs disjoint, and keeps the closing assert safe. |
| Pages.PageMap.FreePages | mm/memory.c:104-114 | Gives back exactly the run, for a run handed out that does not end with the last page. |
| Pages.AllocKeeps | mm/memory.c:60-91 | A free run joins the runs that are out without meeting any of them, over every history. |
| Pages.FreeKeeps | mm/memory.c:104-114 | Taking a run back keeps the map consistent with the runs that remain. |
| Pages.AllocThenFree | mm/memory.c:60-114 | Allocating and freeing a run restores the map. |
| Pages.InitBelow | mm/memory.c:45-47 | Right after `mem_init` every free page starts below the end of memory if and only if that is not on a page boundary. |
| Pages.AssertHoldsIff | mm/memory.c:88-88 | Over all histories of allocations and frees: the closing assert of `alloc_pages` never fails if and only if memory does not end on a page boundary. |
| Pages.StaysBelow | mm/memory.c:60-114 | Every history from a map whose pages start below the end keeps that, keeps the map consistent, and fails no assert. |
| Pages.LastOneFails | mm/memory.c:88-88 | For every memory that ends on a page boundary, a history on which the assert fails: one page after the other. |
| Pages.LastPageRun | mm/memory.c:34-91 | The run on the code: one page and the page at the end; after one allocation the lowest free run starts at the end of memory. |
| Pages.GivesBackIff | mm/memory.c:104-108 | Over all histories and whatever `mem_init` was told: `free_pages` refuses no run that is out if and only if the last page of the map stays reserved. |
| Pages.NeverRefused | mm/memory.c:104-108 | From a map whose last page is reserved no history reaches a refusal. |
| Pages.LastRunRefused | mm/memory.c:60-108 | When the last page is free, a history that ends in the refusal, for every start and for ends on a page boundary too, where the last run has two pages. |
| Pages.LastPageKept | mm/memory.c:34-108 | The run on the code with the memory end of the kernel: the last page is handed out and no call can give it back. |
| Paging.Mmu.constructor | boot/head.asm:144-161 | The boot tables map memory to itself in four directory entries and meet the invariant. |
| Paging.ProtectLaws | mm/memory.c:145-145 | Clearing or setting the write bit moves no page and stays within 32 bits. |
| Paging.SharedLaws | mm/memory.c:144-152 | A shared entry leads to the page of the parent and is writable for entry 144 only. |
| Paging.Mmu.AllocPage | mm/memory.c:92-95 | The page handed out was free: it is no page table and no task sees it in its first megabyte. |
| Paging.Mmu.CopyTable | mm/memory.c:144-149 | Every entry is copied with its write bit off; no other page changes. |
| Paging.Mmu.ShareVma | mm/memory.c:122-153 | The child gets a table of its own whose 1024 entries lead to the pages of the parent, write-protected but for entry 144; the tables of the parent and of every other task, and all other memory, stay. |
| Paging.Mmu.NeedTable | mm/memory.c:157-166 | A missing table becomes a fresh zeroed page; every other table stays. |
| Paging.Mmu.DoNoPage | mm/memory.c:155-174 | The missing entry leads to a page nobody had, writable; every other entry of every table stays. |
| Paging.Mmu.DoWpPage | mm/memory.c:176-191 | For a page below LOW_MEM the faulting entry leads to a fresh page with equal content, writable, that no other window leads to; nothing else in memory changes. |
| Paging.Mmu.FirstStore | mm/memory.c:176-191 | After the fault and the store the lowest free page holds the old page with one word changed, the entry leads to it, and all other memory is as it was; under a table made by a fork, no other task reads another word in its first megabyte, and no table disappears. |
| Paging.FirstStoreSeen | mm/memory.c:176-191 | Over all 1024 entries of any other tables: whatever is stored, they show what they showed if and only if none of them led to the lowest free page or to the table of the faulting task. |
| Paging.ForksSee | mm/memory.c:144-191 | For tables as a fork makes them that means: if and only if the lowest free page and the table lie behind the first 4 MB. |
| Paging.FirstStoreIsolatedIff | mm/memory.c:176-191 | The same on the contents of memory, for any frame that is no table. |
| Paging.StoreIsolatedIff | mm/memory.c:181-191 | A store alone, after the fault, is seen by no other table if and only if no entry of theirs leads to that frame. |
| Paging.SiblingSees | mm/memory.c:122-191 | The failing run from `mem_init(0x100000, 0xffffff)` and two forks: before the first store of task 1, task 2 reads at page 260 of its own first 4 MB what the frame held at boot, and after it the word stored. |
| SlabLayout.PartsDisjoint | mm/slab.c:12-18 | Objects, index table and header of a slab never overlap and stay within the page. |
| SlabLayout.AddrRecovers | mm/slab.c:149-151 | From the address of an object the mask and the division recover its slab and its index. |
| SlabLayout.AlignIff | mm/slab.c:204-204 | Rounding leaves room for the size asked for if and only if it is a multiple of four; below four all objects share one address. |
| Slabs.PopChain | mm/slab.c:129-131 | Taking the first index leaves a linked chain without it. |
| Slabs.PushChain | mm/slab.c:155-157 | Putting an index in front gives a linked chain without repeats. |
| Slabs.FreshChain | mm/slab.c:98-104 | The table of a new slab links every index once. |
| Slabs.Slab.constructor | mm/slab.c:83-104 | A new slab has all objects free. |
| Slabs.Slab.Check | mm/slab.c:48-68 | The walk ends and its count plus the objects in use is the object count. |
| Slabs.Slab.Take | mm/slab.c:124-132 | A free index becomes used; exactly it. |
| Slabs.Slab.Put | mm/slab.c:144-158 | A used index becomes free; exactly it. |
| Slabs.Slab.UsedBound | mm/slab.c:144-148 | A slab with a live object has a positive count. |
| Slabs.Cache.MoveAfterAlloc | mm/slab.c:133-140 | The slab leaves its list and heads the full or the partial one, as its chain is empty or not; the three lists are otherwise as they were. |
| Slabs.Cache.MoveAfterFree | mm/slab.c:159-164 | The slab leaves its list and heads the free or the partial one, as nothing is in use or something is; the three lists are otherwise as they were. |
| Slabs.SlabMem.constructor | mm/slab.c:20-37 | The allocator with `cache_cache` alone, 78 objects of 48 bytes a slab, meets the invariant. |
| Slabs.SlabMem.KmemCacheCreatex | mm/slab.c:195-212 | The structure is a new object of `cache_cache`, and there is one more cache of the rounded size, usable for sizes from 4 to 4071; no other object comes or goes. |
| Slabs.SlabMem.CacheInit | mm/slab.c:291-305 | With a free page, or room for six in `cache_cache`, the six calls give `kmalloc` a cache for every size class; exactly six new objects, their structures, are live. |
| Slabs.StartAllocator | mm/slab.c:291-305 | From `mem_init` on one free page is enough to get there. |
| Slabs.Cache.constructor | mm/slab.c:195-212 | A cache starts with three empty lists; its slabs hold objects at addresses of their own if and only if the size asked for is at least 4 and below 4072. |
| Slabs.SlabMem.SlabAlloc | mm/slab.c:124-142 | One address becomes a live object of the size of the cache, one that was not; all others stay. |
| Slabs.SlabMem.SlabFree | mm/slab.c:144-165 | Exactly that object stops being live. |
| Slabs.SlabMem.CreateSlab | mm/slab.c:70-111 | A fresh page becomes an empty slab at the head of the free list; no object comes or goes. |
| Slabs.SlabMem.Adopt | mm/slab.c:106-109 | A new slab on its own page keeps every slab on the list of its state. |
| Slabs.SlabMem.KmemCacheAlloc | mm/slab.c:167-186 | A new object of the size of the cache; a page is taken exactly when no slab of it has room, and then the slab on it has room for the others. |
| Slabs.SlabMem.DestroySlab | mm/slab.c:112-122 | The page of an empty slab goes back; no object is lost. |
| Slabs.SlabMem.Retire | mm/slab.c:112-122 | Without the empty slab every other slab is on the list of its state, and its page can go back. |
| Slabs.SlabMem.KmemCacheDestroy | mm/slab.c:218-236 | A cache without live objects gives back all its slabs; objects of other caches stay live, its own structure included. |
| Slabs.SlabMem.Kmalloc | mm/slab.c:238-268 | A new object of the least size class that holds the size asked for, from 1 to 128 bytes; all others stay. |
| Slabs.SlabMem.Kfree | mm/slab.c:270-279 | Exactly that object stops being live; it is enough to know its address. |
| Slabs.SlabMem.LiveDisjoint | mm/slab.c:12-18 | In every state, live objects of whatever caches never overlap and stay off tables and headers. |
| Slabs.IndexOfAddr | mm/slab.c:149-151 | Exactly one address of a page leads to an index. |
| SlabLists.SlabHeads.constructor | mm/slab.c:201-203 | Three empty circles. |
| SlabLists.SlabHeads.Unlink | mm/slab.c:134-134 | `list_del` takes the slab out of its circle; the other circles stay as they were. |
| SlabLists.SlabHeads.Link | mm/slab.c:135-138 | `list_add` makes the slab the first of one circle; the others stay. |
| SlabLists.SlabHeads.MoveAfterAlloc | mm/slab.c:133-140 | The move on the pointers and the move on the sequences end in the same three lists. |
| SlabLists.SlabHeads.MoveAfterFree | mm/slab.c:159-164 | Likewise for the move after a free. |
| Scheduler.TaskTable.constructor | kernel/proc.c:55-62 | Task 0 alone in the table, and current. |
| Scheduler.TaskTable.GetPid | kernel/proc.c:30-38 | The least free entry, or -1 exactly when there is none. |
| Scheduler.TaskTable.AddTask | kernel/proc.c:40-44 | One more task, the current one unchanged. |
| Scheduler.TaskTable.FindNext | kernel/proc.c:101-113 | The circular scan stops where the search of the rule stops. |
| Scheduler.TaskTable.ResetAll | kernel/proc.c:123-127 | Every quota becomes the priority. |
| Scheduler.TaskTable.Schedule | kernel/proc.c:89-129 | One call is one step of the rule, and terminates whenever some task has quota or a positive priority, recursing at most once. |
| SchedulerSpec.FoundIsFirst | kernel/proc.c:101-113 | The pick is the first task with quota in circular order after the current one, if any has quota. |
| SchedulerSpec.StepOrReset | kernel/proc.c:114-128 | Without quota the next step is that of the recharged table, one level down; without a positive priority recharging never helps. |
| SchedulerSpec.StepKeeps | kernel/proc.c:89-129 | Priorities never change, so the scheduler stays able to pick. |
| SchedulerSpec.Conservation | kernel/proc.c:114-128 | Each call takes exactly one unit off the total quota, which starts over at the sum of the priorities when used up. |
| SchedulerSpec.StepBounded | kernel/proc.c:114-128 | Quotas stay between 0 and the priority. |
| SchedulerSpec.Closer | kernel/proc.c:101-113 | A call that does not pick a task with quota brings it nearer and leaves its quota. |
| SchedulerSpec.PickedInTurn | kernel/proc.c:101-113 | A task with quota is picked within its circular distance, at most 64 calls. |
| SchedulerSpec.EpochCounts | kernel/proc.c:89-129 | Within an epoch the picks of a task and its remaining quota add up to its starting quota. |
| SchedulerSpec.EpochIsFair | kernel/proc.c:89-129 | In a whole epoch every task runs exactly as often as its quota. |
| SchedulerSpec.NoStarvation | kernel/proc.c:89-129 | A task with positive priority is picked within the remaining quota plus 64 calls. |
| SchedulerSpec.NoStarvationBound | kernel/proc.c:89-129 | With quotas within the priorities, that is within the sum of the priorities plus 64 calls. |
| RingQueue.Queue.constructor | include/io.h:19-22 | An empty queue. |
| RingQueue.Queue.Enq | include/io.h:24-31 | The value is behind the others, although the tail wraps only before the store. |
| RingQueue.Queue.Deq | include/io.h:33-40 | The oldest value comes out, although the head wraps after the load; the store stays, so the queue can be brought back. |
| RingQueue.Queue.Restore | kernel/io.c:145-146 | Saved head and count bring back exactly the earlier content. |
| Keyboard.BatchSplit | kernel/io.c:134-176 | Cooking codes cut anywhere, with what waited put before the rest, comes to cooking them at once. |
| Keyboard.IncrementalIsBatch | kernel/io.c:22-52 | Cooking one code at a time gives the flags, characters and waiting codes of cooking the whole sequence. |
| Keyboard.DrainIsBatch | kernel/io.c:134-176 | The queue loop is batch cooking as long as both queues together fit one. |
| Keyboard.Tty.constructor | kernel/io.c:54-58 | The keyboard starts idle. |
| Keyboard.Tty.Cook | kernel/io.c:74-132 | A code that stands alone sets flags or gives at most one printable character; 0xe0 asks for one more code, which is swallowed. |
| Keyboard.Tty.HandOver | kernel/io.c:161-175 | The characters go over if they all fit; otherwise the codes are back exactly as they were. |
| Keyboard.Tty.TtyCook | kernel/io.c:134-176 | Both queues and the flags end as the queue loop on values says, whatever they held. |
| Keyboard.Tty.TakeOut | kernel/io.c:30-48 | Every character is taken out in order and scrolls as its letter says. |
| Keyboard.Tty.OnInterrupt | kernel/io.c:22-52 | Between interrupts nothing waits but perhaps a lone 0xe0, so the panic on a full buffer is out of reach; flags, characters and waiting codes are those of batch cooking. |
| Keyboard.Tty.Type | kernel/io.c:22-52 | Any run of interrupts comes to cooking all its codes at once. |
| Numbers.NumberRoundTrip | lib/printf.c:94-219 | For every 32-bit value, INT_MIN included, writing it in decimal and reading it back gives the value. |
| Numbers.BitsRoundTrip | lib/printf.c:177-219 | In bases 8 and 16 the digits evaluate to the value modulo 2^32 and have no leading zero. |
| Numbers.ValueOfDigits | lib/printf.c:199-204 | Digits evaluate to their number in every base. |
| Numbers.DigitsShape | lib/printf.c:199-204 | Digits only, no leading zero, no sign and no terminator among them. |
| Numbers.WrapStep | lib/printf.c:112-116 | Wrapping at every step of `atoi` and wrapping once at the end agree. |
| Numbers.ParseInt | lib/printf.c:94-119 | The loops of `atoi` compute spaces, sign and digits modulo 2^32, sparing INT_MIN the negation. |
| Numbers.WriteDigits | lib/printf.c:195-205 | The loop writes the digits in reverse and nothing else. |
| Numbers.ReverseRange | lib/printf.c:208-216 | The loop reverses the range in place and nothing else. |
| Numbers.ItoaInto | lib/printf.c:177-219 | The buffer holds the number and a terminator; everything outside stays. |
| Numbers.IntMinDigits | lib/printf.c:179-188 | The literal for INT_MIN is its decimal form. |
| Numbers.Strcpy | lib/printf.c:186-186 | The string and a terminator lie in the buffer; everything outside stays. |
| Format.ShiftPad | lib/printf.c:222-249 | With a positive shift the piece moves, the padding fills the gap and everything outside stays. |
| Format.ShiftPadBack | lib/printf.c:236-247 | With a negative shift the padding starts behind the end and runs round the whole memory: only the characters just behind the end are left. |
| Format.ItoafLength | lib/printf.c:252-307 | The length is max(width, prefix + sign + max(precision, digits)). |
| Format.ItoafInto | lib/printf.c:252-307 | The buffer holds the conversion; a terminator is behind it if and only if the precision does not pad or the width does, and otherwise the old character stays there. |
| Format.LosesEndHappens | lib/printf.c:280-284 | A concrete conversion without a terminator: `%.3d` of 5. |
| Format.PadPrecision | lib/printf.c:280-285 | Zeros go between sign and digits up to the precision. |
| Format.PadWidth | lib/printf.c:287-304 | Padding goes behind, before, or between head and digits, as flag and precision say. |
| Printf.Compose | lib/printf.c:371-468 | A format that ends outside a conversion and uses up its arguments, followed by another, writes both outputs in a row and ends as the second one ends. |
| Printf.RunApp | lib/printf.c:384-463 | The first format is read to its end before the second begins. |
| Printf.RunFrame | lib/printf.c:384-463 | Earlier output and arguments that are not reached do not matter. |
| Printf.RunClean | lib/printf.c:448-452 | Outside a conversion nothing of an earlier one is left. |
| Printf.StepApp | lib/printf.c:384-463 | One turn does not look past the end of its conversion. |
| Printf.PrintInto | lib/printf.c:310-351 | Each specifier writes what the machine says and takes its argument. |
| Printf.ReadNumber | lib/printf.c:412-425 | Width and precision are read as the machine says, from an argument or from digits. |
| Printf.EscapedInto | lib/printf.c:390-459 | One turn inside a conversion is one turn of the machine. |
| Printf.VsprintfInto | lib/printf.c:371-468 | The buffer holds the output of the machine and a terminator; the result is its length, or -1 exactly for a bad format. |
| Lists.ListHead.constructor | include/list.h:30-32 | A head alone is a circle. |
| Lists.ListAddBetween | include/list.h:34-42 | The node is in the circle between its two neighbours, in both directions. |
| Lists.ListAdd | include/list.h:44-47 | The node comes first. |
| Lists.ListAddTail | include/list.h:49-52 | The node comes last. |
| Lists.ListDel | include/list.h:54-65 | The circle closes without the node, in both directions; the order of the others stays. |
| Lists.ListEmpty | include/list.h:67-70 | True exactly for a list without nodes. |
| Lists.ListForEach | include/list.h:75-77 | Visits every node once, in order, and ends. |
| Lists.HListAddHead | include/list.h:119-127 | The node comes first and every pprev is the place that leads to its node. |
| Lists.HListDel | include/list.h:110-117 | The list closes without the node, be it the first or not. |

## Left out

- Dentries, path walking, `sys_open`, `sys_close`, `sys_lseek`, `sys_link`, and the path lookup of `sys_truncate`: reference counts of dentries keep no invariant in the code.
- Indirect zones: the code panics above zone 6.
- The stale 24 bytes of pointers and counters in a stored inode: any bytes may stand there.
- `ll_rw_block`, request slots and the disk driver: a block is read or written at once.
- FileSystem.Fs.Truncate: takes the inode that the path lookup would find; lengths below -2046, for which `_reserve_zone` asserts, are left out.
- FileSystem.Fs.CreateInode: the branch for a failed object allocation is left out; the allocator panics instead of failing. The case of no free number is `FileSystem.Fs.CreateBeyond`.
- FileSystem.Fs.Write: a write of no bytes, which the callers never make, and transfers that panic are left out; `Outcomes` describes those.
- FileSystem.Fs.Init: takes it that a disk with the magic number holds a file system with the layout of `mkfs`, as the code does.
- SysCalls.SysRead: asks that the call returns, which `SysCalls.SysReadEndsIff` makes exact.
- SysCalls.SysWrite: asks that `_write` does not panic.
- Buffers.BufferHead.constructor: takes the counters and the mark of a head as zero, which `buffer_init` leaves to the memory it gets.
- Directory.FindDirEntry: asks for names shorter than 24 characters and padded with zero bytes, as `create_dentry` makes them.
- Undo.TemporaryFile: one write of at most a block, which is all `_write` can add to an empty file.
- Buffer bytes and inode zones are sequences held in fields that are reassigned, not arrays; no two buffers share bytes.
- The list of loaded inodes is a sequence only.
- SlabLists.SlabHeads.MoveAfterAlloc: gets its list and place in it as ghosts, which the code does not need.
- Slabs.SlabMem.KmemCacheCreatex: the fields of a cache are those of a Dafny object beside the object of `cache_cache` that holds them; names, object constructors and the chain of all caches are left out.
- Slabs.SlabMem.Kmalloc: sizes above 128 or of 0 panic.
- Printf.PrintInto: the specifier `n`, which writes through an argument, and conversions that lose their end are left out.
- Printf.VsprintfInto: formats that read arguments that are missing or of the wrong kind, that lose the end of a conversion, or that write through `n` are left out; floating-point specifiers and `u` panic in the code.
- `atoi` and `strlen` of a null pointer; `vfprintf`, `printf` and the console.
- `do_wp_page` past its first branch: it ends in an endless loop.
- `hlist_add_before` and `hlist_add_after`, and the key tables of the keyboard, which are any functions here.
- Keyboard.Tty.TakeOut: `scroll_screen` is recorded as a list of its arguments.
- Boot, interrupt entry, descriptors, stack switching, statistics and diagnostic output.
