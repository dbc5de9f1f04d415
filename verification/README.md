# A verified model of MonoOS

MonoOS is a small kernel for the i386 with a file system, a memory stack, a process table and a C library.
This project models the parts of it that carry state through many calls, and proves what they keep.

- **DoriFS and the virtual file system.** The disk is a sequence of 4096-byte blocks; the superblock, the inode
  table, the bitmap, the pointers and the directory entries lie in it byte by byte. The mounted state is the class
  `FileSystem`. Its invariant `Valid` says that the bitmap, its copy on the disk, the counters and the pointers of
  all inodes agree, that every block in use has exactly one owner, and that every entry is the one entry of its
  inode. Every operation is proved against the abstract tree `TreeOf` of files (bytes), directories (entries) and
  links (targets). `VfsPath` and `Vfs` put path resolution and descriptors on top, and `VfsClients` has
  what programs do with them.
- **Memory.** The frame bitmap (`Pmm`), the two-level page tables that lie in the frames it gives out (`PageTables`,
  `Vmm`), and the loader that fills pages through them (`Elf`).
- **Allocators.** The kernel heap and the C library's heap keep a list of headers inside the memory they hand out.
  Memory is an array of words; `BlockList` holds what the two share.
- **Processes.** `ProcessTable` is the process table as a transition system, `Scheduling` has the theorems over
  all its runs, and `ProcessManager` is the in-place program that refines it.
- **Three algorithms.** `Stdio` (snprintf), `NixEnv` (the profile manifest) and `Framebuffer` (the line loop).

C strings are sequences without their NUL; where a NUL lies in a buffer, the buffer has it.

Code that changes state in place is a class or a method on arrays, proved against functions and predicates on
values; the lemmas beside them say what those functions mean.

## Where code and comments differ

The model follows the code.

- `include/dorifs.h:10-18` speaks of 512-byte sectors and of files up to 71,680 bytes; blocks have 4096 bytes, and
  a file has up to 1036 of them.
- The superblock announces 1024 inodes, but the table holds the records of 946 (`InodeInTable`); with those used up
  alloc_inode goes on behind it, in the bitmap and the data region (`AllocInode`, `BeyondTable`).
- The bitmap is as long as the data region needs in all sizes but those that `CoversExactly` names.
- `set_block` can fail, and write ignores it; `LeakExactly` says when that loses a block, and `LostWriteDone` what
  is left.
- Unlink takes out a directory with its entries: `OrphansExactly` says when that leaves inodes that no entry names.
- Truncate raises the size of a file without giving it blocks (`Grown`).
- Create and symlink do not look whether the name is there already; `AddDirent` says what then happens, and
  `TwiceExactly` when open runs into it.
- The comment at `kernel/vfs.c:82` says that symlinks are resolved one level deep; the code recurses.
- `lib/string.c:66-71`: strncpy stores one byte more than its limit when the source is shorter.
- `kernel/process.c:41-46` uses a pid as a slot number; `YieldExactly` says when a call brings a process nearer to its
  turn, `BoundedWaiting` needs pids that name slots, and `Starvation` gives a run from the start without.
- `libc/stdio.c:42`: with size 0 the limit wraps, and snprintf writes beyond the buffer (`StaysInsideExactly`).
- `userland/nix-env.c:70-100` reads 4095 bytes of a manifest; `ReadBack` says which profiles survive that.

## Verifying

`dafny verify dfyconfig.toml` with Dafny 4.11.

## Model

| member | source | states |
|---|---|---|
| Bits.SetBitBits | kernel/pmm.c:12-14 | setting bit k of a word sets that bit and changes no other; with ClearBitBits this determines the bitmap arithmetic of both bitmaps |
| Bits.ClearBitBits | kernel/pmm.c:17-19 | clearing bit k of a word clears that bit and changes no other |
| Bits.AllOnes | kernel/pmm.c:28-30 | a 32-bit word is skipped by the free search (all ones) exactly when each of its bits is set |
| Bits.BitAt | kernel/pmm.c:22-24 | bit k of a word is the lowest bit of what division by 2^k leaves |
| DorifsRecords.SuperblockRoundTrip | include/dorifs.h:39-53 | a superblock stored in a block and read back is the same |
| DorifsRecords.InodeRoundTrip | include/dorifs.h:56-67 | an inode record of 344 bytes stored and read back is the same, in all its fields |
| DorifsRecords.DirentRoundTrip | include/dorifs.h:70-75 | a directory entry of 262 bytes stored and read back is the same |
| DorifsRecords.InodeUpdate | kernel/dorifs.c:42-54 | storing one of the 11 inodes of a table block changes that inode and no other inode of the volume |
| DorifsRecords.InodeInTable | kernel/dorifs.c:28-33 | an inode number has its record inside the 86 table blocks exactly when it is below 946, although the superblock promises 1024 |
| DorifsRecords.DirentFits | kernel/dorifs.c:364-388 | the first 15 slots of a directory lie whole inside its first block, and slot 15 is the first that does not |
| DorifsRecords.MadeName | kernel/dorifs.c:356-361 | a name of up to 255 bytes put into an entry is read back as it was, whatever strncpy of the kernel leaves behind it |
| DorifsRecords.MatchesExactly | kernel/dorifs.c:320-321 | the name test (strncmp over name_len, then the NUL) accepts exactly the stored name |
| DorifsTree.SpliceAt | kernel/dorifs.c:224-263 | the result of a write byte by byte: the buffer in its range, the old bytes elsewhere |
| DorifsTree.SpliceSplit | kernel/dorifs.c:231-253 | writing a buffer in two parts is writing it whole, which is why the block loop may cut it anywhere |
| DorifsTree.FindIsLookup | kernel/dorifs.c:302-329 | the scan over the slots finds a name exactly when the map of live names has it, and finds the inode of the map |
| DorifsTree.NameMapAdd | kernel/dorifs.c:384-389 | appending an entry is updating the map and appending to the listing |
| DorifsTree.Tombstone | kernel/dorifs.c:431-433 | zeroing the inode of the slot of a name deletes that name from the map and from the listing, and keeps the order of the rest |
| DorifsTree.StepRefines | kernel/dorifs.c:331-442 | one create or unlink on the slots is one update or deletion on the map, and on the listing in creation order |
| DorifsTree.RunRefines | kernel/dorifs.c:331-442 | after any sequence of creates and unlinks the slots of one directory stand for the map and for the listing that the same sequence makes |
| DorifsRuns.SoundTree | kernel/dorifs.c:331-442 | in the tree of every consistent volume entries lead to objects, no inode has two entries, and no directory has a name twice |
| DorifsRuns.EntriesStep | kernel/dorifs.c:331-442 | create, symlink, unlink and write act on each directory that stays in the tree as one append, one tombstone, or not at all |
| DorifsRuns.StepSound | kernel/dorifs.c:331-442 | every such operation keeps the tree in order |
| DorifsRuns.DirectoryRefines | kernel/dorifs.c:331-442 | over any run of operations on the whole tree, a directory is the map from names to inodes, and its listing the list in creation order, that its own creates and unlinks make |
| DorifsRuns.OrphansStep | kernel/dorifs.c:411-436 | an operation keeps every inode in use named by an entry exactly when it does not unlink a directory that has live entries |
| DorifsRuns.OrphanForever | kernel/dorifs.c:411-436 | an inode that no entry names stays in use and unnamed through every run |
| DorifsRuns.OrphansExactly | kernel/dorifs.c:331-442 | after any run every inode in use is named exactly when the run unlinked no directory that had live entries |
| DorifsRuns.FreshTree | kernel/dorifs.c:655-664 | the tree of a fresh volume is in order and has no unnamed inode, so that the theorems on runs hold from format on |
| DorifsRuns.OrphanInstance | kernel/dorifs.c:411-436 | mkdir a, create a/b and unlink a leave b in use without an entry |
| DorifsRuns.EnterKeeps | kernel/dorifs.c:331-392 | what create and symlink do to the tree is such an operation, and keeps every inode named |
| DorifsRuns.LeaveKeeps | kernel/dorifs.c:394-442 | so is what unlink does, with the exact condition |
| DorifsView.Attach | kernel/dorifs.c:153-178 | making an empty pointer refer to a block nobody owns keeps every block with exactly one owner |
| DorifsView.Detach | kernel/dorifs.c:153-178 | zeroing a pointer takes exactly its block out of the owned ones |
| DorifsView.TakeBit | kernel/dorifs.c:97-99 | setting a clear bit adds exactly that block to the blocks in use and lowers the number of clear bits by one |
| DorifsView.DropBit | kernel/dorifs.c:119-124 | clearing a bit removes exactly that block, and raises the number of clear bits exactly when it was set |
| DorifsView.NoneFree | kernel/dorifs.c:90-92 | free_blocks is 0 exactly when every block of the data region is in use |
| DorifsView.CachedUpdate | kernel/dorifs.c:101-107 | after one bitmap byte is written back the bitmap in memory and on the disk agree again |
| DorifsView.IndirectFresh | kernel/dorifs.c:163-170 | an indirect block fresh and zeroed changes no pointer of the file |
| DorifsView.LeakExactly | kernel/dorifs.c:237-241 | a write loses a block for good exactly when it has a free block but goes beyond block 1035, or spends the last free block on data that still needs the indirect block; the condition is on block counts before the call |
| DorifsView.LeakWhere | kernel/dorifs.c:231-253 | which block is the first one lost, and where the loop ends behind it: at the end of space beyond block 1035, at once when the table was not to be had |
| DorifsView.LeakInstance | kernel/dorifs.c:237-241 | a file of 12 blocks that grows by one with one block free loses it |
| DorifsView.FullExactly | kernel/dorifs.c:224-263 | a write stores everything exactly when the file stays within its pointers and the blocks it needs, the indirect one included, are free |
| DorifsView.ShortExactly | kernel/dorifs.c:237-239 | a write that stops early stops in front of the block at which the free blocks were used up exactly |
| DorifsFrames.OwnedUnique | kernel/dorifs.c:153-178 | the blocks in use are determined by the inodes alone |
| DorifsFrames.BitsUnique | kernel/dorifs.c:90-133 | the blocks in use are determined by the bitmap alone |
| DorifsFrames.LostForever | kernel/dorifs.c:240-241 | a block marked in use that no pointer refers to leaves a volume that no account of owners makes consistent |
| DorifsFrames.Extend | kernel/dorifs.c:153-178 | after taking a block and setting pointer k, direct or indirect, the ownership account grows by that block and a new indirect block, and all other pointers and their blocks are as they were |
| DorifsFrames.Shrink | kernel/dorifs.c:473-480 | after freeing the block of pointer k and zeroing it, the account loses exactly that block |
| DorifsFrames.StoreChunk | kernel/dorifs.c:247-252 | copying a chunk into one block of a file changes the bytes of the chunk and no others of the file |
| DorifsFrames.Commit | kernel/dorifs.c:42-54 | writing the record of the inode at work puts its pointers on the disk and leaves the blocks of every other inode with their contents |
| DorifsFrames.LostWriteDone | kernel/dorifs.c:255-263 | after a write that lost blocks no block has two owners, every other object, the directories and the counts are in order, and the file has its bytes up to the first lost block and none that can be read behind it |
| DorifsFrames.WriteDone | kernel/dorifs.c:255-262 | after a write that lost nothing the volume is consistent, and the tree is the old one with the bytes written over the file |
| DorifsFrames.Grown | kernel/dorifs.c:483-485 | a file given a larger size without blocks is in order exactly when the blocks it has suffice, and no account makes it so otherwise |
| DorifsFrames.FinishFile | kernel/dorifs.c:255-262 | after an operation on a file the volume is consistent, and the tree is the old one with that file changed |
| DorifsDirs.SlotFacts | kernel/dorifs.c:310-323 | the record at byte 262 * k of the directory block is entry k, and the name test on it is the test of entry k |
| DorifsDirs.DirOkAppend | kernel/dorifs.c:384-389 | a directory with a new name appended keeps distinct names and one entry for each inode |
| DorifsDirs.AppendDone | kernel/dorifs.c:349-391 | after the entry is stored and the directory record written the tree has the entry, and the volume is consistent exactly when the directory did not have the name |
| DorifsDirs.DirentDone | kernel/dorifs.c:363-391 | from the block prepared for the directory, with the entry stored in it and the record written, the tree has the entry, and the volume is consistent exactly when the name is new |
| DorifsDirs.FreeRecords | kernel/dorifs.c:61-68 | inside the table a record reads as free exactly when its inode is not in the tree |
| DorifsDirs.BeyondTable | kernel/dorifs.c:61-73 | a record taken behind the table leaves a disk that no account makes consistent |
| DorifsDirs.OnlyEntry | kernel/dorifs.c:431-433 | since each inode has one entry, the tombstone leaves none that refers to the inode |
| DorifsDirs.ReleaseNode | kernel/dorifs.c:413-429 | an inode without an entry goes with all its blocks and nothing else |
| DorifsDirs.UnlinkDone | kernel/dorifs.c:394-442 | blocks freed first and entry cut last give the same disk as the other order, and a consistent one |
| DorifsDirs.NewKinds | kernel/dorifs.c:339-345 | what create makes: a directory if 2 is among the type flags, else a link if 4 is, else a file |
| DorifsDirs.TreeClosed | kernel/dorifs.c:331-442 | every entry of a consistent volume names an inode in use, and none names the root |
| Dorifs.FileSystem.AllocInode | kernel/dorifs.c:57-77 | gives the lowest inode of all 1023 whose record reads as free, cleared and with one link, and counts it; 0, with nothing changed, exactly when none does; when no inode of the tree is free it returns 0 or leaves a disk that no account makes consistent |
| Dorifs.FileSystem.FreeInode | kernel/dorifs.c:80-86 | clears the record and counts the inode as free |
| Dorifs.FileSystem.FlushBitmapByte | kernel/dorifs.c:101-107 | the bitmap block on the disk follows the one in memory, and only bitmap blocks change |
| Dorifs.FileSystem.AllocBlock | kernel/dorifs.c:90-115 | gives the lowest block of the data region not in use, 0 exactly when none is free, and keeps bitmap, its copy on the disk and the count in agreement |
| Dorifs.FileSystem.FreeBlock | kernel/dorifs.c:117-133 | ignores blocks below the data region, and else keeps bitmap, copy and count in agreement exactly when the block was in use |
| Dorifs.FileSystem.GetBlock | kernel/dorifs.c:136-150 | the block behind a file block, through the direct pointers or the indirect table; 0 beyond 1036 blocks |
| Dorifs.FileSystem.StoreIndirect | kernel/dorifs.c:172-175 | one entry of the indirect table changes, no other pointer and no other block |
| Dorifs.FileSystem.SetBlock | kernel/dorifs.c:153-178 | sets pointer fb and no other, takes and zeroes an indirect block when it is needed, and fails, leaving all as it was, exactly beyond 1036 blocks or when there is none to take |
| Dorifs.FileSystem.ReadChunk | kernel/dorifs.c:203-219 | the bytes of the file from a position to the end of its block or the wanted length; none exactly at a missing block |
| Dorifs.FileSystem.Read | kernel/dorifs.c:195-222 | fills the buffer with the file bytes from the offset, as many as there are, and touches nothing behind them; the case where offset + size wraps at 32 bits is given exactly |
| Dorifs.FileSystem.PrepareBlock | kernel/dorifs.c:232-245 | brings in the block of a file or takes a fresh one; says exactly when the ignored failure of set_block loses the fresh block |
| Dorifs.FileSystem.WriteChunk | kernel/dorifs.c:232-252 | stores the part of the buffer that falls into one block |
| Dorifs.FileSystem.WriteBlocks | kernel/dorifs.c:231-253 | the block loop follows the plan computed from the block counts before the call, and what it stored is the buffer up to where it got |
| Dorifs.FileSystem.Write | kernel/dorifs.c:224-263 | the tree afterwards is the old one with the file bytes [offset, offset + n) replaced and extended, every other file, directory and link unchanged; n is exact; the volume stays consistent exactly when no block is lost, which is decided by the block counts before the call; when one is lost n is still exact and LostWrite says what is left |
| Dorifs.FileSystem.FreeBlocks | kernel/dorifs.c:473-480 | gives back the blocks of the file from the first one no longer needed |
| Dorifs.FileSystem.Truncate | kernel/dorifs.c:464-488 | cuts one file to a prefix, gives back exactly the blocks beyond it, and changes nothing else; with a larger size the volume stays consistent exactly when the file needs no further block |
| Dorifs.FileSystem.MakeNode | kernel/dorifs.c:575-594 | a fresh node with the size and type of the inode record |
| Dorifs.FileSystem.Finddir | kernel/dorifs.c:302-329 | finds exactly the live inode of the name, nothing when there is none or the node is no directory |
| Dorifs.FileSystem.Readdir | kernel/dorifs.c:265-300 | index i gives the i-th live entry in creation order, and fails exactly when there are no more than i |
| Dorifs.FileSystem.AddDirent | kernel/dorifs.c:349-391 | appends the entry, or gives the inode back, which happens exactly when the directory has had no entry and no block is free; the volume stays consistent exactly when the name is new or nothing is appended |
| Dorifs.FileSystem.StoreDirent | kernel/dorifs.c:384-389 | stores the entry and then the record of the directory; the tree has the entry, and the volume is consistent exactly when the name is new |
| Dorifs.FileSystem.FreeOrphan | kernel/dorifs.c:373-376 | an inode that no entry refers to and that has no data is taken out of the tree |
| Dorifs.FileSystem.NewInode | kernel/dorifs.c:331-347 | puts an empty object under the lowest free inode number |
| Dorifs.FileSystem.Create | kernel/dorifs.c:331-392 | adds an empty file, directory or link under the lowest free inode, and the tree is otherwise unchanged; fails, changing nothing, exactly when there is no block for the first entry; the code does not look for the name, and the volume stays consistent exactly when it is new; every inode stays named |
| Dorifs.FileSystem.Symlink | kernel/dorifs.c:490-544 | adds a link with its target cut to 255 bytes, with the same exact failure and the same exact condition on the name |
| Dorifs.FileSystem.Readlink | kernel/dorifs.c:546-555 | copies the target, cut to the buffer, and fails exactly for what is no link |
| Dorifs.FileSystem.FreeAll | kernel/dorifs.c:418-427 | gives back all direct, indirect and table blocks of an inode and no others |
| Dorifs.FileSystem.RemoveSlot | kernel/dorifs.c:411-436 | the entry becomes a tombstone, its inode and blocks are free, and the rest of the tree is as it was |
| Dorifs.FileSystem.Unlink | kernel/dorifs.c:394-442 | removes exactly the named entry and its object; succeeds exactly when the name is live, and else changes nothing; every inode stays named exactly when the object had no live entries |
| DorifsVolume.Unmount | kernel/dorifs.c:739-753 | the disk then holds the superblock, the bitmap and the tree of the mounted state |
| DorifsVolume.Mount | kernel/dorifs.c:680-737 | fails exactly on a wrong magic number, a bitmap of length 0 or a superblock without an inode for the root; what it mounts is consistent, with the tree of the disk and its root, exactly when the disk was |
| DorifsVolume.LoadedBitmap | kernel/dorifs.c:716-719 | the bitmap loaded block by block is the bitmap on the disk |
| DorifsVolume.Remount | kernel/dorifs.c:680-753 | unmount followed by mount restores superblock, bitmap, tree and all file contents, and fails exactly when the bitmap is empty |
| DorifsVolume.CoversExactly | kernel/dorifs.c:606-608 | with D blocks behind the inode table the bitmap has a bit for every data block exactly when not D / 32768 < D % 32768 < 8 |
| DorifsVolume.CoversInstance | kernel/dorifs.c:606-608 | format gives 5 blocks no bitmap, and 32773 one that is too short |
| DorifsVolume.Format | kernel/dorifs.c:598-678 | makes a volume with an empty root and counts that agree with the bitmap exactly when the bitmap covers the data region; else no account makes it one |
| DorifsInstances.OneFile | kernel/dorifs.c:598-737 | format, mount and create of one file on 96 blocks give a consistent volume with that file as inode 2 |
| DorifsInstances.GrownInstance | kernel/dorifs.c:483-485 | that file, which is empty, is given the size 1: no account makes the volume consistent |
| DorifsInstances.TwiceInstance | kernel/dorifs.c:331-392 | the name is created again: the directory has it twice, and no account makes the volume consistent |
| DorifsVolume.FormattedInodes | kernel/dorifs.c:633-664 | after formatting inode 1 is an empty directory and all others are free |
| DorifsVolume.FormattedVolume | kernel/dorifs.c:598-678 | superblock, table, bitmap and data lie apart and are consistent |
| DorifsAccounts.BlockAccounts | kernel/dorifs.c:90-178 | in every consistent state the set bits are exactly the blocks that some inode refers to, each by one pointer, and free blocks plus block counts plus indirect blocks are all data blocks |
| DorifsAccounts.InodeAccounts | kernel/dorifs.c:57-86 | in every consistent state free inodes and objects add up to all inodes but number 0 |
| VfsPath.NextComponent | kernel/vfs.c:34-42 | cuts the path into slashes, a component without slashes that ends at the next slash, the end or its 255th byte, and the rest; the component is empty only when nothing is left |
| VfsPath.WalkAppend | kernel/vfs.c:63-95 | walking along p and s is walking along p and then along s from there |
| VfsPath.ResolveComposes | kernel/vfs.c:54-98 | resolving p/c is resolving p and then stepping by c, with whatever symlinks on the way |
| VfsPath.ResolveRoot | kernel/vfs.c:54-62 | the empty path and a single slash lead to the root |
| VfsPath.ResolveName | kernel/vfs.c:63-95 | where front/name leads, by where front leads and by what the directory there holds: nowhere without the name, to the child, and for a symlink to where its target leads from the root; with ResolveRoot this determines resolution |
| VfsPath.SlashesIgnored | kernel/vfs.c:34-36 | any number of slashes in front of a path leads to the same place |
| VfsPath.NeverLink | kernel/vfs.c:77-90 | resolution never ends at a symlink node |
| VfsPath.WalkMonotone | kernel/vfs.c:54-98 | a resolution that ends at some depth of links ends alike at any greater depth allowed |
| VfsPath.AcyclicResolves | kernel/vfs.c:77-90 | when symlinks can be ranked so that each target meets lower ones only, every path is resolved |
| VfsPath.RankedExactly | kernel/vfs.c:77-90 | symlinks can be ranked exactly when resolution of each of them ends |
| VfsPath.SelfLinkInstance | kernel/vfs.c:77-90 | a link to itself is not resolved at any depth, and cannot be ranked |
| VfsPath.ArrivingInstance | kernel/vfs.c:77-90 | with a directory d and a symlink l to /d in the root, the path /l leads to d |
| VfsPath.WalkAdd | kernel/vfs.c:54-98 | paths that led somewhere lead there still after an object was entered |
| VfsPath.CreatedResolves | kernel/vfs.c:236-272 | after an object was entered at a path, resolving the path gives it |
| VfsPath.LinkedResolves | kernel/vfs.c:320-350 | after a symlink was entered at a path, resolving the path gives what its target resolved to before |
| VfsPath.TwiceExactly | kernel/vfs.c:102-114 | open creates what it cannot resolve: the name is then entered a second time exactly when it is a symlink that leads nowhere |
| VfsPath.DanglingInstance | kernel/vfs.c:102-114 | with l a link to x, which is not there, /l is not resolved although the root has the name |
| VfsPath.ResolveSplit | kernel/vfs.c:241-262 | cutting a path at its last slash, resolving the front and entering the rest is resolving the path |
| VfsPath.FindLastSlash | kernel/vfs.c:245-249 | the position of the last slash |
| Vfs.VirtualFs.ResolvePath | kernel/vfs.c:54-98 | returns the node that the path leads to, or null exactly when it leads nowhere, and changes nothing |
| Vfs.VirtualFs.SplitPath | kernel/vfs.c:236-266 | the node of the parent directory and the last component; null exactly when the front is no directory |
| Vfs.VirtualFs.Create | kernel/vfs.c:236-272 | succeeds exactly when the front of the path is a directory with room; adds the object there; the volume stays consistent exactly when the name is new there, and the path then resolves to the object |
| Vfs.VirtualFs.Unlink | kernel/vfs.c:278-308 | succeeds exactly when the path names a live entry, and removes that one |
| Vfs.VirtualFs.Symlink | kernel/vfs.c:320-350 | succeeds exactly when the front of the path is a directory with room, and adds the link there with its target cut to 255 bytes; the volume stays consistent exactly when the name is new there, and the path then resolves to whatever the target resolved to |
| Vfs.VirtualFs.FdAlloc | kernel/vfs.c:26-31 | the lowest unused descriptor, -1 exactly when there is none |
| Vfs.VirtualFs.Follow | kernel/vfs.c:77-90 | the node that the target of the symlink resolves to from the root; null exactly when the target is empty or resolves to nothing |
| Vfs.VirtualFs.FindOrCreate | kernel/vfs.c:102-118 | finds the file, or creates it exactly when it is missing, the flags ask for it and its directory has room |
| Vfs.VirtualFs.OpenNode | kernel/vfs.c:114-133 | gives the node the lowest unused descriptor, with the file emptied exactly when 0x200 is among the flags |
| Vfs.VirtualFs.Open | kernel/vfs.c:102-133 | fails exactly when there is no such file and none can be created, or no descriptor is left; with 0x40 among the flags it creates a missing file, with 0x200 the file is empty afterwards and without it the tree is as found, with 0x400 the offset is the size and else 0; no other descriptor changes |
| Vfs.VirtualFs.Close | kernel/vfs.c:135-150 | frees one descriptor and no other; fails exactly when it is not in use |
| Vfs.VirtualFs.Read | kernel/vfs.c:152-165 | reads from the offset of the descriptor and moves it on by what was read |
| Vfs.VirtualFs.Write | kernel/vfs.c:167-189 | writes at the offset, at the size of the file when 0x400 is among the flags, moves it on by what was stored, and the file in the tree is the old one with the buffer written over it; consistent afterwards exactly when no block is lost |
| VfsClients.ReadTruncated | kernel/vfs.c:121-133 | a read through a descriptor opened with O_TRUNC gives no byte |
| VfsClients.OpenAtEnd | libc/stdio.c:283-284 | opened with the flags of mode w or a, the descriptor stands at the end of the file, which mode w has emptied |
| VfsClients.WriteFile | kernel/kshell.c:394-405 | open, one write and close: with O_TRUNC the file holds what was written and nothing else, with O_APPEND it has that behind what it held; all other objects are as open left them |
| Pmm.FullWord | kernel/pmm.c:28-30 | a bitmap word is skipped exactly when its 32 frames are all in use |
| Pmm.TakenCount | kernel/pmm.c:82-84 | all frames are counted as used exactly when the used set is all frames |
| Pmm.FrameAllocator.constructor | kernel/pmm.c:41-57 | everything is in use at first |
| Pmm.FrameAllocator.FirstFree | kernel/pmm.c:27-39 | the lowest clear frame, -1 exactly when there is none |
| Pmm.FrameAllocator.AllocFrame | kernel/pmm.c:82-96 | gives the lowest free frame, never frame 0 and never one already held; 0 exactly when every frame is in use |
| Pmm.FrameAllocator.FreeFrame | kernel/pmm.c:98-102 | clears the frame; the used count stays the number of set bits exactly when it was in use and is not frame 0 |
| Pmm.FrameAllocator.InitRegion | kernel/pmm.c:59-70 | frees the frames of the region, frame 0 excepted; the count stays right exactly when all were in use and frame 0 is not among them |
| Pmm.FrameAllocator.DeinitRegion | kernel/pmm.c:72-80 | takes the frames of the region; the count stays right exactly when all were free |
| Pmm.RegionBooks | kernel/pmm.c:59-70 | when the used count, decremented with wrap-around once per frame, is the size of the used set |
| PageTables.NewTable | kernel/vmm.c:44-49 | an empty page table in a frame not in use changes no page entry |
| PageTables.SetPte | kernel/vmm.c:51-52 | writing the entry of one page changes the entry of no other page, because tables and directory lie in distinct frames |
| PageTables.DataWrite | kernel/elf.c:123-134 | writing to a frame that is no table changes no translation |
| PageTables.EntryBits | kernel/vmm.c:46-52 | bit by bit, an entry has the flags and PAGE_PRESENT, that of a table PAGE_WRITABLE too, above them the frame |
| Vmm.Machine.MakeTable | kernel/vmm.c:44-49 | a directory entry gets a table in a fresh frame, with the flags bit by bit; all page entries and all frames in use stay |
| Vmm.Machine.MapPage | kernel/vmm.c:39-53 | the entry of the page has the frame of phys, PAGE_PRESENT and each bit of the flags, and no other page entry changes; a new table has PAGE_PRESENT, PAGE_WRITABLE and the flags in its directory entry and takes a frame not in use before, and an old table keeps its directory entry; data frames keep their contents |
| Vmm.Machine.UnmapPage | kernel/vmm.c:55-68 | the entry of one page becomes 0, no other changes, and the directory stays |
| Vmm.Machine.GetPhysical | kernel/vmm.c:70-80 | the frame address the page was last mapped to, 0 when it never was |
| Vmm.MissingAfter | kernel/vmm.c:44-49 | the tables that a run still has to make shrink by the one it makes |
| Vmm.Machine.RunOps | kernel/vmm.c:39-68 | after any sequence of maps and unmaps the page tables agree with the page map that the sequence makes; frames are needed for the missing tables only |
| Vmm.Machine.MapIdentity | kernel/vmm.c:91-96 | maps a range of whole tables to itself and leaves the other pages alone |
| Vmm.Machine.Init | kernel/vmm.c:87-96 | exactly the first 16 MiB and the 4 MiB at 0xfd000000 are mapped, each page to itself, with six frames spent |
| Elf.Validate | kernel/elf.c:10-63 | accepts exactly the 32-bit little-endian i386 executables whose program headers lie in the file, with the sum taken at 32 bits |
| Elf.EhdrLayout | include/elf.h:33-48 | a file header encoded field by field is read back field by field; accepted are exactly the files with bytes 7f 45 4c 46 1 1, type 2, machine 3 and program headers that are there and end inside the file |
| Elf.PhdrLayout | include/elf.h:51-60 | program header i, encoded field by field at e_phoff + i * e_phentsize, is read back field by field |
| Elf.PlanPagesExactly | kernel/elf.c:106-120 | the pages of a segment get their frames exactly when as many are free as there are pages and tables missing; a page goes without when none is left in front of it, and a table is lost exactly when a page takes the last frame and its table is missing |
| Elf.PlanFromExactly | kernel/elf.c:75-134 | all segments get their frames exactly when they lie in the file and as many are free as their pages and the tables missing, each table counted once; and when exactly a table is lost |
| Elf.LosesInstance | kernel/vmm.c:44-49 | with one frame and no table a page takes the frame and the table gets none |
| Elf.PageAdded | kernel/elf.c:113-120 | mapping one more page to a fresh frame leaves the pages mapped before and their bytes |
| Elf.ByteStored | kernel/elf.c:123-134 | a byte stored at a virtual address is seen there and nowhere else among the pages loaded |
| Elf.SegmentDone | kernel/elf.c:122-134 | copying the file bytes and then zeros loads the segment |
| Elf.MapSegment | kernel/elf.c:106-120 | every page of the segment gets a frame of its own, is writable, and is a user page exactly when the segment has PF_R; fails exactly when the frames run out, which PlanPagesExactly gives in closed form |
| Elf.CopyIn | kernel/elf.c:123-127 | the bytes are at their virtual addresses, all other loaded bytes stay |
| Elf.LoadSegment | kernel/elf.c:79-134 | one segment is loaded through the page tables with the access its flags ask for, and the ones before keep their bytes and entries |
| Elf.Load | kernel/elf.c:65-145 | succeeds exactly when the file is valid, its segments lie in it, and as many frames are free as they have pages and tables missing; then entry is the little-endian word of bytes 24 to 27, and each segment of type 1 with p_memsz above 0, translated through the page tables, is its file bytes and zeros up to p_memsz, every page in a frame of its own that was free before, writable, and a user page exactly when PF_R is set (System V ABI, chapter 5, Program Header) |
| BlockList.RoomExactly | kernel/heap.c:57-65 | a free block serves a request exactly when there is a gap between the blocks in use, anywhere in the heap, that holds a header and the request |
| BlockList.Canonical | kernel/heap.c:87-97 | the blocks in use determine the whole list: no history shows |
| BlockList.LiveDisjoint | kernel/heap.c:51-65 | blocks in use do not overlap, lie in the heap, and are whole words |
| BlockList.MarkBlock | kernel/heap.c:61-61 | changing the flag of one header changes the state of that block and nothing else |
| BlockList.JoinPair | kernel/heap.c:90-92 | joining a free block with the free one after it keeps the tiling and every block in use |
| BlockList.Coalesce | kernel/heap.c:87-97 | afterwards no two neighbours are free, the blocks tile the heap, and those in use have kept place, size and contents; libc/stdlib.c:157-165 is the same loop |
| BlockList.FindFree | libc/stdlib.c:98-107 | the first free block that is large enough, none exactly when there is none; kmalloc has the same loop |
| BlockList.Align4Covers | kernel/heap.c:55-55 | rounding a request up loses nothing exactly up to 2^32 - 4; above that it wraps to 0 |
| Heap.SplitHeaders | kernel/heap.c:41-47 | the five assignments of split_block make two headers that fill the block, and touch nothing else |
| Heap.CarveBlock | kernel/heap.c:39-49 | splitting a free block keeps the tiling and every block in use |
| Heap.GrantedMeans | kernel/heap.c:51-65 | a granted payload is word-aligned, holds the request with less than 28 bytes to spare, and lies where nothing was in use |
| Heap.KernelHeap.constructor | kernel/heap.c:20-36 | one free block over the whole heap |
| Heap.KernelHeap.SplitBlock | kernel/heap.c:39-49 | splits when at least a header and 16 bytes are left over, and not else |
| Heap.KernelHeap.Kmalloc | kernel/heap.c:51-70 | returns null exactly when nothing is asked for or no gap fits the aligned request; else the first fit; no word of any block in use changes |
| Heap.KernelHeap.Kfree | kernel/heap.c:99-105 | takes exactly that block out of use and leaves no two free neighbours; no word of the other blocks in use changes |
| Heap.SameUseSameHeap | kernel/heap.c:51-105 | two heaps with the same blocks in use have the same list and the same headers in memory, in whatever order the calls came |
| Heap.FreeUndoesAlloc | kernel/heap.c:51-105 | freeing what was just granted restores the very list of before |
| Heap.AllFreed | kernel/heap.c:99-105 | nothing is in use exactly when the heap is the single initial block |
| LibcHeap.ServedMeans | libc/stdlib.c:131-148 | what malloc returns is aligned, large enough, and lies where nothing was in use |
| LibcHeap.AppendBlock | libc/stdlib.c:110-129 | a block appended at the old break keeps the list in address order and tiling the space from sbrk |
| LibcHeap.Allocator.LastBlock | libc/stdlib.c:121-122 | the walk ends at the last block |
| LibcHeap.Allocator.RequestSpace | libc/stdlib.c:110-129 | appends a block in use at the break; null exactly when sbrk has no space, and then nothing changes |
| LibcHeap.Allocator.Malloc | libc/stdlib.c:131-148 | the first fit when any gap fits, else a new block at the end; null exactly when neither is there; payloads in use keep their contents |
| LibcHeap.Allocator.Free | libc/stdlib.c:150-166 | takes exactly that block out of use; list neighbours that are joined are neighbours in memory |
| LibcHeap.Allocator.CopyPayload | libc/stdlib.c:185-185 | the copy arrives, and headers and list are untouched |
| LibcHeap.Allocator.Realloc | libc/stdlib.c:175-188 | keeps a block that is large enough; else all bytes of the old block arrive in the new one and the old is freed; on failure nothing is freed; all other payloads keep their contents |
| ProcessTable.PickFrom | kernel/process.c:45-50 | the scan finds the ready slot that comes first in cyclic order, none exactly when no slot is ready |
| ProcessTable.StepInv | kernel/process.c:79-248 | every call keeps: distinct pids below next_pid, at most one running process and that the current one, and no sleeper in process_wait whose child has exited |
| ProcessTable.RunInv | kernel/process.c:79-248 | so does every run of calls |
| ProcessTable.ExitingTable | kernel/process.c:139-168 | an exit makes the current process a zombie, its sleeping parent ready, and leaves all other slots alone |
| ProcessTable.ExitWakes | kernel/process.c:139-172 | when an exit is over its process is a zombie with the code, and of the other sleepers exactly its parent is awake |
| ProcessTable.ExitingInv | kernel/process.c:139-168 | an exit wakes the parent if it sleeps for this child |
| ProcessTable.CollectInv | kernel/process.c:242-245 | clearing a zombie away leaves nobody waiting for its slot |
| ProcessTable.BlockExactly | kernel/process.c:215-220 | process_block keeps the invariant exactly when the process has not exited and does not sleep for a child that has |
| Scheduling.OneRunning | kernel/process.c:174-197 | in every run from process_init at most one process runs, it is the current one, and pids are distinct |
| Scheduling.NoLostWakeup | kernel/process.c:229-240 | in every run the child of a process that sleeps in process_wait is in the table and has not exited |
| Scheduling.SleepsUnlessWoken | kernel/process.c:229-240 | in every run a process inside process_wait sleeps, unless the exit of a child of its own or an unblock of its pid woke it in that same wait and it has made no call since |
| Scheduling.HandshakeInstance | kernel/process.c:139-248 | pid 0 creates pid 1 and waits for it: it sleeps; the exit of pid 1 wakes it and gives it the turn, with the code in the slot of pid 1 |
| Scheduling.ExitHappened | kernel/process.c:139-147 | an exit code on record was given by an exit call of that very process earlier in the run |
| Scheduling.WaitReturnsExitCode | kernel/process.c:242-247 | in every run a process_wait that slept and is resumed returns the code its child exited with |
| Scheduling.WaitFindsExitCode | kernel/process.c:229-247 | so does one that finds its child a zombie when it is called |
| Scheduling.CreateKeepsNames | kernel/process.c:79-97 | pids go on naming slots exactly when the next pid names the first free slot, or nothing is created |
| Scheduling.YieldExactly | kernel/process.c:174-197 | a process_yield that runs another process brings a ready one strictly nearer exactly when the slot that the new pid names comes before its own in the scan |
| Scheduling.YieldCloser | kernel/process.c:174-197 | each process_yield brings a ready process strictly nearer in cyclic order, or runs it |
| Scheduling.BoundedWaiting | kernel/process.c:40-59 | while pids name slots, a process that stays ready is run within 63 calls of process_yield, over every run of calls |
| Scheduling.Starvation | kernel/process.c:41-46 | without that a ready process can wait for ever, in a run from process_init: after a create, a create that fails and two more creates, pids 0, 1 and 3 hand the turn round however often process_yield is called, and pid 4 never runs |
| ProcessManager.Manager.constructor | kernel/process.c:63-77 | process 0 runs, and the other slots are free |
| ProcessManager.Manager.FindFreeSlot | kernel/process.c:21-28 | the first free slot |
| ProcessManager.Manager.FindProcess | kernel/process.c:30-37 | the first live slot of the pid, which is the only one |
| ProcessManager.Manager.FindNextReady | kernel/process.c:40-59 | the slot that the scan of the transition system picks, or the current one if it is running and no other is ready |
| ProcessManager.Manager.Yield | kernel/process.c:174-197 | without scheduling, a ready slot or another one than its own nothing changes; else the slot of the scan runs and is current, a running caller is ready, and no other slot changes |
| ProcessManager.Manager.Create | kernel/process.c:79-137 | the first free slot gets the next pid, ready, with the caller as its parent, and no other slot changes; without memory for the stack the slot stays free; -1 exactly then and when there is no slot |
| ProcessManager.Manager.Exit | kernel/process.c:139-172 | pid 0 does not exit; else the caller is a zombie with its code, and of the other sleepers exactly its parent wakes; then the turn passes on |
| ProcessManager.Manager.Resume | kernel/process.c:233-247 | one turn of the wait loop; done exactly when the child is a zombie, and then with its code; else the caller is asleep at the same point |
| ProcessManager.Manager.Wait | kernel/process.c:229-248 | -1 for an unknown pid, at once the code for a zombie, whose slot is free then; else the caller is asleep inside the wait for that child |
| ProcessManager.Manager.Block | kernel/process.c:215-220 | that slot is blocked and no other changes; the invariant holds afterwards exactly when the call was safe |
| ProcessManager.Manager.Unblock | kernel/process.c:222-227 | makes that process ready if it is blocked, changes nothing else, and keeps the invariant |
| Stdio.DigitsRead | libc/stdio.c:58-70 | reading the printed digits back gives the number, and only 0 starts with a 0 |
| Stdio.DigitsShort | libc/stdio.c:58-70 | a 32-bit number has at most 32 digits in any base, so the scratch buffer suffices |
| Stdio.RenderAppend | libc/stdio.c:107-179 | formats compose: the text of f then g is the text of f and that of g with the arguments left over |
| Stdio.RenderUnsigned | libc/stdio.c:137-146 | %u and %x with a width: the text reads as the number in base 10 or 16 without leading zeros, behind padding that is there exactly to fill the width, zeros if the width starts with 0 and else spaces |
| Stdio.RenderSigned | libc/stdio.c:131-136 | %d and %i: the same for words below 2^31, and for larger ones a minus sign and the padded numeral of 2^32 less the word |
| Stdio.RenderPointer | libc/stdio.c:147-152 | %p: 0x and the number in base 16, filled with zeros to eight digits |
| Stdio.RenderChar | libc/stdio.c:165-172 | %c is the lowest byte of its argument, %% a percent sign that takes none |
| Stdio.RenderPadded | libc/stdio.c:153-163 | %s: the string, or (null), and spaces behind it up to the width |
| Stdio.PutChar | libc/stdio.c:41-46 | the buffer holds the text with the character appended, as far as the limit size - 1, which wraps for size 0, goes |
| Stdio.PutDigits | libc/stdio.c:62-70 | the scratch buffer holds the digits backwards |
| Stdio.PutUnsigned | libc/stdio.c:58-84 | padding and digits are appended to the text |
| Stdio.PutSigned | libc/stdio.c:87-98 | sign, padding and digits are appended, the sign before the padding |
| Stdio.PutConversion | libc/stdio.c:130-177 | one conversion is appended to the text and takes its argument |
| Stdio.Snprintf | libc/stdio.c:100-188 | the buffer ends up with the first size - 1 characters of the full text, a NUL, and what it held behind that; with size 0 the limit wraps and nothing is terminated; the result is the length of the full text |
| Stdio.StaysInsideExactly | libc/stdio.c:41-46 | whatever memory holds, the bytes beyond the buffer stay exactly when its size is above 0 or the text is empty |
| Stdio.SizeZeroWrites | libc/stdio.c:41-46 | one character printed to a buffer of size 0 lands in the memory behind |
| NixEnv.LineReadsBack | userland/nix-env.c:45-67 | an entry survives its line exactly when its name has no tab and name and path fit their fields |
| NixEnv.ParsePrinted | userland/nix-env.c:84-97 | parsing printed lines gives the active entries and goes on behind them |
| NixEnv.ReadBack | userland/nix-env.c:70-120 | read_manifest after write_manifest gives the active entries in order exactly when they are at most as many as the array holds and their lines take at most 4096 bytes |
| NixEnv.ReadBackInstance | userland/nix-env.c:70-120 | nine packages with paths of 500 characters are written and not read back |
| NixEnv.LineFormat | userland/nix-env.c:113-114 | the line is what snprintf makes of name and path |
| NixEnv.ParsedStorable | userland/nix-env.c:70-100 | every entry read fits its fields and could be written again |
| NixEnv.PackageOf | userland/nix-env.c:127-139 | of dir/hash-name the package is name, dashes of its own included; without a dash it is what follows the last slash |
| NixEnv.InstallMap | userland/nix-env.c:141-162 | install is an update of the map from names to paths, whatever the list, and distinct names stay distinct |
| NixEnv.RemoveMap | userland/nix-env.c:183-196 | remove succeeds exactly when the name is there, and deletes it from the map exactly when it was there once |
| NixEnv.InstallUpdates | userland/nix-env.c:123-164 | through the file: what is read after an install is the new list exactly when its lines take at most 4096 bytes, and then the old map with the package at its path |
| NixEnv.RemoveFits | userland/nix-env.c:178-198 | what was read from a file and lost an entry takes at most 4096 bytes again |
| NixEnv.RemoveUpdates | userland/nix-env.c:178-198 | through the file: what is read after a removal is the rest, always, and the old map without the package exactly when that was there once |
| NixEnv.ParseManifestLine | userland/nix-env.c:45-67 | splits a line in the buffer as the recursive account does |
| NixEnv.Profile.ReadManifest | userland/nix-env.c:70-100 | fills the array with the entries of the first 4095 bytes, at most 128 |
| NixEnv.Profile.WriteManifest | userland/nix-env.c:103-120 | the file holds exactly the lines of the active entries |
| NixEnv.Profile.CmdInstall | userland/nix-env.c:123-164 | updates the entry or appends one; fails, changing nothing, exactly when the profile is full |
| NixEnv.Profile.CmdRemove | userland/nix-env.c:178-198 | rewrites the file without the entry; fails, changing nothing, exactly when there is none |
| Framebuffer.MinorNearest | drivers/framebuffer.c:370-386 | the point on the minor axis is the nearest integer to the ideal line, halves settled one way |
| Framebuffer.BalancedStep | drivers/framebuffer.c:382-384 | the error term keeps the loop at the rounded quotient without dividing |
| Framebuffer.LineEnds | drivers/framebuffer.c:379-381 | the line starts at the first and ends at the second point |
| Framebuffer.HalfPixel | drivers/framebuffer.c:370-386 | every point lies within half a pixel of the ideal line along the minor axis |
| Framebuffer.ErrorFits | drivers/framebuffer.c:376-384 | the error term stays an int when the two extents together are one |
| Framebuffer.Screen.PutPixel | drivers/framebuffer.c:266-270 | the word at y * pitch + x changes if the point is on the screen, and else none |
| Framebuffer.Screen.DrawLine | drivers/framebuffer.c:370-386 | ends, and paints exactly the words y * pitch + x of those points of the closed formula that are on the screen |

## Left out

- Disk: reads and writes of blocks always succeed, the partition starts at block 0, and nothing crashes between two writes.
- Memory for file system nodes and buffers: kmalloc inside dorifs.c never fails, except that a bitmap of length 0 gives none, as in the code.
- DorifsVolume.Unmount: the pointer to the bitmap becomes null there; the model lets the state go out of use instead.
- Dorifs.FileSystem.Write: only on files, and from offsets within the file, so that no holes arise; what a write does beyond the end is not modelled.
- Dorifs.FileSystem.Truncate: only on files, like Write.
- Dorifs.FileSystem.Read: only on files; on a directory or a link the code would give their bytes.
- Dorifs.FileSystem.NewInode: with a free inode below 946; AllocInode says what becomes of the disk without one.
- Dorifs.FileSystem.AddDirent: for a parent with fewer than 15 slots ever used, like Create.
- Dorifs.FileSystem.Unlink: for a parent that is a directory, as vfs_unlink passes it; the code does not look.
- DorifsVolume.Mount: for a superblock whose table starts at block 1 and whose bitmap lies on the disk.
- DorifsVolume.Format: for at least 87 blocks; with fewer the subtraction of the table wraps.
- Dorifs.FileSystem.Create: for a name of at most 255 bytes, a parent with fewer than 15 slots ever used, and a free inode below 946; the code checks none of these.
- Dorifs.FileSystem.Symlink: with the same preconditions as Create.
- DorifsTree.RunRefines: the operations of the run are allowed ones: a name is absent when it is created. So are those of DorifsRuns.DirectoryRefines.
- Vfs.VirtualFs.Write: with one descriptor for a file, since each descriptor has a node with a size of its own, and from offsets within the file.
- VfsPath.CreatedResolves: for a parent that does not have the name yet, like Create.
- Vfs.VirtualFs.Symlink: with the preconditions of Dorifs.FileSystem.Create when the front of the path is a directory.
- Vfs.VirtualFs.Read: for offsets and sizes whose sum does not wrap at 32 bits.
- Vfs.VirtualFs.ResolvePath: takes a bound on the depth of links, which the code does not have; RankedExactly says when some bound exists.
- Vfs.VirtualFs.Follow: with such a bound on the depth; so are SplitPath, Unlink and FindOrCreate.
- VfsClients.WriteFile: for a path that is a file, or is not there and can be created as Open asks; so is OpenAtEnd.
- VfsClients.ReadTruncated: for such paths.
- VfsPath.LinkedResolves: for a target that led somewhere; what else a new link makes reachable is left to ResolveName.
- Vfs.VirtualFs.OpenNode: not to truncate a directory.
- Vfs.VirtualFs.SplitPath: for a front of the path that resolves within the bound.
- Vfs.VirtualFs.Unlink: for a front of the path that resolves within the bound.
- Vfs.VirtualFs.FindOrCreate: with the preconditions of Open.
- Vfs.VirtualFs.Create: with the preconditions of Dorifs.FileSystem.Create when the front of the path is a directory.
- Vfs.VirtualFs.Open: for paths below 256 bytes, with a last component that is no dangling symlink (TwiceExactly) when the file is to be created, and not to truncate a directory.
- vfs_seek, vfs_stat, vfs_readlink, mounts other than the root, and time stamps.
- Elf.Load: segments share no page, do not wrap at 32 bits, have p_filesz at most p_memsz and headers of at least 32 bytes; page tables are reached by their physical addresses and the source buffer is a value, so no segment may cover either; and no page table fails to get a frame, which vmm_map_page does not notice; LosesFrom says by counting when one would.
- Vmm.Machine.MapPage: flags below 0x1000 and a frame for a table that is needed; TLB, control registers and the page fault handler are not modelled.
- Vmm.Machine.RunOps: with a frame for each table that the run needs, and flags below 0x1000.
- Vmm.Machine.Init: with six free frames; with fewer the code would use frame 0 for tables.
- Vmm.Machine.MakeTable: with a frame free; without one the code would take frame 0 for the table.
- Elf.MapSegment: when each table that is needed gets a frame, like Load.
- Elf.LoadSegment: with the preconditions of Load on its segment.
- Pmm.FrameAllocator.constructor: the number of frames is a multiple of 32.
- Heap.KernelHeap.Kfree: for pointers that kmalloc gave and that were not freed; the code cannot tell others.
- kmalloc_aligned and kmalloc_physical: they pass a rounded size to kmalloc and return what it returns, so the address is not page-aligned.
- LibcHeap.Allocator.Malloc: requests below 2 GiB, since sbrk takes an int; sbrk is ideal and used by malloc alone. calloc is malloc and memset.
- LibcHeap.ServedMeans: for the requests of Malloc.
- LibcHeap.Allocator.Free: for pointers that malloc gave and that were not freed; the code cannot tell others.
- LibcHeap.Allocator.Realloc: for such pointers and the requests of Malloc.
- LibcHeap.Allocator.CopyPayload: memcpy goes word by word.
- ProcessTable.StepInv: only a parent waits for a process, a zombie takes no step, and blocking is safe in the sense of BlockExactly; pids do not wrap. The stack of a process, its registers and the context switch itself are not modelled: a switch hands over the current pid.
- ProcessManager.Manager.Create: for a next pid that does not wrap at 32 bits.
- ProcessManager.Manager.Exit: by a process that has not exited and does not sleep in process_wait.
- ProcessManager.Manager.Wait: by the parent of the process it waits for; the code lets any process wait.
- Stdio.RenderSigned: no INT_MIN, like PutSigned.
- Stdio.PutConversion: with the argument the conversion asks for, and no INT_MIN for %d.
- Stdio.PutSigned: no INT_MIN, whose negation is undefined in C.
- Stdio.Snprintf: formats that do not end inside a conversion, widths that are ints, arguments of the kinds the format asks for, and no INT_MIN for %d. printf and fprintf repeat the loop with a buffer of 512 bytes.
- NixEnv.Profile.WriteManifest: the manifest opens and is written whole; a failing open, which returns -1, is left out.
- NixEnv.Profile.CmdInstall: for a path and a name that fit their fields, into which the code copies without looking; the symlink in the profile directory and the messages are left out.
- NixEnv.InstallUpdates: for a path and name that a line can hold.
- Framebuffer.Screen.DrawLine: on unbounded integers; ErrorFits says when ints do.
- The shell, the drivers, the interrupt stubs, system calls and the rest of the C library.
