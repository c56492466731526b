# Verification of the ESTER OS kernel

A Dafny model of the parts of the kernel that carry state and arithmetic worth trusting: the ext2 driver
(`fs/ext2`), the text console, the PCI enumerator, the page mapper and the kernel's formatted output. The
programs are modelled as classes and methods over arrays and fields, each proved equal to a function on
its state; what the code is for is then proved of these functions, over all inputs and all runs.

`dafny verify dfyconfig.toml` checks the whole project.

## The ext2 driver

The disk is an array of 4096-byte blocks that never fails. On-disk structures are byte images with
little-endian fields at the offsets of "The Second Extended File System: Internal Layout".

- `Bytes`, `Arith`, `Bitmaps`: byte images, products and quotients, bitmaps.
- `Volume`: the geometry that a superblock and a descriptor table describe (`Describes`), when its
  metadata regions are sane (`Sane`), when memory and disk agree (`Mounted`), and the inode table.
- `Alloc`: the two bitmap allocators. `Good` says that all three copies of the free counts equal the
  number of clear bits and that metadata is marked used. `Touches(a, b, D, I)` is the frame relation that
  carries every proof about the disk: from volume `a` to volume `b` nothing changed except the data blocks
  in `D`, the inodes in `I`, and bits that were clear.
- `Paths`, `Records`: the path parser, and the variable-length records that tile a directory block.
- `Slots`, `Namespace`: the array of 128 entries that the path walk fills again for every directory, where a
  shorter name leaves the end of a longer one behind it; listing, lookup, the walk, and adding an entry.
- `Ownership`: `Sound(fs, T)`, the whole-disk invariant. `T` is the set of inodes that directories can
  name: every attached block of an inode in `T` is a data block, marked used, and has no other owner, and
  every listed entry names an inode in `T`.
- `Layout`: every field of the images above, and every reading of a directory block, byte by byte.
- `Files`, `Creation`, `Finding`, `Space`, `Writing`, `Session`, `Calls`, `Keeping`: the open file and its calls as
  functions on a `World`; what every call and every run keeps (`Inv`); what is found after a creation; which
  blocks and inodes it takes; names over runs.
- `Closing`, `Leaks`: each call branch by branch, with its code, the file structure and the volume afterwards, and
  what it takes from the bitmaps.
- `Refinement`: the open file against a machine of a byte sequence, a position, and the window of one block
  that writes go through.
- `Strings`, `Memory`, `Driver`: the C helpers and the driver itself, an object with the superblock, the
  descriptor table, the current inode and the one file structure as fields, whose methods are proved equal
  to the functions above.
- `Formatted`: a concrete volume on which the invariant holds (`FormattedIsSound`) and a first file can be created
  (`FirstCreateSucceeds`), so that the theorems above it are not about nothing.
- `Kernel`: the file exercise that the kernel runs at boot.
- `Examples`, `Leftovers`, `Duplicates`: for each promise of the driver below that fails, an input on a concrete volume.

## The other parts

- `Console`: the 80 by 25 buffer as a window on an unbounded log of cells.
- `ConfigAddress`, `Pci`, `PciTree`: configuration mechanism 1 (PCI Local Bus 3.0, section 3.2.2.3.2), the
  mutually recursive scan against a post-order traversal, and what the traversal lists.
- `PciSpaces`: the registers byte by byte, and two whole configuration spaces.
- `PageBits`, `Paging`, `BootTables`: four-level paging (Intel SDM volume 3A, section 4.5), `pmap` and
  `palloc`, and the tables that the boot code leaves.
- `Printk`: the format interpreter and the decimal conversion, on top of the console.

Many proofs start with a `hide` statement. It removes function definitions that the proof does not need.

## Where the code and its purpose differ

The model follows the code. Where a promise fails there is a condition that says exactly when it holds, and an
input at which it fails.

- The path walk lists every directory into one array and copies names without their end, so from the second
  directory on a name may be read with the end of a longer one behind it. A new file can then be missed under
  its own path and found under another one (`Slots.SlotReadsIff`, `Slots.LeftoverIff`, `Namespace.FollowsIff`,
  `Finding.CreateThenFindShallow`; input: `Leftovers.DocsExample`). Opening it again then creates it a second time
  (`Keeping.CreateExisting`, `Duplicates.CreatedTwice`; input: `Duplicates.DocsTwice`).
- A component that names the directory it is looked up in stops the walk (`Namespace.WalkExactly`,
  `Namespace.HarmlessIff`; input: `Examples.DotStops`).
- Opening a file zeroes the buffer instead of loading block 0, so the first read delivers zeros and the first
  write clears the rest of the block (`Calls.OpenedReads`, `Calls.OpenedWrites`, `Refinement.WriteOverwritesIff`;
  input: `Examples.ReadsZero`).
- The size is computed from the position within the block (`Refinement.SizeExactly`; input: `Examples.SizeOne`);
  a seek that attaches a block sets it to the offset in the block (`Refinement.SeekAppends`; input:
  `Examples.SizeLost`).
- A seek attaches one block wherever it goes (`Session.SeekReaches`; input: `Examples.SeekTooFar`).
- A straddling write clears the rest of its second block (`Refinement.WriteOverwritesIff`; input:
  `Examples.TailLost`).
- Shrinking the last directory record to its offset plus the new size, instead of to its own size, damages
  it exactly when that is too short (`Records.InsertTiled`, `Records.InsertLists`; input:
  `Examples.LongNameDamaged`), and more than doubles the last offset each time, so that a block is full after
  eight names (`Records.InsertMovesLast`, `Records.TakesFew`, `Records.TakesMany`).
- The parent of a new file is looked up under a path without separators (`Creation.DeepParent`; input:
  `Examples.DeepCreate`).
- A failing creation, write or seek may lose what it has taken from the bitmaps (`Leaks.CreateTakes`,
  `Leaks.WriteTakes`, `Leaks.SeekTakes`).
- A newline at the start of a row does nothing (`Console.NewlineIdempotent`).
- The block allocator scans as many bits as a group has inodes; the volume is assumed to have at most as
  many inodes as blocks in a group, and "no free block" is stated for the scanned bits.
- `pmap` neither splits large pages (`Paging.PresentIff`, `Paging.LargePageStays`, `BootTables.BootMapsIff`; inputs:
  `BootTables.LoaderMisses`, `BootTables.TopOverwritten`) nor marks the tables it takes
  (`Paging.PoolRepeatsIff`, `Paging.ReusedTableShared`, `BootTables.SecondCallShares`). From 512 GB up the pool
  for the next table is the boot code's own table, and the mapping goes a gigabyte astray (`BootTables.BootMapsIff`,
  `BootTables.BootLands`).
- `itoa` prints one character, not a numeral of it, for a negative number (`Printk.DecimalRoundTripIff`).

## Model

| member | source | states |
|---|---|---|
| Layout.SuperblockLayout | fs/ext2/ext2.h:20-51 | The counts, the group sizes, the magic number, the inode size and the block size of a superblock, by the bytes that hold them. |
| Layout.DescriptorLayout | fs/ext2/ext2.h:54-66 | The three block numbers and the two counts of a group descriptor, by its 32 bytes. |
| Layout.InodeKind | fs/ext2/directory.c:125 | An inode is a directory by bit 14 of its first two bytes alone and a regular file by bit 15 alone, whatever its permissions are. |
| Layout.InodeLayout | fs/ext2/ext2.h:80-98 | Mode, size, sectors and the fifteen block pointers of an inode, by its bytes. |
| Layout.AttachedLayout | fs/ext2/file.c:20-23 | The number of attached blocks from the four bytes of the sector count, with the wrap-around of the 32-bit product. |
| Layout.RecordLayout | fs/ext2/ext2.h:69-77 | Inode, length, name and type of a directory record, by its bytes. |
| Layout.BlockMarkLayout | fs/ext2/superblock.c:139-158 | A block is used when bit p % bpg of its group's bitmap is set: bit i % 8, from the lowest, of byte i / 8. |
| Layout.InodeMarkLayout | fs/ext2/superblock.c:100-118 | An inode likewise, counted from 1. |
| Layout.FreeLayout | fs/ext2/superblock.c:98-142 | A group has no free inode, or block, for the driver when the first bits of the bitmap block that its descriptor names are all set, as many as the superblock gives a group inodes. |
| Layout.NumberLayout | fs/ext2/superblock.c:118-158 | Bit i of group k is block k * bpg + i and inode k * ipg + i + 1. |
| Layout.InodePlace | fs/ext2/inode.c:62-92 | Inode n is the 128 bytes of entry (n - 1) % ipg of its group's table, in the blocks of the table. |
| Layout.NewInodeLayout | fs/ext2/file.c:91-96 | The bytes of a new inode: mode 0x81A4, size 0, one link, eight sectors and its block; owner, times and all others are what was there. |
| Layout.AttachLayout | fs/ext2/file.c:322-324 | Attaching a block stores it in its pointer, adds eight sectors and keeps every other byte. |
| Layout.ResizeLayout | fs/ext2/file.c:347-351 | A new size is stored in bytes 4 to 7 and keeps every other byte. |
| Layout.ParseReads | fs/ext2/directory.c:196-218 | A reading of a block is a chain of offsets, each record beginning where the one before it says that it ends, which stops at the limit, at the end of the block or at inode 0; its entries are the records there. |
| Layout.ReadingUnique | fs/ext2/directory.c:196-218 | There is no other such reading. |
| Layout.ListReads | fs/ext2/directory.c:196-218 | A listing is the readings of the blocks in order, 128 entries at most, up to the first absent pointer or the twelfth block. |
| Layout.LastFound | fs/ext2/directory.c:135-168 | The scan for the last record finds a record that reaches the end of the block, behind fewer than 128 records that do not. |
| Layout.LastUnique | fs/ext2/directory.c:135-168 | Whenever there is such a chain, its last record is what the scan finds. |
| Layout.AddFails | fs/ext2/directory.c:135-173 | Without one, adding an entry fails and changes nothing. |
| Layout.AddSucceeds | fs/ext2/directory.c:135-165 | With one, and room behind twice its offset, adding an entry succeeds. |
| Layout.AddRefused | fs/ext2/directory.c:125-134 | Adding to what is no directory does nothing and returns 0; adding to a directory without a block fails. |
| Bitmaps.LowestClear | fs/ext2/superblock.c:102-103 | The scan stops at the least clear bit below the limit, or at the limit when all bits are set. |
| Bitmaps.SetBitBits | fs/ext2/superblock.c:106 | Setting a bit sets that bit and no other, anywhere in the 4096-byte bitmap. |
| Bitmaps.CountSetBit | fs/ext2/superblock.c:106-111 | Setting a clear bit takes exactly one from the number of clear bits. |
| Alloc.AllocBlockKeeps | fs/ext2/superblock.c:129-162 | On a good volume a block allocation returns 0, changing nothing, if and only if every scanned bit of the group is set; otherwise it returns a data block that was free, marks exactly that one, and keeps the free counts equal to the clear bits on disk and in memory, every inode and every data block. |
| Alloc.AllocInodeKeeps | fs/ext2/superblock.c:90-122 | The same for inodes. |
| Alloc.LowestBlock | fs/ext2/superblock.c:141-158 | Every block of the group numbered below the one returned was already used. |
| Alloc.LowestInode | fs/ext2/superblock.c:102-118 | Every inode of the group numbered below the one returned was already used. |
| Alloc.NoDoubleAllocation | fs/ext2/superblock.c:90-162 | Over every run of block and inode requests to any groups in any order: everything handed out was free before the run and is used after it, results of one kind are pairwise distinct, and the volume is good at the end (so the free counts are conserved and memory and disk agree). |
| Volume.InodeRoundTrip | fs/ext2/inode.c:62-129 | Writing inode n and extracting it gives it back; extracting any other inode, in the same or another group, gives what it gave before. |
| Alloc.SetInodeTouches | fs/ext2/inode.c:100-129 | Writing an inode changes no bitmap, count, descriptor, superblock, data block or other inode. |
| Alloc.SetDataTouches | fs/ext2/file.c:303-343 | Writing a data block changes nothing else on the volume. |
| Paths.ParserRoundTrip | fs/ext2/directory.c:38-64 | For every absolute path, with empty components and final slashes: the first row is the root, joining the other rows by single slashes gives back the path up to one final slash, and the depth is the number of slashes plus one without a final slash. |
| Paths.SplitJoin | fs/ext2/directory.c:38-64 | Any list of components without slashes is recovered from its joined path. |
| Paths.UnpackDirPath | fs/ext2/directory.c:38-64 | The loop with its three counters leaves exactly those rows as C strings and returns their number. |
| Records.InsertTiled | fs/ext2/directory.c:145-161 | On a tiled directory block with room, the block stays tiled by 4-aligned records if and only if the length given to the old last record, offset plus new size, still covers that record. |
| Records.InsertListed | fs/ext2/directory.c:139-171 | Under that condition listing the block gives the old entries in order followed by the new one, cut at the limit of the listing. |
| Records.InsertLists | fs/ext2/directory.c:139-171 | On any tiled block with room, damaged or not: reading the block gives the old entries in order, the last of them under the bytes that its record now reads as, and then the new one. |
| Records.MisreadKeeps | fs/ext2/directory.c:145-161 | Those bytes are the old name as far as the shortened record covers it; behind that they are the new record's header and name (InsertedByte). |
| Records.InsertMovesLast | fs/ext2/directory.c:152-158 | Each insertion moves the last record from offset o to 2o plus the new record's size. |
| Records.TakesFew | fs/ext2/directory.c:139-165 | So one block takes at most eight names one after the other, tiled or damaged, and at most seven when its last record is not the first one, however many bytes are free. |
| Records.TakesMany | fs/ext2/directory.c:139-165 | The bound is reached: names of one byte go in as long as the last offset, 2o + 12 after each, leaves room. |
| Records.InsertReads | fs/ext2/directory.c:145-161 | On blocks whose records merely do not overlap, reading stays inside the block after an insertion and gives the old inode numbers in order and then the new one. |
| Namespace.AddedReads | fs/ext2/directory.c:119-174 | Whatever the insertion damages, listing the whole directory stays inside its blocks and gives old inode numbers and the new one only. |
| Namespace.AddListed | fs/ext2/directory.c:119-174 | InsertListed for a whole directory with any number of blocks: the first block's entries, the new one, the entries of the other blocks, cut at the limit. |
| Namespace.AddedLists | fs/ext2/directory.c:119-174 | InsertLists for a whole directory: the first block's entries, the last of them misread when it is damaged, the new one, and the entries of the other blocks, cut at the limit. |
| Namespace.AddedLookup | fs/ext2/directory.c:119-174 | After an undamaging insertion every other name leads where it led; the name itself leads where it led if it was in the first block, and otherwise to the new inode. |
| Slots.SlotReadsIff | fs/ext2/directory.c:211-212 | A slot of the entry array that a new name was copied into reads as that name if and only if the name contains its own end or the byte left behind it by earlier names is 0. |
| Slots.LeftoverIff | fs/ext2/inode.c:32-47 | After any sequence of listings a byte of a slot is left over if and only if some directory listed before had, at the same place, a name that reaches it. |
| Namespace.LongestExists | fs/ext2/inode.c:38-52 | Every component list has a longest resolvable prefix. |
| Namespace.LongestUnique | fs/ext2/inode.c:38-52 | It has only one: one length and one inode. |
| Namespace.FollowsIff | fs/ext2/inode.c:30-53 | The walk goes through the directories of the components, one by one, if and only if it sees every name on the way as it is, through what the array holds, and none names the directory it is looked up in. |
| Namespace.WalkIsLongestPrefix | fs/ext2/inode.c:24-54 | Such a walk returns the inode of the longest resolvable prefix. |
| Namespace.WalkExactly | fs/ext2/inode.c:30-53 | In general, for any contents of the array, the walk ends at the inode of the longest prefix if and only if its first wrong step, if any, does no harm. |
| Namespace.HarmlessIff | fs/ext2/inode.c:30-53 | When no inode is entered from two directories on the way and the start is never re-entered, doing no harm is to list the directories of the route one by one; on paths without a component that names its own directory it is to see every name as it is, and where the walk stops at once it is that nothing else resolves. |
| Ownership.SoundStays | fs/ext2/file.c:82-100 | The whole-disk ownership invariant survives any change that touches no block and no inode in use. |
| Ownership.SoundGrows | fs/ext2/file.c:309-324 | It survives giving one inode one block that was free. |
| Ownership.SoundAdds | fs/ext2/file.c:103-108 | It survives naming a tracked inode in a directory. |
| Creation.CreateInSound | fs/ext2/file.c:35-113 | Creating a file keeps the ownership invariant on success and on every failure path, where the inode and the block may leak but are never shared. |
| Closing.CreateCall | fs/ext2/file.c:35-113 | The call has code 0 if and only if there is a place for the file (a parent directory with room, a free inode and a free block in its group). Then a regular file of size 0 with one link and eight sectors, at a new inode, has its record in the parent's block; otherwise no listing and no tracked inode has changed. |
| Leaks.CreateTakes | fs/ext2/file.c:66-108 | What a creation takes, in every case: nothing when the parent is no directory or its group has no inode; an inode, lost, when it has no block; an inode and a block otherwise, lost when the directory is full. |
| Creation.CreateSucceedsIff | fs/ext2/file.c:60-113 | A creation succeeds if and only if the parent is a directory with room for the record and its group has a free inode and a free block among the scanned bits. |
| Space.CreateInLeaves | fs/ext2/file.c:60-113 | A successful creation takes exactly one block and one inode, the inode in its directory's group, and leaves a free block in the group if and only if there were two. |
| Finding.SeenIff | fs/ext2/inode.c:42-49 | A new entry is seen under its name if and only if nothing left in its slot follows the name and no slot before it reads as the name. |
| Finding.CreateThenFind | fs/ext2/file.c:35-113 | After a successful creation under a directory that the path's own directory components lead to, with a new name that the directory takes without damage: the path resolves to the new inode, every path that resolved before resolves to the same inode, and, when the walk follows the directory components, the driver finds the new inode if and only if the array is clear for the name. |
| Finding.FindKept | fs/ext2/inode.c:24-54 | A path that resolved before is walked after the creation through the same directories if and only if the array shows its names as they are; then the driver finds the same inode. |
| Keeping.CreateExisting | fs/ext2/file.c:58-103 | A creation under a name that exists succeeds like any other. The name keeps its inode if and only if it is in the directory's first block; then every component list resolves as before and none to the new inode. Otherwise the name leads to the new inode. |
| Keeping.CallsKeepPaths | fs/ext2/file.c:35-441 | Over every run of calls, succeeding or failing, every path that resolves before resolves to the same inode after, while each creation that has room is taken without damage, with room in the listing, under a name that is new or in the first block. |
| Finding.CreateThenFindShallow | fs/ext2/file.c:52-64 | For absolute paths of depth 2 the driver always finds the new file; for depth 3 if and only if the root's entries, left in the array by the first listing, do not keep the name from being seen. |
| Leftovers.LeftoverFind | fs/ext2/inode.c:30-53 | On a volume with one directory in the root, after a file was created in it: the driver finds the file under exactly one name there, its own followed by the left-over end of a longer directory name, and gives the directory for every other name. |
| Leftovers.FoundIff | fs/ext2/inode.c:30-53 | So the new file is found under its own path if and only if its name is at least as long as the directory's; otherwise it is found under a path that does not resolve. |
| Leftovers.DocsExample | fs/ext2/inode.c:30-53 | The input: a volume with the directory docs; creating /docs/x succeeds, then /docs/x gives the directory and /docs/xocs the file. |
| Duplicates.CreatedTwice | fs/ext2/file.c:121-227 | When the new file's name is shorter than its directory's: closing creates it, opening its path again for writing and closing again creates another file of that name. The path still resolves to the first inode and no path to the second, which is the one that the driver finds from then on. |
| Duplicates.DocsTwice | fs/ext2/file.c:121-227 | The input: /docs/x opened for writing and closed, twice. |
| Examples.DotStops | fs/ext2/inode.c:42-53 | The input: after creating x in the root, /./x resolves to the file and the driver gives the root. |
| Examples.DeepCreate | fs/ext2/file.c:52-103 | The input: on a volume without directory a, creating /a/b/c succeeds and puts c in the root. |
| Examples.LongNameDamaged | fs/ext2/directory.c:145-161 | The input: a tiled block whose only record has a name of more than four bytes is no longer tiled after the name a was inserted. |
| Creation.ShallowParent | fs/ext2/file.c:52-61 | Up to depth 3 the parent path that the driver builds leads where the path's directory components lead. |
| Creation.ParentComponents | fs/ext2/file.c:52-56 | The parent path has at most one component: all middle components run together. |
| Creation.DeepParent | fs/ext2/file.c:52-61 | Deeper, the parent is the right one if and only if the root's entry of that run-together name leads where the components lead. |
| Creation.DeepParentExample | fs/ext2/file.c:52-56 | For /a/b/c the parent is looked up as /ab. |
| Creation.ParentShorter | fs/ext2/file.c:53-56 | The rows before the last, run together, are shorter than the path, so the parent path and its terminator always fit the array. |
| Creation.OldPathsResolve | fs/ext2/directory.c:119-174 | Adding a name to one directory changes no resolution that succeeded before. |
| Writing.WriteTouches | fs/ext2/file.c:300-353 | A write changes at most the block of the position, the next block and the file's own inode. |
| Writing.WriteSucceedsIff | fs/ext2/file.c:305-327 | It succeeds if and only if it stays in one block, or the next block is attached, or fewer than twelve blocks are attached and the file's group has a free block among the scanned bits. |
| Writing.WriteInode | fs/ext2/file.c:309-351 | What a write does to the inode: size, attached blocks, sector count and pointers, on disk and in memory. |
| Writing.WriteInv | fs/ext2/file.c:276-354 | A write keeps the whole invariant, on success and on failure, and leaves nothing dirty. |
| Writing.WriteBlocks | fs/ext2/file.c:303-345 | The two blocks a write leaves, byte for byte; the second block's allocation touches neither. |
| Writing.WriteContents | fs/ext2/file.c:300-353 | After a successful write at pos every byte of the file is given: the data in its range, the buffer in the rest of the position's block, zeros in the rest of a straddling write's second block, the old contents elsewhere. |
| Refinement.WriteOverwritesIff | fs/ext2/file.c:303-345 | A successful write changes the written bytes of the contents and no others if and only if the buffer agrees with the disk on the unwritten bytes of its block, and the write stays in its block, or the next block was not attached, or that block's bytes behind the end were zero. |
| Examples.TailLost | fs/ext2/file.c:305-343 | The input: a nonzero byte at 4146 of a two-block file is 0 after ten bytes were written at 4090. |
| Calls.OpenedReads | fs/ext2/file.c:121-173 | A read of up to a block right after opening delivers zeros, for every existing file; it delivers the contents if and only if the first block starts with as many zeros. |
| Calls.OpenedWrites | fs/ext2/file.c:276-354 | The first write after opening clears the rest of the first block, so it overwrites in place if and only if that rest is zero already. |
| Examples.ReadsZero | fs/ext2/file.c:121-266 | The input: write a byte other than 0 to a new file, close, open, read one byte: 0. |
| Refinement.StepRefines | fs/ext2/file.c:276-441 | One successful write or seek on any usable file, also a seek that attaches a block, is one step of a machine of a byte sequence, a position and a one-block window that writes go through. |
| Refinement.RunRefines | fs/ext2/file.c:276-441 | So is every run of writes and seeks of any length. |
| Refinement.ReadRefines | fs/ext2/file.c:236-266 | A read gives the window's bytes and, behind its block, the byte sequence's. |
| Refinement.ReadInStep | fs/ext2/file.c:236-266 | When the window shows the block of the position, which every successful write and every seek inside the file sees to, a read gives the byte sequence at the position. |
| Refinement.WriteReadBack | fs/ext2/file.c:236-441 | Bytes written by a successful write are read back, at once and after any run of seeks that returns to the position, whether or not the write straddled and allocated its second block, and whether or not the seeks attached blocks. |
| Refinement.SizeExactly | fs/ext2/file.c:347-351 | The size becomes the larger of the old size and the end of the write if and only if the position is in the first block or the write ends inside the old size. |
| Examples.SizeOne | fs/ext2/file.c:347-424 | The input: create a file, seek to 4096, write one byte: the size is 1. |
| Examples.SizeLost | fs/ext2/file.c:403-424 | The input: a file of any size up to a block has size 0 after a seek to 4096. |
| Refinement.WriteIsolated | fs/ext2/file.c:276-354 | A write, successful or not, leaves every other tracked inode and every byte of its contents alone. |
| Refinement.RunIsolated | fs/ext2/file.c:276-441 | So does every run of successful writes and seeks, attaching blocks or not. |
| Leaks.WriteTakes | fs/ext2/file.c:303-346 | A write takes a block if and only if it reaches behind the attached blocks and one is free; with twelve attached it then fails and the block is lost. Otherwise it takes nothing. |
| Closing.WriteExists | fs/ext2/file.c:276-354 | A write to an existing file, with its codes: an error without effect for a closed file or more than a block; otherwise it succeeds if and only if it stays in one block, its second block is attached, or one can be attached, and then the contents hold the data at the position, which stays. |
| Closing.WriteMissing | fs/ext2/file.c:284-290 | A write to a missing file creates it first: without a place for it nothing that has a name changes; more than a block fails after the creation; anything else succeeds, and the new file's contents start with the data. |
| Session.SeekInv | fs/ext2/file.c:362-441 | A seek keeps the whole invariant, also when it fails and leaves the position changed, and leaves nothing dirty. |
| Session.SeekReaches | fs/ext2/file.c:403-424 | After a successful seek the position lies in an attached block if and only if it was at most one block past the attached ones. |
| Examples.SeekTooFar | fs/ext2/file.c:403-424 | The input: seeking to 8192 in a file of one block succeeds, and the position lies in no block of it. |
| Session.SeekSucceedsIff | fs/ext2/file.c:403-424 | A seek succeeds if and only if the block of the position is attached, or fewer than twelve are and the file's group has a free block among the scanned bits. |
| Session.SeekAttaches | fs/ext2/file.c:403-424 | A seek past the attached blocks attaches one block that nobody held, leaves all data on disk, sets the size to the offset in the block, and fills the buffer with the new block with its first bytes cleared. |
| Refinement.SeekAppends | fs/ext2/file.c:403-424 | A seek to the block behind the attached ones keeps the file's bytes and appends the new block's; the buffer is that block if and only if its cleared bytes are zero on disk, and the size is kept if and only if it was the offset in the block. |
| Session.FlushInv | fs/ext2/file.c:201-212 | Writing back a dirty buffer keeps the invariant. |
| Session.ReadIsContent | fs/ext2/file.c:236-266 | Each byte read from a coherent file is the file's byte at the position. |
| Refinement.SeekLoads | fs/ext2/file.c:398-438 | A seek inside the attached blocks succeeds, makes buffer and block agree and changes nothing else. |
| Closing.SeekExists | fs/ext2/file.c:362-441 | A seek, with its codes: an error for a closed file, nothing for the position itself; otherwise the position moves, and the call succeeds if and only if it is in an attached block or one can be attached. |
| Closing.SeekMissing | fs/ext2/file.c:373-379 | A seek in a missing file creates it first; without a place for it nothing that has a name changes and the position stays; the call succeeds for a position in the first block, and for any other when there were two free blocks. |
| Leaks.SeekTakes | fs/ext2/file.c:403-424 | A seek behind the attached blocks takes a block whenever one is free, and with twelve attached loses it; a seek inside them leaves the volume alone. |
| Closing.FlushStores | fs/ext2/file.c:201-212 | Writing back puts the buffer into the block of the position and, with new bytes, makes their end the size, in memory and on disk; nothing else changes. |
| Closing.SeekDirty | fs/ext2/file.c:383-401 | A seek inside the attached blocks with a dirty buffer writes it back if and only if the new position is in another block, and loads the new block. |
| Closing.OpenCall | fs/ext2/file.c:121-173 | Opening does nothing while a file is open or for more than 4096 bytes of path. Otherwise the file is opened if and only if the mode is 'w' (119) or bit 15 of the found inode's mode is set; it exists if and only if that bit is set; it starts at position 0 with a buffer of zeros. A refused call changes nothing and no call touches the volume. |
| Closing.CloseMissing | fs/ext2/file.c:181-227 | Closing a missing file returns 0 and clears the structure. If there is a place for it, a regular file of size 0 with one block has been added to the parent directory; otherwise no listing and no tracked inode has changed. |
| Closing.CloseExists | fs/ext2/file.c:181-227 | Closing an existing file returns 0 and leaves the volume alone; closing when nothing is open returns 1. |
| Closing.CloseDirty | fs/ext2/file.c:196-212 | Closing a dirty file writes its buffer back first. |
| Examples.CloseCreates | fs/ext2/file.c:121-227 | The input: on a volume whose root has mode 0755, opening /x with 'w' and closing creates the file: the root lists it and the driver finds it. |
| Examples.ReadRefused | fs/ext2/file.c:143-147 | The input: opening /x with 'r' there is refused, so that a close returns 1. |
| Examples.RootLists | fs/ext2/directory.c:182-221 | The listing of that root, with the two bytes of its mode. |
| Calls.CreateInv | fs/ext2/file.c:35-113 | Creating the open file keeps the invariant; it exists afterwards if and only if the call succeeded, and then has one block and size 0. |
| Calls.CloseLosesNothing | fs/ext2/file.c:181-227 | Closing an existing file leaves the whole volume as it is, and its inode on disk is the one in memory. |
| Calls.ReachableInv | fs/ext2/file.c:121-441 | In every state that any run of open, write, seek and close calls reaches, with calls succeeding and failing: blocks have one owner and are marked used, free counts are conserved, memory and disk agree on superblock, descriptors and the open file's inode, directories list tracked inodes, nothing is dirty. |
| Calls.CreateIsolated | fs/ext2/file.c:35-113 | A creation leaves every tracked inode alone, and the contents of all but the parent directory. |
| Calls.CallsIsolated | fs/ext2/file.c:121-441 | Over every run of calls, succeeding or failing, a tracked inode that is never the open file and never the directory of a creation keeps its inode and every byte of its contents. |
| Calls.WalkTracked | fs/ext2/inode.c:24-54 | The walk never leaves the tracked inodes. |
| Driver.Ext2.FreeBlockAlloc | fs/ext2/superblock.c:129-162 | The loop over the bitmap buffer and its writes are AllocBlock on the state. |
| Driver.Ext2.FreeInodeAlloc | fs/ext2/superblock.c:90-122 | The loop over the bitmap buffer and its writes are AllocInode on the state. |
| Driver.Ext2.ExtractSb | fs/ext2/superblock.c:39-60 | The superblock is the 92 bytes from byte 1024 of block 0 on; an error exactly for a wrong magic number. |
| Driver.Ext2.WriteSb | fs/ext2/superblock.c:67-83 | Block 0 receives the superblock at offset 1024 and keeps its other bytes. |
| Driver.Ext2.ExtractBgdt | fs/ext2/group.c:26-35 | The table in memory is block 1. |
| Driver.Ext2.WriteBgdt | fs/ext2/group.c:42-53 | Block 1 becomes the table in memory. |
| Driver.Ext2.Mount | fs/ext2/superblock.c:39-60 | Extracting both on a sound image with no open file establishes the invariant of all runs. |
| Driver.Ext2.ExtractInode | fs/ext2/inode.c:62-92 | The current inode becomes inode n, by the division and remainder of the numbering. |
| Driver.Ext2.InodeWrite | fs/ext2/inode.c:100-129 | The volume becomes SetInode of it. |
| Driver.Ext2.ListDirectory | fs/ext2/directory.c:182-221 | In every slot used, the bytes of the listed name are overwritten and those behind it kept; the loops end on any record lengths, including zero. |
| Driver.Ext2.PutEntry | fs/ext2/directory.c:147-161 | The in-place record edits are Insert on the block. |
| Driver.Ext2.AddDirEntry | fs/ext2/directory.c:119-174 | The scan for the last record, the edit and the write are AddEntry, with its error codes. |
| Driver.Ext2.InodeFind | fs/ext2/inode.c:24-54 | The nested loops over rows and entries, with one array for all listings, compute Find, and stay in the tracked inodes. |
| Driver.Ext2.BuildParent | fs/ext2/file.c:52-56 | The calls of strncat on the array leave ParentPath as its C string, within its bounds. |
| Driver.Ext2.FileCreate | fs/ext2/file.c:35-113 | The whole call is Create on the state, on all its paths. |
| Driver.Ext2.Fopen | fs/ext2/file.c:121-173 | The whole call is Open. |
| Driver.Ext2.Fclose | fs/ext2/file.c:181-227 | The whole call is Close. |
| Driver.Ext2.Fread | fs/ext2/file.c:236-266 | It fails exactly on a closed file or too large a size; otherwise the caller's buffer receives ReadBytes and keeps its other bytes; the state is unchanged. |
| Driver.Ext2.Fwrite | fs/ext2/file.c:276-354 | The whole call is Write. |
| Driver.Ext2.Fseek | fs/ext2/file.c:362-441 | The whole call is Seek. |
| Formatted.FirstCreateSucceeds | fs/ext2/file.c:35-113 | On a concrete formatted volume of 16 blocks the first creation succeeds for every single-component name and leaves a file that the write, seek and read theorems apply to. |
| Kernel.Exercise | kernel/kernel.c:43-53 | Open for writing, write a block, seek to 10, write a block straddling into a second one, read, close: it runs to its end if and only if the file has two blocks or the volume has room for what is missing; then the second block's bytes are read and the file on disk holds ten bytes of the first and a block of the second. The invariant holds at the end in any case. |
| Examples.ExerciseRuns | kernel/kernel.c:43-53 | On the concrete formatted volume it runs to its end for every file name. |
| Strings.StrLen | kernel/string.c:35-42 | The length of the C string, which ends at the first NUL. |
| Strings.StrCmp | kernel/string.c:9-22 | 0 for equal C strings, 255 or 1 for a smaller or larger signed character at the first difference. |
| Strings.CompareFlips | kernel/string.c:9-22 | Exchanging the strings exchanges 1 and 255. |
| Strings.StrNCat | kernel/string.c:24-32 | The source's bytes and a terminator are stored from the destination's terminator on; all other bytes are kept. |
| Strings.StrRev | kernel/string.c:60-74 | The C string is reversed in place; the rest of the array is untouched. |
| Memory.MemCpy | kernel/mem.c:17-25 | The destination is spliced with the source. |
| Memory.MemSet | kernel/mem.c:34-41 | The first n bytes have the value, the others are kept. |
| Console.Vga.Put | drivers/vga/vga.c:77-99 | Printing one character, newline or not, scrolling or not, keeps the 2000 cells equal to the window of 25 rows on the unbounded log, with the pointer at the log position. |
| Console.Vga.PrintChar | drivers/vga/vga.c:77-107 | The same for the whole call, and on the screen: a newline moves the pointer to the end of the row reached into; another character goes into the cell at the pointer, with its colours, after the rows have moved up and the last has become blank if the screen was full; no other cell changes. The cursor is the pointer. |
| Console.Vga.Print | drivers/vga/vga.c:110-143 | The same for a C string. |
| Console.Vga.Scroll | drivers/vga/vga.c:60-74 | Rows move up by one, the last is blank, the pointer is at its start. |
| Console.Vga.ClearLine | drivers/vga/vga.c:47-58 | Exactly the cells of the line become blank; the pointer is restored. |
| Console.Vga.UpdateCursor | drivers/vga/vga.c:103-105 | The two divisions give the pointer back. |
| Console.ScrollTest | drivers/vga/vga.c:93-96 | The scroll test, with its division by twice the height, fires exactly when the pointer is at the end of the screen. |
| Console.WindowStep | drivers/vga/vga.c:92-100 | One more character moves the window by a row exactly when the screen was full, and the pointer never passes 2000. |
| Console.WindowNewline | drivers/vga/vga.c:89-91 | A newline rounds the log position up to a row start and never moves the window. |
| Console.NewlineIdempotent | drivers/vga/vga.c:84-91 | A newline at the start of a row other than the first does nothing, so newlines in a row count once. |
| Console.LogIsWriteOnce | drivers/vga/vga.c:77-101 | No later output changes the log below the position. |
| Console.LogHoldsText | drivers/vga/vga.c:77-101 | Every printed character is in the log where the position was, with its foreground and background in the bits above it. |
| Console.Unwritten | drivers/vga/vga.c:60-74 | At and after the position the log shows the initial screen or blanks. |
| Console.CellHolds | drivers/vga/vga.c:26-32 | A cell's low byte is the character, the next four bits the foreground and the top four the background; the blank is 0x0F20. |
| Console.Letters | drivers/vga/vga.c:77-107 | The input: A, a newline and B in light blue on black leave 0x0941 in cell 0, 0x0942 in cell 80 and the cursor at 81. |
| PciSpaces.Fields | pci/pci.c:28-56 | Vendor, sub-class, class, header type and secondary bus are the bytes 0x00-0x01, 0x0A, 0x0B, 0x0E and 0x19 of the function's configuration space, read at 0x80000000 + bus * 65536 + device * 2048 + function * 256 + offset. |
| PciSpaces.Kinds | pci/pci.c:112-139 | A function is absent when both vendor bytes are 0xFF; a device has several functions when its header type is 128 or more; a bridge has class 6 and sub-class 4. |
| PciSpaces.RootsIff | pci/pci.c:158-168 | The root buses: bus 0 alone, if there is a host, when it has one function; otherwise one bus for each function before the first absent one. |
| PciSpaces.NestedScan | pci/pci.c:110-170 | The input: a bridge to bus 1 whose register 0x18 is 0x00020100, a bridge there to bus 2, and a function on it; the vector holds 0:0.0, 2:0.0, 1:1.0, 0:1.0. |
| PciSpaces.ScanNested | pci/pci.c:152-170 | The scan of that space, as the method runs it. |
| PciSpaces.SeveralScan | pci/pci.c:152-170 | The input: a host with the functions 0, 1 and 3; buses 0 and 1 are scanned, bus 3 is not. |
| PciSpaces.ScanSeveral | pci/pci.c:152-170 | The scan of that space, as the method runs it. |
| Pci.Enumerator.RecursiveScan | pci/pci.c:152-170 | On every configuration on which the recursion ends, with a single- or a multi-function host, the vector is the first 128 elements of the post-order traversal. |
| Pci.Enumerator.FunctionScan | pci/pci.c:133-149 | A bridge is recorded after everything behind it. |
| Pci.Enumerator.DeviceScan | pci/pci.c:110-123 | Function 0 gates the device, header bit 7 gates functions 1 to 7. |
| Pci.Enumerator.BusScan | pci/pci.c:125-131 | All 32 devices in order. |
| Pci.Enumerator.Add | pci/pci.c:93-101 | Appends below 128 entries, refuses otherwise. |
| Pci.Enumerator.Get | pci/pci.c:78-91 | The entry, the last one for an index past the end, the zero address when empty. |
| ConfigAddress.AddressInjective | pci/pci.c:21-26 | The configuration address determines bus, device < 32, function < 8 and dword, so two functions never share a register. |
| PciTree.TerminatesIff | pci/pci.c:110-149 | The scan of a bus ends if and only if no chain of bridges below it returns to a bus it has passed; then it nests at most 256 deep. |
| PciTree.ScanTerminatesIff | pci/pci.c:152-170 | The same for the whole scan and its root buses. |
| PciTree.AscendingTerminates | pci/pci.c:133-139 | It ends when every bridge leads to a higher bus number. |
| PciTree.BoundedIff | pci/pci.c:125-149 | The nesting bound is the length of the longest chain of bridges. |
| PciTree.InBusList | pci/pci.c:110-149 | A function is listed for a bus if and only if it is visible and a chain of bridges leads from the bus to its own. |
| PciTree.ScanFinds | pci/pci.c:152-170 | The scan lists exactly the functions that bridges connect to a root bus. |
| PciTree.BusListUniqueIff | pci/pci.c:125-149 | A bus is listed without repetition if and only if only one chain of bridges leads to each function behind it. |
| PciTree.ScanOnceIff | pci/pci.c:152-170 | No function is listed twice if and only if no two chains, from the same or different roots, lead to one function. |
| PciTree.TreeScannedOnce | pci/pci.c:152-170 | That is so when bridges have distinct secondary buses, none of them a root bus. |
| PciTree.AllRecordedIff | pci/pci.c:93-101 | Then every connected function is recorded if and only if at most 128 are connected. |
| PciTree.RecordedBehind | pci/pci.c:138-144 | Whatever is behind a recorded bridge is recorded, and before it, even when the vector overflowed. |
| PageBits.PageIff | kernel/mem.c:79-82 | Two addresses have the same four table indices if and only if they are in the same 48-bit page. |
| PageBits.SlotInjective | kernel/mem.c:79-120 | Entries of aligned tables have distinct addresses. |
| Paging.LeafWalks | kernel/mem.c:119 | Entering a frame in a bottom table translates the page to the frame, and every other page, in small or large pages, as before. |
| Paging.AddedTable | kernel/mem.c:93-96 | Entering a fresh table adds it for its prefix and changes no other table of any address. |
| Paging.AddedWalk | kernel/mem.c:93-114 | ... and changes no translation. |
| Paging.PmapTranslates | kernel/mem.c:75-121 | When the entries on the way are tables, or absent and palloc finds a fresh table, then after pmap every address of the page translates to the frame plus its offset, every other address as before, and no table is shared. |
| Paging.RunMaps | kernel/mem.c:75-121 | Over every run of such calls the translation is that of the last request for the page, or the original one. |
| Paging.PresentIff | kernel/mem.c:91-119 | When the upper entries are present, down to a 1-GB page or to the lowest one, the address translates to the frame after pmap if and only if no large page was met or the address translated so already. |
| Paging.LargePageStays | kernel/mem.c:99-119 | Over a 2-MB or a 1-GB page pmap goes on in the page itself; unless a table lies there, no translation changes. |
| Paging.PoolRepeatsIff | kernel/mem.c:59-66 | Asked again later, palloc returns the same table if and only if its first entry is still absent. |
| Paging.ReusedTableShared | kernel/mem.c:93-114 | A table in use that is entered again is shared by two prefixes from then on. |
| Paging.PmapKeepsPresent | kernel/mem.c:75-121 | pmap never makes an entry absent. |
| Paging.Mapper.Palloc | kernel/mem.c:59-66 | The pointer loop finds the first absent entry. |
| Paging.Mapper.Map | kernel/mem.c:75-121 | The method with its pointers and writes is Pmap on memory. |
| BootTables.BootMaps | arch/x86_64/boot.asm:59-80 | From the tables of the boot code, at any page from 1 MB up in the first gigabyte, pmap maps any page of the first 512 GB above the first gigabyte and changes no other translation. |
| BootTables.BootStays | kernel/mem.c:109-119 | For a page of the first gigabyte pmap stores one word in its large page; every address whose walk does not read that word is translated as before. |
| BootTables.BootOverwritten | kernel/mem.c:109-119 | An address whose walk does read it, because a table in use starts at the large page, is walked on through the frame taken for a table. |
| BootTables.HitsAligned | kernel/mem.c:109-119 | A page can be hit in that way only when one of the three tables in use starts where its 2-MB page does. |
| BootTables.LoaderMisses | kernel/elf64_loader.c:108 | The program loader's request for the frame two gigabytes on is never met for a page of the first gigabyte: it keeps its own frame. |
| BootTables.TopOverwritten | kernel/mem.c:109-119 | The input: with the top table at 2 MB, mapping the page at 2 MB overwrites the top table's first entry. |
| BootTables.AstrayAlloc | kernel/mem.c:59-66 | For an address from 512 GB up palloc returns the second entry of the second-level table, which is no page. |
| BootTables.BootMapsIff | kernel/mem.c:91-119 | For every page but those whose own walk reads the stored word: a page in the first gigabyte of any 512 GB is mapped to the frame if and only if that is the large page's frame already, any other page if and only if it lies below 512 GB. |
| BootTables.BootLands | kernel/mem.c:91-119 | Otherwise the page one gigabyte further on gets the mapping, in the 512 GB of the request and in the first. |
| BootTables.SecondCallShares | kernel/mem.c:99-106 | After that call the same page directory is handed out for the next missing one, unless the call filled its first entry. |
| BootTables.BootIdentity | arch/x86_64/boot.asm:59-80 | The boot code's tables translate the first gigabyte to itself and nothing else. |
| PageBits.IndexIs | kernel/mem.c:79-82 | The four indices as base-512 digits of the address. |
| PageBits.EntryFields | arch/x86_64/boot.asm:59-80 | Bit 7 of an entry makes it a large page; its frame is bits 12 to 51. |
| Paging.LevelStores | kernel/mem.c:91-114 | One level down: an absent entry of the indexed place becomes the first free place of its pool plus 3 plus the flags, and nothing else changes; a present one is followed to its frame. |
| Paging.LeafStores | kernel/mem.c:118-119 | At the end the bottom table's entry is the frame plus 3 plus the flags, and nothing else changes. |
| Paging.FirstIsAbsent | kernel/mem.c:59-66 | The place that palloc returns is the first one from the base on whose low bit is clear. |
| Printk.Printk | kernel/printk.c:32-72 | Exactly the expansion of the format goes to the console log, one argument per conversion. |
| Printk.Itoa | kernel/ascii_utils.c:6-18 | The digit loop, the terminator and the reversal in the 32-byte buffer give the numeral. |
| Printk.DecimalRoundTripIff | kernel/ascii_utils.c:6-18 | The numeral consists of digits and reads back as the number if and only if the number is not negative; then it has no leading zero; it always fits the buffer. |
| Printk.NumberShown | kernel/printk.c:54-57 | %d stands for decimal digits that read back as the number, without a leading zero, and for one character below 0 when it is negative. |
| Printk.NumberExamples | kernel/ascii_utils.c:6-18 | The inputs 1024, printed as such, and -42, printed as a full stop. |
| Printk.StringShown | kernel/printk.c:58-61 | %s stands for the argument's bytes before the first NUL. |
| Printk.CharacterShown | kernel/printk.c:62-65 | %c stands for the low byte of the argument. |
| Printk.PercentShown | kernel/printk.c:66-69 | A percent sign before another character stands for itself and takes no argument. |
| Printk.PrintSeven | kernel/printk.c:32-72 | The input: printk of %d with 7 leaves 0x0937 in the first cell. |
| Printk.ExpandConcat | kernel/printk.c:43-69 | The expansion of two formats one after the other is the two expansions, the first taking the first arguments. |
| Printk.TextVerbatim | kernel/printk.c:43-69 | A format without the percent sign is printed as it is. |
| Printk.ExtraArguments | kernel/printk.c:43-69 | Arguments beyond those taken do not matter. |

## Left out

- Finding.CreateThenFindShallow: for depth 3 it asks for a non-empty directory component; a path such as
  `//x` is covered by CreateThenFind and DeepParent.
- Finding.CreateThenFind: the exact condition is given for walks that follow the directory components
  (`Follows`); a walk that strays there is described by WalkExactly. The new name has to be new and taken
  without damage (`Accepts`, exact by InsertTiled).
- Calls.ReachableInv: the calls of the run meet their demands (`CallsFine`): an opened file has direct blocks
  only, a write to an existing file is made at a position in an attached block (elsewhere the code uses whatever the
  unattached pointer holds as a block number), and a parent directory either refuses a new name or has room for
  the record behind its last one (`Roomy`: the scan and the record stay in the block buffer), whether or not the
  last record is damaged by it. Reads change nothing and are not in the run.
- Paging.PmapTranslates: goes one way when a table is missing. Without a fresh table the translation can still
  come out right by coincidence, so the converse is false; PoolRepeatsIff and ReusedTableShared say what happens
  with a table in use, BootMapsIff and BootLands what happens with one that starts inside another. With the upper
  tables present PresentIff is exact.
- BootTables.BootMapsIff: memory outside the boot tables is taken to hold zeros, which matters only where `pmap`
  reads the first megabyte as a table (BootAstray, for the last gigabyte of a 512 GB).
- Paging.Mapper.Map: memory is a function from the address of an entry to its 64-bit word, physical addresses are
  used as pointers as the identity mapping of the kernel makes them, and the flags contain no address bits and
  no page-size bit.
- Kernel.Exercise: stops at the first failing write; the kernel goes on and ignores the error codes.
- Disk access itself (`drivers/ahci`, `drivers/block`, `fs/ext2/device.c`): the disk is an array whose reads and
  writes never fail.
- Stack memory that the C code leaves uninitialised: the path rows, the parent path, and the array of entries at
  the start of each walk are taken to be zeroed. What a walk itself leaves in the array is modelled. The unset
  bytes of a new inode are arbitrary (`junk`).
- Path names and file names are values; the C arrays that hold them, and their aliasing, are modelled for the
  path rows, the parent path and the string helpers only.
- The global current inode after a call that extracts others on the way is unspecified, except where the driver
  itself relies on it.
- The outer loop of `ext2_add_dir_entry` is collapsed: it always returns in the first block.
- Indirect blocks, truncation, deletion and freeing: the repository does not implement them.
- `ext2_change_cwd` and `ext2_init_cwd`: a weaker copy of the path walk.
- Directories with more than 128 entries beyond what the listing and the insertion do with the limit.
- Indices and lengths are unbounded numbers where the C code has 16- or 32-bit counters that stay in range: the
  text counter of `vga_print`, the string and path indices, the block arithmetic of files with direct blocks.
- Writing to the cursor registers: the cursor is a field.
- The VGA clear-screen routine (never called) and the PCI helpers for the AHCI controller.
- `printk` takes arguments of the kinds that its format asks for; what a mismatched `va_arg` reads is undefined in C.
- The boot, interrupt and keyboard code, the ELF loader, the multiboot parser and the `fs/vfs` stubs.
