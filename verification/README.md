# TaterTOS64: ToTFS host tools, EFI image builders and kernel formatter

A Dafny model of four parts of TaterTOS64, with proofs about them:

- the ToTFS extent filesystem as `tools/mktotfs.c` creates it and `tools/totcopy.c` changes it,
- the physical ELF loader and the ramdisk scanner and packer of `src/boot/efi_loader.c`, with the
  kernel's side of the ramdisk in `src/kernel/fs/vfs.c`,
- the GetMemoryMap / ExitBootServices retry loop of the same loader,
- the bounded formatter of `src/kernel/kprint.c`.

`dafny verify dfyconfig.toml` checks everything.

## How it is built

**ToTFS.** A disk is a sequence of 4096-byte blocks. Superblock, inodes, directory records and
bitmaps are bytes on it, laid out as `src/kernel/fs/totfs.h` says (`Bytes`, `Bitmap`, `Volume`,
`Metadata`, `Dirent`, `OnDisk`). `CopySpec` states one run of the tool as a function of the disk, with the disk
as every exit leaves it; `Totcopy` is the tool itself, a class over arrays whose methods are proved
equal to those functions, and `Mktotfs` the formatter. `Invariant.Inv` is what holds of a consistent
image: layout, counters equal to the number of clear bits, consecutive extents that cover what the
size asks for, no block owned twice, directory blocks tiled by their records, entries that name
inodes in use and give their types. A copy is two stages, each of which keeps the invariant: the file (`FileStage`) and the
directory record (`DirStage`). `CopyTheorems`, `CopyResults` and `Runs` state the consequences on
paths and file contents, for one copy, one run and any sequence of runs, successful or failed.
`CopyExact` says exactly when a copy keeps what the image promised, `Space` exactly when it finds room,
`CopyOutcome` exactly which exit it takes.
`Findings` and `Fragmented` hold inputs on which a promise fails.

**Loader.** `ElfFile` ties the headers to the packed structs in the file, `ElfLoader` gives the meaning
of the loaded image byte by byte. `RamdiskScan` scans
arbitrary filesystems under arbitrary allocation failures; `RamdiskPack` packs the list and opens it
again with the kernel's lookup. `ExitBoot` runs the exit loop against an arbitrary sequence of firmware
answers.

**Formatter.** `Kprint` relates the buffer to the text an unbounded buffer would get.

## Promises that do not hold as the code stands

Each comes with a lemma giving the exact condition under which it does hold; most also with a concrete
input on which it fails.

- `tools/totcopy.c:398-407` never checks that the parent it resolved is a directory. A copy to a path
  below a regular file reports success, cannot be found, and always changes what that file reads as,
  provided the file is zero past its end, as every file these tools write is. Isolation holds exactly
  when the parent is a directory: `Runs.RunIsolationIff`, `Runs.AllRunsKeepIff`,
  `CopyExact.StrayCopyChangesParent`, `CopyResults.CopyResolvesIff`, `Findings.FileUsedAsDirectory`.
- A parent path of 256 bytes or more is cut at 255 (`tools/totcopy.c:200-203`), so the file can land in
  another directory: `CopyResults.CopyResolvesIff`, `Findings.DeepDestMisplaced`.
- `name_len` keeps the low 8 bits of the name length (`tools/totcopy.c:232,248,270`): a file copied to a
  longer name is never found under it but under its first length modulo 256 bytes, and names stay unique
  exactly when that prefix was absent: `CopyResults.CopyResolvesIff`, `CopyExact.CopyNamesUniqueIff`,
  `Findings.LongNameLost`, `Findings.LongNameRenamed`, `Findings.LongNameDoubles`.
- When no run of the wanted length is free, `alloc_blocks_contig` is meant to hand out what it found
  (`tools/totcopy.c:115`). It only considers the run that ends at the last block, and gives up when
  that block is used, however much is free elsewhere: `Space.DataSpaceIff`, `Fragmented.FragmentedCopyFails`.
  Such a volume needs something besides these two tools, for instance a system that deletes files: with
  the tools alone the free blocks stay a suffix of the volume and a copy lacks room exactly when it
  needs more blocks than free_blocks says: `Mktotfs.FormattedSpaceIff`.
- The exit "File too fragmented" (`tools/totcopy.c:433-436`) cannot be reached: `Space.NeverTooFragmented`.
- The metadata is meant to end in the first bitmap block (`tools/mktotfs.c:101-102`). This holds exactly
  up to 32701 bitmap blocks, about 4 TiB: `Mkfs.LayoutArithmetic`, `Mkfs.MetadataOutgrowsMap`.
- `blocks_needed` is cut to 32 bits (`tools/totcopy.c:417`): a file reads back exactly up to
  (2^32 - 1) * 4096 bytes: `Runs.RoundTripIff`, `Findings.HugeFileLost`.
- The end address of a segment is computed in 64 bits (`src/boot/efi_loader.c:922`): the image range
  holds every segment exactly when no such sum wraps: `ElfLoader.HullCoversIffNoWrap`, `ElfLoader.WrapExample`,
  and `ElfLoader.WrapWritesOutside` for an image that loads and writes outside its range.
- A packed name is cut to 31 characters (`src/boot/efi_loader.c:820`): the exact condition for opening a
  file under its name is `RamdiskPack.OpenIff`; `RamdiskPack.LongNamesCollide` is a failing pair.
- A too-small answer on the eighth attempt leaves the exit loop without its success break, and the
  kernel is entered with boot services running (`src/boot/efi_loader.c:1199-1224,1261-1266`):
  `ExitBoot.FellThroughIff`, `ExitBoot.FellThroughIsStale`, `ExitBoot.OutgrownExample`.
- The left flag does not left-align numbers (`src/kernel/kprint.c:634-685`): it has that effect exactly
  when there is nothing to pad: `Kprint.LeftFlagOnNumbers`, `Kprint.LeftFlagExample`.

## Model

| member | source | states |
|---|---|---|
| Bytes.UnpackPack | src/kernel/fs/totfs.h:47-98 | storing a packed struct whose values fit and reading it back gives the values |
| Bytes.PackUnpack | src/kernel/fs/totfs.h:47-98 | reading a packed struct leaves every field in range and storing it again restores every byte |
| Bitmap.BitSetBit | tools/totcopy.c:45-51 | setting a bit sets that bit and no other |
| Bitmap.BitWeight | tools/totcopy.c:45-51 | bit i is the binary digit of weight 2^(i mod 8) in byte i / 8, and setting a clear one adds that weight |
| Bitmap.AllocIsFirstFit | tools/totcopy.c:95-126 | for every bitmap and positive count the scan returns the lowest free run of that length, else the maximal free run ending at the volume's end, else nothing |
| Bitmap.AllocFailsIff | tools/totcopy.c:95-126 | the allocator gives up exactly when no full run is free and the volume's last block is used |
| Bitmap.CountSetRun | tools/totcopy.c:104-107 | marking a free run lowers the number of clear bits by its length |
| Volume.DecodeEncodeSb | src/kernel/fs/totfs.h:47-67 | the superblock survives being stored and loaded |
| Volume.DecodeEncodeInode | src/kernel/fs/totfs.h:75-90 | an inode survives being stored and loaded |
| Volume.FitsIff | src/kernel/fs/totfs.h:75-90 | an inode can be stored exactly when every field is within its C type |
| OnDisk.SuperblockFields | src/kernel/fs/totfs.h:47-67 | each superblock field is the little-endian number at the offset the header file gives |
| OnDisk.InodeFieldsAt | src/kernel/fs/totfs.h:75-90 | the same for the fields of an inode |
| OnDisk.ExtentFieldsAt | src/kernel/fs/totfs.h:69-73 | the same for each of its ten extents |
| OnDisk.RecordBytes | src/kernel/fs/totfs.h:92-98 | a stored directory record is the packed header followed by the name |
| Metadata.ReadWritten | tools/totcopy.c:53-68 | an inode written to the table is read back |
| Metadata.ReadOther | tools/totcopy.c:53-68 | writing one inode leaves every other inode of the table unchanged |
| Metadata.LoadFlush | tools/totcopy.c:480-495 | flush then load restores superblock and both bitmaps exactly and leaves inode table and data blocks alone |
| Metadata.MapBlocksCases | tools/totcopy.c:484-485 | how many bitmap blocks are cached: at least one, at most 64, and none for a count of 2^32 |
| Dirent.FindIsMapLookup | tools/totcopy.c:140-157 | the first-match record walk is lookup in a map keyed by case-folded names |
| Dirent.NameEqIff | tools/totcopy.c:128-137 | names are equal exactly when they have the same length and differ at most in the case of ASCII letters |
| Dirent.PlaceInserts | tools/totcopy.c:224-255 | reused slot or split slack, at whatever record: the block stays tiled and its walk gains exactly the new entry, at the position of the first slot that fits |
| Dirent.PlaceChanges | tools/totcopy.c:224-255 | no block of any contents that is zero from some byte on takes a record without changing a byte before it |
| Dirent.HasSlotIff | tools/totcopy.c:224-255 | a tiled block takes a record exactly when some record of its walk is free and long enough or has enough slack behind its name |
| Dirent.FirstSlot | tools/totcopy.c:224-255 | the place chosen is the first such record, and this fixes the position of the new entry |
| Dirent.PlacedRecords | tools/totcopy.c:224-255 | the records after an insertion start where they did before, with one more right behind the header and name of the first record with room, unless that was a free record, which is reused whole |
| Dirent.FreshBlockTiled | tools/totcopy.c:265-273 | a fresh directory block is tiled and holds just the new entry |
| Dirent.TiledWalkEnds | tools/totcopy.c:146-153 | in a tiled block every record walk ends exactly at the block end |
| Extents.GatherWritten | tools/totcopy.c:449-463 | data written over any distinct blocks is read back from them, as far as they reach |
| Extents.WrittenZeroPast | tools/totcopy.c:449-463 | a written file is zero past its end |
| Extents.PlaceInInserts | tools/totcopy.c:217-257 | the search over all extents and blocks inserts one entry into the directory, at the first slot, and keeps every block tiled |
| Extents.HasSlotInIff | tools/totcopy.c:217-257 | a directory has a slot exactly when one of its blocks has |
| Alloc.AllocExtentsClaims | tools/totcopy.c:427-447 | the extent loop covers exactly the blocks asked for with consecutive extents, takes free, distinct data blocks and changes no other bit |
| Alloc.AllocInodeIff | tools/totcopy.c:70-80 | an inode is found exactly when one from 2 on is free; it is the lowest, and no other bit changes |
| Alloc.AllocBlockIff | tools/totcopy.c:82-92 | a block is found exactly when a data block is free; it is the lowest |
| Alloc.AllocRunIsFirstFit | tools/totcopy.c:95-126 | the run taken is the first fit between data_start and total_blocks |
| Alloc.CounterStep | tools/totcopy.c:107 | the 64-bit counter after a subtraction, plus what was subtracted, is the counter before |
| Space.DataSpaceIff | tools/totcopy.c:427-447 | for every bitmap the extent loop succeeds exactly when there is a free run of n blocks, or the run at the volume's end and a run below it for the rest; it then uses at most two extents |
| Space.NeverTooFragmented | tools/totcopy.c:432-436 | the loop never comes to its eleventh extent |
| Space.CopyLacksSpaceIff | tools/totcopy.c:393-447 | a copy fails for lack of data space exactly when it passes its checks, gets an inode and the bitmap has no such space |
| Space.CopyKeepsSuffix | tools/totcopy.c:82-126 | a copy, whatever its parent, leaves the free blocks a suffix of the volume if they were one |
| Space.RunSpaceIff | tools/totcopy.c:393-447 | while the free blocks are a suffix, a run lacks data space exactly when it needs more blocks than free_blocks says |
| Paths.ResolveIsLookupInParent | tools/totcopy.c:160-207 | a path with a last component resolves to that name looked up in its parent, whatever repeated or leading slashes it has |
| Paths.ResolveSlashes | tools/totcopy.c:160-183 | a path of slashes is the root and the empty path is nothing |
| Paths.TrailingSlash | tools/totcopy.c:160-183 | a trailing slash changes nothing |
| Paths.SplitCases | tools/totcopy.c:186-207 | a parent path is kept up to 255 bytes and cut there; a name with at most a leading slash has the root as its parent |
| Invariant.InvFrame | tools/totcopy.c:31-68 | a disk that agrees on everything in use satisfies the same invariant |
| FileStage.FileStageStores | tools/totcopy.c:413-466 | after data and inode are written the invariant holds for the larger state, everything in use before reads the same, and the new inode holds the data |
| DirStage.AddDirentInserts | tools/totcopy.c:210-284 | through all placements, a successful insertion keeps the invariant, adds exactly one entry and changes no other inode or its blocks |
| CopyTheorems.AddDirentIsMapUpdate | tools/totcopy.c:210-284 | inserting an absent name is a map update of that directory, every other directory keeps its map, names stay unique ignoring case |
| CopyOutcome.AddDirentIff | tools/totcopy.c:210-284 | insertion succeeds exactly when some block has a slot, or fewer than 10 extents are used and a data block is free; it runs out of extents exactly when there is no slot and 10 are used, and out of space exactly when there is no slot, fewer are used and no block is free |
| CopyOutcome.DirSlotIff | tools/totcopy.c:217-257 | in a consistent image a directory has a slot exactly when some record of some block has room |
| CopyOutcome.CopyOutcomeIff | tools/totcopy.c:363-476 | a copy succeeds, or fails at a given exit, exactly as the first unmet one of these says: base name, parent, absent name, free inode, data space, slot or fewer than 10 extents, slot or a block left after the data; failures up to the data leave the image untouched |
| CopyOutcome.LateFailureWrites | tools/totcopy.c:449-469 | the two failures behind the data leave the whole file on the disk, in the lowest free inode, which stays marked free |
| CopyResults.CopyLookups | tools/totcopy.c:363-476 | after a copy below any parent every lookup in every directory answers as before, except the stored name in a parent directory where no earlier entry has it |
| CopyExact.CopyInvIff | tools/totcopy.c:363-476 | a copy keeps the invariant exactly when its parent is a directory, or the file taken for one has a slot in its bytes, or that file's last block is full |
| CopyExact.CopyNamesUniqueIff | tools/totcopy.c:210-284 | names stay unique exactly when no entry of the parent directory has the name as it is stored |
| CopyExact.CopyKeepsPathsIff | tools/totcopy.c:363-476 | every path that resolved keeps its inode exactly when the new record hides no entry |
| CopyExact.StrayCopyChangesParent | tools/totcopy.c:398-469 | a copy below a file of whatever size that is zero past its end changes what that file reads as, and makes it 4096 bytes longer if no slot was found in it |
| CopyExact.CopyKeepsSealed | tools/totcopy.c:413-469 | a copy into a directory keeps every file zero past its end, the new one included |
| CopyResults.CopyUses | tools/totcopy.c:70-80 | a copy below any parent puts exactly one more inode to use |
| CopyResults.CopyKeepsData | tools/totcopy.c:363-476 | whatever the parent, every inode in use other than it keeps its fields and bytes |
| CopyResults.CopyKeepsPaths | tools/totcopy.c:363-476 | whatever the parent, a path leads where it led before, nowhere, or to the copied file; it keeps its inode unless the new record hides an entry |
| CopyResults.CopiedFile | tools/totcopy.c:413-469 | whatever the parent, the new inode is a plain file of the copied size holding the copied data as far as its blocks reach, and zeros behind |
| CopyResults.CopiedAttributes | tools/totcopy.c:420-447 | the new inode has mode 644, one link, the blocks its size asks for and zeros in the other fields |
| CopyResults.CopyCounters | tools/totcopy.c:70-126 | a copy takes exactly one inode and the blocks of the file, plus at most one directory block; no counter wraps |
| CopyResults.FailedCopyAgrees | tools/totcopy.c:393-469 | on every failing exit the on-disk superblock and bitmaps are untouched and everything in use reads the same |
| CopyResults.CopyResolvesIff | tools/totcopy.c:388-469 | a successful copy is found under its destination exactly when its parent is a directory, the parent path was not cut to another one, and the name has at most 255 bytes |
| Runs.FlushedImage | tools/totcopy.c:480-495 | flushing a consistent state gives a consistent image that loads as that state |
| Runs.AbortedRunInvisible | tools/totcopy.c:539-541 | a run that fails at any exit leaves an image that loads the same metadata, is consistent, and answers every read as before |
| Runs.RunImageIff | tools/totcopy.c:516-541 | a successful run keeps the image consistent exactly under the condition of CopyInvIff |
| CopyOutcome.RunOutcomeIff | tools/totcopy.c:516-541 | a run on a consistent image succeeds or aborts exactly as the copy on its loaded metadata |
| CopyOutcome.NotTotfsIff | tools/totcopy.c:516-524 | a run refuses the image, untouched, exactly when the magic is wrong |
| Runs.GetIff | tools/totcopy.c:331-342 | reading out answers not-found exactly for a path that leads nowhere, is-a-directory exactly for a directory, and the bytes otherwise |
| Runs.GetRoot | tools/totcopy.c:160-163 | any number of slashes reads as a directory and the empty path as not found |
| Runs.RunUniqueIff | tools/totcopy.c:516-541 | a run into a directory keeps the names unique exactly when the stored name was absent there |
| Runs.RunIsolationIff | tools/totcopy.c:331-476 | a successful run leaves every path that answered with its inode and its answer exactly when the parent is a directory and no entry is hidden; for names of at most 255 bytes the answers are kept exactly when the parent is a directory |
| Runs.RunNewPaths | tools/totcopy.c:160-183 | whatever the parent, after a run a path leads where it led before, nowhere, or to the copied file |
| Runs.RoundTripIff | tools/totcopy.c:331-476 | for every byte string, destination and fragmentation in which the copy succeeds, the destination is the copied file and reads back its bytes exactly when the parent is a directory, was not cut to another one, the name has at most 255 bytes and the block count fits 32 bits |
| Runs.AllRunsKeep | tools/totcopy.c:499-550 | after any sequence of runs whose successful copies were well aimed the image is consistent, names are unique, files are zero past their ends and every path that answered gives the same answer |
| Runs.AllRunsKeepIff | tools/totcopy.c:499-550 | for any sequence of runs, every run keeps the names unique and every answer exactly when every successful copy was well aimed: into a directory in which the stored name was absent |
| Runs.AllCopiesReadBack | tools/totcopy.c:331-541 | every file copied at any point of a sequence of runs, within the size and path limits above, reads back its bytes at the end |
| Mkfs.LayoutArithmetic | tools/mktotfs.c:39-54 | the volume is the whole blocks of the partition; with 32-bit block numbers, for every accepted partition the regions are in order, inside the volume and marked in one bitmap block exactly up to 32701 bitmap blocks; never more bitmap blocks than needed, and at most 64 for what the copy tool can cache |
| Mkfs.MetadataOutgrowsMap | tools/mktotfs.c:101-105 | one block more and the root directory's bit lies outside the first bitmap block |
| Mkfs.AcceptedIff | tools/mktotfs.c:39-60 | with one bitmap block, a partition is accepted exactly when it has 69 blocks |
| Mkfs.FormatIsImage | tools/mktotfs.c:62-164 | formatting gives a consistent image with unique names, whose root holds "." and ".." |
| Mkfs.FormatSuperblock | tools/mktotfs.c:62-89 | the bytes of the written superblock, field by field: magic, version, sizes, counts, region starts, label |
| Mkfs.FormatRootInode | tools/mktotfs.c:122-139 | the root inode is a directory of one block with mode 755 and two links |
| Mkfs.FormatTable | tools/mktotfs.c:116-139 | every other inode of the table is zero, whatever was there |
| Mkfs.FormatElsewhere | tools/mktotfs.c:62-164 | no block behind the root block is written |
| Mkfs.FormatSealed | tools/mktotfs.c:116-139 | a fresh image has no file that is non-zero past its end |
| Mkfs.FormatFreeCount | tools/mktotfs.c:69-114 | free_blocks is the number of clear bits on disk for any number of bitmap blocks, while the metadata ends in the first |
| Mkfs.RootBlockEntries | tools/mktotfs.c:141-164 | the root block is tiled and a record walk finds exactly "." and "..", both the root inode |
| Mktotfs.FormatTool | tools/mktotfs.c:29-178 | the program refuses a partition that is too small and otherwise writes exactly the formatted image |
| Mktotfs.FormattedRuns | tools/mktotfs.c:29-178 | from any formatted partition, after any sequence of well-aimed copies, the image is consistent, names are unique, files are zero past their ends and no block is held twice |
| Mktotfs.FormattedRunsIff | tools/mktotfs.c:29-178 | from any formatted partition, every copy of a sequence keeps the names unique and every answer exactly when every successful one was well aimed |
| Mktotfs.FormattedSpaceIff | tools/totcopy.c:393-447 | from any formatted partition, after any such sequence, a copy lacks data space exactly when it needs more blocks than free_blocks says |
| Mktotfs.FormattedCopyIff | tools/totcopy.c:363-476 | from any formatted partition, after any such sequence, exactly when a copy succeeds, in terms of path, names, free inodes, free_blocks and the room in the parent |
| Mktotfs.OneOwner | tools/totcopy.c:70-126 | every block of every inode in use is a data block marked used and belongs to one position of one inode |
| Totcopy.NamesEqual | tools/totcopy.c:128-137 | the comparison loop decides equality ignoring ASCII case |
| Totcopy.SplitPath | tools/totcopy.c:186-207 | the program computes the cut parent and the base name |
| Totcopy.FindInBlock | tools/totcopy.c:145-153 | the walk over one block finds the first live entry of that name |
| Totcopy.PlaceInBuffer | tools/totcopy.c:220-255 | editing the block buffer in place gives the block with the record placed, or leaves it alone |
| Totcopy.Tool.ReadInodeAt | tools/totcopy.c:53-59 | yields the inode the table holds |
| Totcopy.Tool.WriteInodeAt | tools/totcopy.c:61-68 | stores it, leaving the rest of the image alone |
| Totcopy.Tool.TakeInode | tools/totcopy.c:70-80 | takes the lowest free inode from 2 on, or nothing |
| Totcopy.Tool.TakeBlock | tools/totcopy.c:82-92 | takes the lowest free data block, or nothing |
| Totcopy.Tool.TakeRun | tools/totcopy.c:95-126 | takes the run the first-fit scan finds, changing only its bits and the counter |
| Totcopy.Tool.LookupName | tools/totcopy.c:140-157 | the nested extent, block and record loops compute the directory lookup |
| Totcopy.Tool.ResolveInode | tools/totcopy.c:160-183 | the component loop computes path resolution |
| Totcopy.Tool.ReadExtents | tools/totcopy.c:346-355 | the read loop yields the file's contents |
| Totcopy.Tool.GetFile | tools/totcopy.c:331-359 | reading out gives the bytes, not-found or is-a-directory as the image says |
| Totcopy.Tool.PlaceInDirectory | tools/totcopy.c:217-257 | the search over extents and blocks writes back the one block that took the record, or nothing |
| Totcopy.Tool.InsertRecord | tools/totcopy.c:210-284 | the program adds the record, growing the directory if it must, or fails leaving the image alone |
| Totcopy.Tool.TakeExtents | tools/totcopy.c:427-447 | the loop builds the extent list or fails |
| Totcopy.Tool.WriteFileData | tools/totcopy.c:449-463 | the loop stores every padded chunk on its block |
| Totcopy.Tool.CopyFile | tools/totcopy.c:363-476 | the program's effect on image and cached metadata at every exit is that of the copy function |
| Totcopy.Tool.FlushMetadata | tools/totcopy.c:480-495 | writes both bitmaps and the superblock and nothing else |
| Totcopy.Tool.LoadMetadata | tools/totcopy.c:516-533 | checks the magic and loads superblock and bitmaps |
| Totcopy.CopyTool | tools/totcopy.c:499-550 | a whole run: load, copy, flush only on success |
| Findings.HugeFileLost | tools/totcopy.c:417-447 | a file of 2^44 bytes is copied with success and reads back empty |
| Findings.DeepDestMisplaced | tools/totcopy.c:199-206 | a destination with a long run of slashes lands in the root directory |
| Findings.LongNameLost | tools/totcopy.c:232-234 | a file copied to a name of 256 bytes is not found |
| Findings.LongNameRenamed | tools/totcopy.c:232-250 | on every fresh volume a file copied to a name of 257 bytes appears under its first byte |
| Findings.LongNameDoubles | tools/totcopy.c:232-250 | on every fresh volume a file copied to a name of 257 bytes that starts with a dot becomes a second entry "." of the root |
| Findings.EmptyFileOverwritten | tools/totcopy.c:398-411 | a copy below an empty file turns that file into a block of directory records |
| Findings.FileUsedAsDirectory | tools/totcopy.c:398-411 | on every fresh volume with a free block, copying /f and then /f/x succeeds twice, changes /f and loses /f/x |
| Fragmented.FragmentedCopyFails | tools/totcopy.c:95-126 | for every volume with five data blocks there is a consistent image, with a file /f, on which a run that needs exactly the blocks counted as free fails for lack of space |
| ElfLoader.HullCoversIffNoWrap | src/boot/efi_loader.c:916-926 | the image range holds every load segment exactly when no end address wraps |
| ElfLoader.HullLeast | src/boot/efi_loader.c:916-926 | no smaller page-aligned range holds all load segments |
| ElfLoader.HullAttained | src/boot/efi_loader.c:916-926 | both ends of the range are ends of load segments, or it is the empty range |
| ElfLoader.HullBadIff | src/boot/efi_loader.c:918-920 | the headers are refused exactly when a load segment has more file bytes than memory |
| ElfLoader.HullUsableIff | src/boot/efi_loader.c:927 | the range is accepted exactly when some load segment starts on a page below the end page of some load segment |
| ElfLoader.InSegmentIff | src/boot/efi_loader.c:858-862 | an address is in a segment exactly when it lies between start and end of a load segment whose end does not wrap |
| ElfLoader.TranslatedIff | src/boot/efi_loader.c:855-865 | an address is translated exactly when such a segment holds it, by the first that does, with its distance from the segment start kept; else the answer is 0 |
| ElfFile.ReadSegment | src/boot/efi_loader.c:273-282 | a packed program header is read as itself |
| ElfFile.ReadElf | src/boot/efi_loader.c:256-282 | for any ELF file the headers read are those packed at e_phoff, and it is accepted exactly with the magic and 56-byte entries |
| ElfFile.KernelLayout | kernel_linker.ld:3-34 | a file with the boot and text segments of the linker script, of any sizes: the image starts at 32 MiB, every text address translates to its place above 34 MiB, and boot addresses to themselves |
| ElfLoader.CopiedByte | src/boot/efi_loader.c:941-944 | every byte comes from the last segment whose file part holds it, else it is as before, for overlapping segments too |
| ElfLoader.ImageMeaning | src/boot/efi_loader.c:855-865 | with disjoint segments the byte at a translated address is the segment's file byte, or zero past the file part |
| ElfLoader.ImageElsewhere | src/boot/efi_loader.c:939-944 | other bytes of the range are zero and bytes outside it are kept |
| ElfLoader.ComputeHull | src/boot/efi_loader.c:916-926 | the loop computes the page-aligned range or refuses a file part larger than its segment |
| ElfLoader.LoadKernel | src/boot/efi_loader.c:910-946 | the program accepts and refuses as the headers say, leaves memory alone on refusal and exactly the loaded image otherwise; the granted range holds every segment exactly when no end address wraps |
| ElfLoader.TranslateVa | src/boot/efi_loader.c:855-865 | the program computes the translation |
| ElfLoader.WrapExample | src/boot/efi_loader.c:922 | a well-formed segment that ends at the top of the address space is refused |
| ElfLoader.WrapWritesOutside | src/boot/efi_loader.c:922-944 | two segments that load with success, the second one copied to memory outside the granted range |
| RamdiskScan.JoinIsChild | src/boot/efi_loader.c:622-657 | a child's stored name is its directory's name, a slash and its own name |
| RamdiskScan.UnixNameRecovers | src/boot/efi_loader.c:644-657 | an ASCII path that fits is stored without loss |
| RamdiskScan.UnixNameAt | src/boot/efi_loader.c:644-657 | the stored name of any path, character by character, cut to 127 |
| RamdiskScan.StripIff | src/boot/efi_loader.c:644-648 | only leading separators, of either kind, are dropped |
| RamdiskScan.PathAppendIff | src/boot/efi_loader.c:622-642 | which path is built, and that it fails exactly when it would not fit |
| RamdiskScan.ShouldLoadIff | src/boot/efi_loader.c:606-620 | a file is a payload exactly when its name ends in one of 13 suffixes, in any mixture of cases |
| RamdiskScan.ScanVolumesGood | src/boot/efi_loader.c:659-788 | over any volumes and any allocation failures names stay distinct ignoring case, count is within a capacity that is 32 doubled some times, the total is the sum of sizes, and every entry is some file's content |
| RamdiskScan.ScanDirGood | src/boot/efi_loader.c:724-770 | a directory scan keeps earlier entries and the invariant, for any listings, cyclic ones included |
| RamdiskScan.PayloadListed | src/boot/efi_loader.c:704-788 | if growth is never denied, every readable payload file a scanned place leads to within the depth bound is listed |
| RamdiskScan.OnlyPayload | src/boot/efi_loader.c:704-788 | under any allocation failures, only payload files a scanned place leads to within the depth bound are listed |
| RamdiskScan.ListedIff | src/boot/efi_loader.c:704-788 | if growth is never denied, a name is listed exactly when it is, ignoring case, the stored name of such a file |
| RamdiskScan.ListingOrder | src/boot/efi_loader.c:742-766 | entries of a directory are taken in their order |
| RamdiskScan.PlaceOrder | src/boot/efi_loader.c:772-788 | places are scanned in their order, the root first |
| RamdiskScan.VolumeOrder | src/boot/efi_loader.c:1092-1137 | volumes are scanned in their order: what the first ones give stands first |
| RamdiskScan.SevenPlacesAre | src/boot/efi_loader.c:772-788 | the seven places and which of them are scanned with all below |
| RamdiskScan.DotsSkipped | src/boot/efi_loader.c:724-766 | nameless entries, "." and ".." are passed over |
| RamdiskScan.DepthLimit | src/boot/efi_loader.c:724-742 | directories are scanned to depth 16 and not below |
| RamdiskScan.AppendPath | src/boot/efi_loader.c:622-642 | the child path is built exactly when it fits its 260-element buffer with its terminator |
| RamdiskScan.FileList.Has | src/boot/efi_loader.c:659-665 | decides whether a name is listed, ignoring case |
| RamdiskScan.FileList.Grow | src/boot/efi_loader.c:667-682 | growing doubles the capacity and keeps every entry, or changes nothing |
| RamdiskScan.FileList.AddFile | src/boot/efi_loader.c:684-702 | adding appends one entry, growing if needed |
| RamdiskScan.FileList.TryLoadFile | src/boot/efi_loader.c:704-722 | a file is added unless its name is empty, present or unreadable |
| RamdiskScan.FileList.ScanDirectory | src/boot/efi_loader.c:724-770 | the recursive scan computes the scan function and ends by its depth bound |
| RamdiskScan.FileList.ScanFilesystem | src/boot/efi_loader.c:772-788 | the seven places are scanned in order |
| RamdiskPack.PackFaithful | src/boot/efi_loader.c:790-835 | each of the first 256 files has its entry, with its cut name, its bytes, and the offset that the sizes before it give; the count is the number of files, at most 256 |
| RamdiskPack.TakenFiles | src/boot/efi_loader.c:801 | the first 256 files are taken |
| RamdiskPack.PackedBytes | src/boot/efi_loader.c:801-811 | ramdisk_size is header and file bytes together, and the pages hold just that |
| RamdiskPack.PackContiguous | src/boot/efi_loader.c:811-830 | entries are contiguous from the end of the header to ramdisk_size |
| RamdiskPack.PackLayout | src/boot/efi_handoff.h:25-38 | header and entry are the packed structs, the name zero-padded to 32 bytes |
| RamdiskPack.PackRestZero | src/boot/efi_loader.c:811-830 | unused entries and the rest of the last page are zero |
| RamdiskPack.PackMounts | src/kernel/fs/vfs.c:374-389 | every packed ramdisk is accepted by the kernel's header check |
| RamdiskPack.MountedInside | src/kernel/fs/vfs.c:374-389 | a header the kernel accepts has the magic, 1 to 256 entries, and each names a slice behind the header and inside the ramdisk |
| RamdiskPack.OpenIff | src/kernel/fs/vfs.c:236-250 | the kernel opens a file under its scanned name exactly when the name fits and no earlier file has it as cut name |
| RamdiskPack.OpenNoneIff | src/kernel/fs/vfs.c:236-250 | in any ramdisk a path is not found exactly when no entry has that name ignoring case; leading slashes do not count |
| RamdiskPack.AllNamesOpen | src/kernel/fs/vfs.c:236-250 | when all names fit, every file of the list, up to the 256th, is opened under its name |
| RamdiskPack.ScannedFilesOpen | src/boot/efi_loader.c:1092-1167 | from scan to kernel: the ramdisk mounts and every scanned name, up to the 256th, gives its file's bytes |
| RamdiskPack.LongNamesCollide | src/boot/efi_loader.c:820-824 | two libraries in the root of a volume whose 32-byte names differ in the last byte: the loader scans and packs both, and the kernel opens neither under its name |
| RamdiskPack.PackInto | src/boot/efi_loader.c:790-835 | the program leaves exactly the packed ramdisk in its pages |
| ExitBoot.FreshMapAtExit | src/boot/efi_loader.c:1199-1260 | after the success break the handoff describes the buffer holding the map whose key was accepted and current, within its allocation |
| ExitBoot.OutcomeIff | src/boot/efi_loader.c:1199-1260 | the exact firmware answers under which the kernel is entered, and under which each of the four deaths is died |
| ExitBoot.EnteredHandoff | src/boot/efi_loader.c:1231-1247 | on entry the handoff is that of the accepted attempt: the last buffer granted before it, its map size and descriptor size, and the 4 GiB limit |
| ExitBoot.FirstTry | src/boot/efi_loader.c:1169-1266 | the ordinary boot: an accepted first attempt enters the kernel with its map |
| ExitBoot.BootIff | src/boot/efi_loader.c:1169-1266 | with the sizing call and the first buffer, exactly when the kernel is entered after the success break, and exactly when the sizing call is fatal |
| ExitBoot.GrowthSuffices | src/boot/efi_loader.c:1209-1215 | a grown buffer is too small again only if the map grew by more than 16 descriptors |
| ExitBoot.FellThroughIff | src/boot/efi_loader.c:1199-1266 | the loop runs out exactly when all attempts were retries and the eighth was a too-small buffer |
| ExitBoot.FellThroughIsStale | src/boot/efi_loader.c:1199-1266 | then the handoff is as it was before the loop, or describes the buffer and the map of an attempt whose key was rejected |
| ExitBoot.OutgrownLoop | src/boot/efi_loader.c:1209-1224 | firmware with 48-byte descriptors and fresh pages for each request, whose map outgrows every buffer, conforms and leads there with the handoff untouched |
| ExitBoot.OutgrownExample | src/boot/efi_loader.c:1199-1266 | such a run from a first map of 100 descriptors: the kernel is entered with no memory map in the handoff |
| ExitBoot.BootExit.Exit | src/boot/efi_loader.c:1199-1260 | the program's outcome and handoff are those of the loop function |
| ExitBoot.BootKernel | src/boot/efi_loader.c:1169-1266 | the program from the sizing call on has the outcome of the boot function |
| Kprint.NumeralValue | src/kernel/kprint.c:579-597 | a numeral denotes its argument |
| Kprint.NumeralCanonical | src/kernel/kprint.c:579-597 | it is made of the digits of its base and case, without leading zero |
| Kprint.NumeralUnique | src/kernel/kprint.c:579-597 | it is the only string of such digits without leading zero that does |
| Kprint.NumeralFits | src/kernel/kprint.c:579-597 | 64-bit values fit the 32-byte scratch in base 10 and 16 |
| Kprint.ParseWritten | src/kernel/kprint.c:623-651 | a directive written with flags, width, none, one or two length letters and conversion is parsed as itself inside any format |
| Kprint.ParseSpelled | src/kernel/kprint.c:626-651 | so is one with its flags repeated, in any order and with flags that have no meaning |
| Kprint.ParseCut | src/kernel/kprint.c:624-651 | where a format ends after the percent sign or a length letter the parse ends, and after flags or width it overruns |
| Kprint.PaddedNumber | src/kernel/kprint.c:601-614 | a padded number is exactly as wide as asked or as long as it needs; zeros stand behind the sign and keep the magnitude, blanks stand in front of the sign |
| Kprint.ZeroPadValue | src/kernel/kprint.c:608-613 | zero padding does not change the number |
| Kprint.AlignedText | src/kernel/kprint.c:653-672 | text is blank-padded to its width on the side the flag leaves free |
| Kprint.NumberText | src/kernel/kprint.c:673-691 | what d, i, u, x and X print: the canonical digits of the argument's magnitude, in base 10, or 16 in the right case, with sign, padded to the width with zeros or blanks |
| Kprint.PointerText | src/kernel/kprint.c:692-700 | p prints 0x and the canonical lower-case base 16 digits of its argument, without padding |
| Kprint.TextText | src/kernel/kprint.c:653-672 | s and c print the text, (null) for a null pointer, padded to the width on the side the flag leaves free |
| Kprint.LiteralOutput | src/kernel/kprint.c:618-622 | text in front of the first percent sign is printed as it is, in front of whatever the rest prints |
| Kprint.LiteralFormat | src/kernel/kprint.c:618-625 | a format without percent sign prints itself, and a trailing percent sign prints nothing |
| Kprint.DirectiveOutput | src/kernel/kprint.c:616-707 | a format prints its literal start, one argument as its first directive says, and then what the rest prints with the other arguments |
| Kprint.PlainOutput | src/kernel/kprint.c:701-704 | %% prints a percent sign and an unknown conversion nothing; neither takes an argument |
| Kprint.HexExample | src/kernel/kprint.c:686-691 | %x with 255 prints ff |
| Kprint.LeftFlagOnNumbers | src/kernel/kprint.c:634-685 | for every numeric conversion and argument the flag still gives right alignment, which is left alignment exactly when the width leaves nothing to pad |
| Kprint.LeftFlagExample | src/kernel/kprint.c:623-685 | the format %-2u with 7 gives a blank and then the digit |
| Kprint.NumberToString | src/kernel/kprint.c:579-597 | the scratch and reverse loops compute the numeral |
| Kprint.ParseDirective | src/kernel/kprint.c:626-651 | the flag, width and length loops compute the directive and where it ends |
| Kprint.EmitNumber | src/kernel/kprint.c:601-614 | emits as much of the padded number as fits |
| Kprint.EmitAligned | src/kernel/kprint.c:653-672 | emits as much of the aligned text as fits |
| Kprint.FormatInto | src/kernel/kprint.c:616-707 | the buffer gets the first bufsz - 1 characters of the unbounded text and a terminator, and nothing past bufsz is written |

## Left out

- Host files, argument parsing, seeks, short reads and `--list`: the image is an array of blocks, a block past its end reads as zeros, and a write past its end is dropped.
- Totcopy.CopyTool: asks that the 64-block bitmap cache covers the volume (`Addressable`), since beyond it the program indexes past the cache.
- Mktotfs.FormatTool: asks that the metadata ends in the first bitmap block, since beyond it the program marks bits past its buffer; `Mkfs.LayoutArithmetic` says which partition sizes these are.
- Runs.RunIsolationIff: asks for a file below 2^63 bytes and a name of at most 4088 bytes, since a longer one overruns the program's block buffer, and for an image whose files are zero past their ends. Formatting gives such an image and every well-aimed run keeps it so; a file that is not zero past its end can take a record there without a change to what it reads as.
- Runs.AllRunsKeep: asks that successful copies were well aimed; `Runs.AllRunsKeepIff` shows that this is exact.
- Runs.AllCopiesReadBack: asks in addition for the limits of `Runs.RoundTripIff`.
- Dirent.PlaceInserts: speaks of tiled blocks and of names of at most 4088 bytes. The needed length is 16-bit as in the program; on a block that is no directory, and for longer names, the program may go past its block buffer, and the model cuts such accesses at the block end.
- Totcopy.PlaceInBuffer: cuts such accesses in the same way.
- Inodes whose extent_count exceeds 10: the model reads the ten extents there are.
- Power loss between the block writes of one run.
- Permissions, timestamps and link counts: their stored values are stated, and neither program gives them further meaning.
- ElfLoader.LoadKernel: asks that the header table and file parts lie in the file, which the program does not check, and that granted pages and the places file parts go to are memory.
- RamdiskScan.ScanVolumesGood: a directory listing is a given sequence and reading a file gives the same answer each time; the growing of the directory-read buffer and read errors in mid-listing are not modelled.
- RamdiskPack.PackFaithful: asks that the packed size is below 2^64.
- The kernel's ramdisk directory listing, stat and seek.
- The symbol lookup, graphics mode, console output and the other stages of `efi_main`.
- ExitBoot.FreshMapAtExit: the firmware is assumed to keep its side of sections 7.2.3 and 7.4.6 of the UEFI Specification; maps are identified by key and sizes, their descriptors are not modelled, and sizes are unbounded integers.
- Kprint.FormatInto: formats that end inside a directive's flags or width make the program step over the terminator and are excluded, as are arguments that do not match; widths are unbounded integers, and arguments are taken as already widened to 64 bits.
- The terminal, escape sequences and serial output of `kprint.c`, and the kernel's own ToTFS driver.
