# RinkOS: file system, heap and scheduler

A Dafny model of three parts of the RinkOS kernel, with proofs about them.

- **RinkFS16** (`kernel/fs.c`), a FAT16-like file system of files and nested directories on 512-byte sectors:
  two mirrored FAT copies, a root directory cached in memory and written through, subdirectories that grow,
  path walking, and a current directory with a text to show for it. A disk is an array of sectors. The classes
  `Volume`, `DirStore` and `FileSystem` hold it, the cached root and the current directory, and update them in
  place with the loops of the source. Each call is proved to do what a step relation over an abstract tree of
  directories and files says (module `Calls`), and the properties are proved about those relations.
- **The heap** (`kernel/mm.c`), a first-fit allocator with headers in place. `Heap` works on an array of 32-bit
  words; `Blocks` has the block list the headers spell.
- **The task table** (`kernel/task.c`), a round-robin scheduler. `Scheduler` holds the table and takes its
  stacks from a `Heap`.

## How it fits together

| file | content |
|---|---|
| `Types`, `Layout`, `Codec` | machine values, the areas of the volume, bytes of FAT cells and directory entries |
| `Chains`, `Volume` | the FAT as a partition into chains; the class that reads and writes it |
| `Names`, `Images`, `Paths`, `PathTexts` | 8.3 names, the abstract tree and what makes it sound, walking, the text |
| `Sectors`, `Mounts`, `Growth`, `Directories` | tree against disk; the directory iterator, scan, growth; the file loops |
| `Calls`, `FileSystem` | the step relation of each public call; the class that carries them out |
| `Soundness`, `Keeping`, `Runs`, `Ownership` | what every call and every run keeps |
| `Exactness`, `Folding` | when each call succeeds and what it takes, slot by slot; letter case |
| `Reading`, `Effects`, `Survival`, `CwdText` | what paths read before and after; the text of the current directory |
| `Witnesses` | inputs on which the code does not do what one expects |
| `Blocks`, `Heap` | the heap |
| `Tasks` | the scheduler |

`Sound` says that directories form a tree under the root with "." and ".." right, that each chain has exactly one
live entry that owns it, that a file's chain has ceil(size/512) clusters and none when the size is 0, and that names
in a directory are unique. `DirStore.Valid` says that memory and disk agree with the tree: mirrored FATs, acyclic
chains that cover exactly the non-free clusters, cached root equal to the root sectors.

## Where the code does not do what its documentation or callers expect

Module `Witnesses` has an input for each of the first four, starting from a fresh volume.

- A name that starts with byte 0xE5 reads as deleted. `fs_mkdir` and `fs_rename` then lose clusters
  (`Keeping.MkdirKeeps`, `Keeping.RenameKeeps` say exactly when); `fs_create` reports a file nobody finds
  (`Effects.CreateThenRead`).
- A leaf that is empty, "." or ".." is looked up as a name of eleven spaces, so `fs_stat` of "D/." never finds "D",
  to which walking "D/." leads (`Paths.ResolveParentRefines`).
- A path component longer than 12 bytes is walked as several, and a directory part is cut at 95 bytes
  (`Paths.ChoppedShort`, `Paths.ResolveParentMeans`).
- `fs_rename` compares the cluster left over in a reference to the root, and so refuses some renames inside the
  root (`Effects.RenameExactly`, `Effects.RenameFromBelowFails`).
- `fs_write` of more than 2^32 - 512 bytes succeeds and stores nothing (`Effects.HugeWriteLosesData`). Such a
  write, and an `fs_mkdir` or `fs_rename` that loses clusters, is *careless*; `Keeping.StepKeeps` shows that no
  other call breaks the volume.
- A NUL in a name field of a mounted disk cuts the displayed name (`Names.NulCutsName`).
- `cluster_at_index` is documented to give 0 for a chain that is too short; one past the end it gives the end mark
  (`Volumes.Volume.ClusterAtIndex`).
- `kmalloc` of more than 2^32 - 4 bytes wraps to a request of 0 (`Blocks.HugeRequestSucceeds`).
- Task slots are never used again: after eight creations every further one fails, whatever was killed
  (`Tasks.SlotsAreSpent`).

## Model

| member | source | states |
|---|---|---|
| Layout.AreasAreDisjoint | kernel/scr/fs.h:36-70 | For every data cluster, its cell in FAT copy 1, in copy 2 and its data sector lie in three different areas; two clusters share neither data sector nor FAT bytes |
| Layout.FatPosition | kernel/fs.c:104-113 | Sector and offset of a FAT cell are the byte position 2c inside copy 1, and a cell never straddles two sectors |
| Types.SectorsFor32IsRight | kernel/fs.c:597 | The 32-bit `(size + 511) / 512` is the number of sectors needed exactly for sizes up to 2^32 - 512, and 0 above |
| Codec.DecodeEncode | kernel/scr/fs.h:90-99 | Every directory entry survives being stored in its 32 little-endian bytes |
| Codec.EncodeDecode | kernel/scr/fs.h:90-99 | Every 32 bytes are the image of exactly the entry they decode to |
| Codec.FatStoreThenRead | kernel/fs.c:115-130 | Storing a cell in both copies changes that cell and no other, keeps the copies equal, and leaves boot loader, kernel, boot sector, root and data areas alone |
| Codec.EntriesUpdate | kernel/fs.c:275-289 | Replacing one entry in one sector of a directory replaces exactly that slot in the directory's enumeration |
| Codec.EntriesAppend | kernel/fs.c:313-344 | A further cluster adds its 16 slots at the end of the enumeration and changes no earlier one |
| Codec.SectorOfThenEntries | kernel/fs.c:172-186 | Sixteen entries written as a sector decode to the same sixteen entries |
| Chains.FreeFromClearsReachable | kernel/fs.c:143-151 | On any FAT with links in range, cyclic and malformed ones included, freeing from a cluster clears exactly the clusters reachable from it |
| Chains.FreeFromPath | kernel/fs.c:143-151 | On a chain this frees the clusters of the chain, no others, and the free count rises by the chain's length |
| Chains.InvStarted | kernel/fs.c:132-141 | Marking a free cluster as end of chain keeps the used clusters partitioned into acyclic chains and costs one free cluster |
| Chains.InvLinked | kernel/fs.c:612-616 | Linking a one-cluster chain behind the last cluster of another keeps the partition and the free count |
| Chains.InvFreed | kernel/fs.c:143-151 | Freeing one chain keeps the partition of the rest and returns exactly its length |
| Chains.SpaceIsConserved | kernel/fs.c:963-983 | Free clusters and the lengths of all chains always add up to 15949 |
| Chains.ChainFits | kernel/fs.c:744-790 | One chain and the free clusters never exceed the data area |
| Volumes.Volume.FatRead | kernel/fs.c:104-113 | Reads the cell of the FAT that copy 1 holds |
| Volumes.Volume.FatWrite | kernel/fs.c:115-130 | Byte writes to both copies update one cell of the table, nothing else on the volume, and keep the copies equal |
| Volumes.Volume.FatAlloc | kernel/fs.c:132-141 | Marks the lowest free cluster as a chain's end; 0, with no sector written, exactly when none is free |
| Volumes.Volume.FatFreeChain | kernel/fs.c:143-151 | The loop ends on every FAT with links in range, and leaves the table with the clusters reachable from the start freed |
| Volumes.Volume.ClusterAtIndex | kernel/fs.c:160-168 | The cluster at a position of a chain; the end mark one past the last, 0 further on |
| Volumes.Volume.CountFreeClusters | kernel/fs.c:973-979 | The counting loop gives the number of free data clusters |
| Volumes.Volume.Extend | kernel/fs.c:602-620 | One allocated, linked and written cluster appends one sector to one chain and changes no other chain; nothing changes when the disk is full |
| Volumes.Volume.Release | kernel/fs.c:143-151 | A released chain is gone, exactly the cells of its clusters become free, every other chain keeps its clusters and contents |
| Volumes.FreedIsCleared | kernel/fs.c:143-151 | Freeing a chain of the volume clears exactly its own cells of the table |
| Volumes.GivenBack | kernel/fs.c:878-883 | Allocating a cluster and freeing it again restores the table cell for cell |
| Volumes.Volume.ZeroFats | kernel/fs.c:466-535 | After the format loops both copies are all zero; boot and root areas are untouched |
| Names.ParseName | kernel/fs.c:47-69 | The loops of `split_name` compute the 8.3 split, padded and upper-cased, for every string |
| Names.PrintName | kernel/fs.c:79-94 | The loops of `dirent_to_display` write the name, a dot and the extension, which fit 13 bytes with the NUL |
| Names.SplitDisplayRoundTrip | kernel/fs.c:47-94 | Parsing the displayed form of a name, read as a C string, gives the name back if and only if both fields are upper-case, padded and free of NULs and the name field has no '.' |
| Names.NulCutsName | kernel/fs.c:79-94 | A name whose only fault is a NUL in its field displays as one that parses to another |
| Names.DisplayIsStable | kernel/fs.c:47-94 | For a name typed without spaces, printing and parsing again changes nothing, whatever was cut or upper-cased |
| Names.SplitNameFirstByte | kernel/fs.c:47-69 | A parsed name reads as deleted exactly when the typed one starts with byte 0xE5, and never reads as free |
| Names.SplitNameHasNoDot | kernel/fs.c:47-69 | No typed name ever parses to "." or ".." |
| Names.SplitNameIs | kernel/fs.c:47-69 | Byte by byte: the part before the first dot and the part behind it, each cut or padded with spaces, lower-case letters made upper-case |
| Names.SplitNameFolds | kernel/fs.c:23-69 | No parsed field holds a lower-case letter, and names that differ in letter case only parse to the same |
| Images.FindIs | kernel/fs.c:291-308 | With unique names the first match of a scan is the only one |
| Images.FindIff | kernel/fs.c:291-308 | A scan finds a name if and only if some live slot holds it |
| Images.IsDirIsBit | kernel/fs.c:425 | The directory test is that of attribute bit 0x10 |
| Images.RoomIs | kernel/fs.c:313-344 | There is room for an entry exactly where a slot is unused, or in a subdirectory while a cluster is free |
| Images.CountLiveIs | kernel/fs.c:966-971 | The counting loop gives the number of slots whose first name byte is neither 0 nor 0xE5 |
| Directories.DirStore.DirIterStart | kernel/fs.c:227-237 | The iterator starts in front of slot 0 |
| Directories.DirStore.DirIterNext | kernel/fs.c:240-273 | Call k gives slot k in chain order and its place on the disk, for all 16 x chain length (or 128) slots, then ends and stays ended |
| Directories.DirStore.DirScan | kernel/fs.c:291-308 | Finds the entry exactly when a live slot holds the name, with the slot's place |
| Directories.DirStore.DirWriteEntry | kernel/fs.c:275-289 | Writes one slot through to the disk, in the cached root or in a cluster; every other slot, file and the boot sector stay |
| Directories.DirStore.DirFindFree | kernel/fs.c:313-344 | The first free or deleted slot; a full subdirectory with a free cluster to be had grows by 16 free slots behind the others; in every other case it fails and writes no sector |
| Directories.DirStore.RootSave | kernel/fs.c:180-186 | The root area decodes to the cached root again and nothing else changes |
| Directories.DirStore.RootLoad | kernel/fs.c:172-178 | The cache holds exactly the entries of the root area, whatever they are |
| Directories.DirStore.Format | kernel/fs.c:466-535 | A formatted disk has an empty root, no chains and 15949 free clusters |
| Directories.DirStore.Stats | kernel/fs.c:963-983 | The number of root slots in use, of free clusters, and of all data clusters |
| Directories.DirStore.SpaceBalance | kernel/fs.c:963-983 | At every call boundary free clusters plus the clusters of all live directories and files make 15949 |
| Directories.DirStore.Capacity | kernel/fs.c:744-790 | A file and the free clusters never exceed the data area, so recorded sizes never exceed the volume |
| Mounts.ChainsAreUsed | kernel/fs.c:963-983 | The chains on the disk are exactly those of the live files and directories, cluster for cluster |
| Ownership.ClusterHasOneOwner | kernel/fs.c:132-151 | On a sound volume each data cluster is non-free if and only if it lies on a live entry's chain, and then at one place of one entry only |
| Paths.WalkRefinesResolve | kernel/fs.c:384-432 | The byte loop of `walk_path` leads where its list of components leads in the tree, components longer than 12 bytes taken in pieces; a successful walk ends at a live directory |
| Paths.WalkPathMeans | kernel/fs.c:384-432 | The same for whole paths, with the absolute restart, for every path |
| Paths.WalkPathRefines | kernel/fs.c:384-432 | With components of at most 12 bytes the pieces are the components themselves |
| Paths.ChoppedShort | kernel/fs.c:396-402 | The pieces equal the components if and only if no component exceeds 12 bytes |
| Paths.WalkSameDirectory | kernel/fs.c:406-416 | Two references to one directory, stale cluster or not, lead to the same place along every path |
| Paths.UpIsParent | kernel/fs.c:406-416 | ".." leads to the directory that holds the entry, and from the root to the root |
| Paths.DownIsLookup | kernel/fs.c:418-428 | A name leads on exactly if its entry is a directory |
| Paths.LookupDir | kernel/fs.c:418-428 | A directory found under a typed name has the directory it was found in as its real parent |
| Paths.DownThenUp | kernel/fs.c:406-428 | Walking into a subdirectory and back by ".." ends where it began |
| Paths.UpReachesRoot | kernel/fs.c:406-416 | Repeating ".." as often as the directory is deep reaches the root |
| Paths.ResolveParentMeans | kernel/fs.c:436-462 | For every path: no target for the empty one; otherwise the leaf cut at 12 bytes and the directory that the first 95 bytes up to the last slash lead to |
| Paths.ResolveParentRefines | kernel/fs.c:436-462 | Within those buffer limits, scanning the parent for the leaf finds what the whole path stands for, file or directory, if and only if the leaf is not empty, "." or ".."; where the parent does not resolve both find nothing |
| Paths.BareLeafDiffers | kernel/fs.c:436-462 | At an empty, "." or ".." leaf the scan never finds the directory meant: it looks for eleven spaces, and anything it finds lies one level deeper |
| PathTexts.AppendName | kernel/fs.c:349-366 | The loop appends a slash where one is needed and the display name, cut at 127 characters |
| PathTexts.TrimLast | kernel/fs.c:368-378 | The loop removes the last component but never the leading slash |
| PathTexts.AppendedIs | kernel/fs.c:349-366 | The text, a slash unless it is "/", and the name, cut at 127 characters |
| PathTexts.TrimmedIs | kernel/fs.c:368-378 | The text before its last slash, or that slash if nothing is before it |
| PathTexts.WalkTextFits | kernel/fs.c:349-378 | A text within its 128-byte buffer stays within it along every walk |
| CwdText.TrimUndoesAppend | kernel/fs.c:349-378 | Removing the last component undoes appending a name, when nothing was cut |
| CwdText.TextLeadsHome | kernel/fs.c:384-432 | A text that agrees with the current directory leads to it from anywhere |
| CwdText.ChdirAgrees | kernel/fs.c:944-956 | A `fs_chdir` that cuts nothing and meets plain names leaves a text that agrees with the new directory |
| CwdText.RmdirAgrees | kernel/fs.c:898-942 | Removing a directory never breaks the text: no directory on the way is empty or other than the current one |
| CwdText.StepAgrees | kernel/fs.c:537-956 | Every call keeps the agreement of text and directory, unless it renames a directory on the way or cuts the text |
| CwdText.RenameTextExactly | kernel/fs.c:793-824 | After a successful rename the text leads to the current directory if and only if no directory on the way was renamed |
| CwdText.RunLeadsHome | kernel/fs.c:537-956 | After any run of such calls, succeeding or failing, walking the text from anywhere ends at the current directory |
| Soundness.FileChangeWf | kernel/fs.c:537-791 | Replacing one file entry and its chain keeps everything in place, if the entry fits its chain and its name is free |
| Soundness.DirAddedWf | kernel/fs.c:841-896 | A directory entered in another with "." and ".." right keeps the tree, the owners and the unique names |
| Soundness.DirRemovedWf | kernel/fs.c:898-942 | Removing an empty directory and its entry keeps them |
| Soundness.RenamedWf | kernel/fs.c:793-824 | Renaming to a free name that does not read as deleted keeps them |
| Soundness.GrownWf | kernel/fs.c:313-344 | A directory that grew by one cluster of free slots is as sound as before |
| Keeping.StepKeeps | kernel/fs.c:537-956 | Any call on a sound volume leaves it sound if and only if it is not careless, which can be checked before the call; and the current directory stays a live directory |
| Keeping.OverwriteKeeps | kernel/fs.c:586-627 | Overwriting keeps the volume sound exactly for sizes up to 2^32 - 512 |
| Keeping.MkdirKeeps | kernel/fs.c:841-896 | `fs_mkdir` loses the new cluster exactly when the name is free, a cluster and room for the entry are there, and the name starts with byte 0xE5 |
| Keeping.RenameKeeps | kernel/fs.c:793-824 | `fs_rename` loses a chain exactly when it succeeds with a new name that starts with byte 0xE5 for an entry that has one |
| Keeping.ExtendKeeps | kernel/fs.c:723-791 | Appending keeps the volume sound, whether or not all bytes fit |
| Keeping.RmdirKeeps | kernel/fs.c:898-942 | Removing a directory keeps the volume sound and the current directory live |
| Runs.HarmlessIsCareful | kernel/fs.c:537-956 | What a caller can see in the arguments suffices to rule careless calls out |
| Runs.RunKeeps | kernel/fs.c:537-956 | Soundness and a live current directory last over every run of harmless calls, succeeding or failing |
| Reading.OneNameChanged | kernel/fs.c:537-791 | If one name of one directory changes and no directory is involved, exactly the paths that stand for it read differently |
| Reading.MkdirLookup | kernel/fs.c:841-896 | `fs_mkdir` adds one name and the two dot entries below it; every other name in every directory is as before |
| Reading.RmdirLookup | kernel/fs.c:898-942 | `fs_rmdir` removes one name and the names in the removed directory, and no other |
| Reading.RenameLookup | kernel/fs.c:793-824 | The new name has what the old one had, the old one is gone, all others are as before |
| Effects.WriteThenRead | kernel/fs.c:566-665 | After `fs_write`, every path that stands for the file reads the data and every other path what it read before, though clusters were freed and reused; after a failure the file reads as empty exactly where a plain file was there or could be created, and as before elsewhere |
| Effects.WriteEffect | kernel/fs.c:566-627 | The same on the level of names, directories included |
| Effects.AppendThenRead | kernel/fs.c:723-791 | After `fs_append`, the file reads as before plus exactly the bytes that fit in the slack and the free clusters, which are all of them if and only if the call succeeds; on a failure no cluster is left free; every other path as before |
| Effects.AppendEffect | kernel/fs.c:723-791 | The same on the level of names, with the number of bytes stored |
| Effects.CreateThenRead | kernel/fs.c:537-564 | A created file is new and empty; every other path reads as before; a name that starts with byte 0xE5 is not found again |
| Effects.DeleteThenRead | kernel/fs.c:700-721 | A deleted file was there and is gone; every other path reads as before |
| Effects.FailureChangesNothing | kernel/fs.c:537-956 | A call that returns -1, other than a write or append, leaves tree, contents, free count, current directory and text as they were; the methods below add the FAT |
| Effects.OverwriteExactly | kernel/fs.c:586-611 | Overwriting a plain file succeeds exactly when ceil(size/512) is at most the free clusters plus those of the old contents, and the free count says so afterwards |
| Effects.HugeWriteLosesData | kernel/fs.c:597-627 | Above 2^32 - 512 bytes `fs_write` reports success, records the size and stores nothing |
| Effects.DeleteUndoesCreate | kernel/fs.c:537-721 | Deleting what was just created restores every name |
| Effects.RmdirUndoesMkdir | kernel/fs.c:841-942 | Removing what was just made succeeds, restores every name and returns the directory's cluster |
| Effects.RenameExactly | kernel/fs.c:793-824 | `fs_rename` succeeds exactly when old name, new name and directory allow it, except that two references to the root that differ in a stale cluster are refused |
| Effects.RenameFromBelowFails | kernel/fs.c:814-817 | From a directory in the root, renaming "../A" to "/B" is always refused |
| Exactness.CreateExactly | kernel/fs.c:537-564 | `fs_create` succeeds exactly when the parent resolves, the leaf is not empty, no slot bears the name, and a slot is unused or, in a subdirectory, a cluster is free; the entry of an empty plain file then stands in the first unused slot or starts one more cluster, and nothing else differs |
| Exactness.DeleteExactly | kernel/fs.c:700-721 | `fs_delete` succeeds exactly on what `fs_read` reads; ceil(size/512) clusters become free and the slot reads as deleted, without cluster and size |
| Exactness.WriteExactly | kernel/fs.c:566-627 | `fs_write` succeeds exactly when the parent resolves, the leaf is not empty, a plain file is there or can be entered, and ceil(size/512) is at most the free clusters plus those of the old contents, less one where the directory has to grow; the free count afterwards is the rest |
| Exactness.AppendExactly | kernel/fs.c:723-791 | `fs_append` stores exactly the bytes that fit behind the old contents in those clusters, and succeeds exactly when they are all |
| Exactness.OpensExactly | kernel/fs.c:566-584 | A plain file opens exactly if it is there, or if nothing bears the name, there is room for it and it does not start with byte 0xE5; only then does the directory grow |
| Exactness.ReadExactly | kernel/fs.c:629-665 | `fs_read` succeeds exactly on a plain file and gives its first min(size, max) bytes |
| Exactness.WriteThenFsRead | kernel/fs.c:566-665 | After a successful `fs_write`, `fs_read` of any path to the file succeeds and gives the first min(size, max) bytes of the data |
| Exactness.AppendThenFsRead | kernel/fs.c:629-791 | The same after an append, of the old contents and the bytes appended |
| Exactness.WriteRunFsRead | kernel/fs.c:537-956 | The same after a write and any run of harmless calls that do not touch the file |
| Exactness.StatExactly | kernel/fs.c:826-839 | `fs_stat` of a plain file gives the number of its bytes, and it fails exactly where the parent does not resolve or has no entry of the name |
| Exactness.WriteThenStat | kernel/fs.c:566-839 | After a successful `fs_write`, `fs_stat` of any path to the file gives the size of the data |
| Exactness.MkdirExactly | kernel/fs.c:841-896 | `fs_mkdir` succeeds exactly when the parent resolves, the leaf is not empty, "." or "..", no slot bears the name, a cluster is free, and a slot is unused or, in a subdirectory, a second cluster is free; the new directory holds "." and ".." and else zeros |
| Exactness.RmdirExactly | kernel/fs.c:898-942 | `fs_rmdir` succeeds exactly on a directory other than the current one in which every slot behind the two dot entries is unused; its clusters become free and its slot reads as deleted |
| Exactness.RenameByName | kernel/fs.c:793-824 | `fs_rename` succeeds exactly when both paths resolve to one directory, the new leaf is not empty, some slot bears the old name and none the new, and no stale cluster stands in the way; the entry changes in its name alone |
| Exactness.ChdirExactly | kernel/fs.c:944-956 | `fs_chdir` succeeds exactly when the components lead to a directory, and goes there |
| Folding.CaseBlind | kernel/fs.c:23-69 | Paths that differ in letter case only resolve to one reference and one name, walk, read and report the same, or all fail |
| Survival.StepSpares | kernel/fs.c:537-956 | A call that does not write, extend, delete or rename a file leaves its bytes as they are |
| Survival.DataSurvives | kernel/fs.c:537-956 | Over any run of harmless calls that do not touch a file its bytes stay, however many clusters are reused |
| Survival.WriteRunRead | kernel/fs.c:566-665 | Write, any such run, read: every path that then stands for the file gives the data written |
| Witnesses.MkdirLoses | kernel/fs.c:841-896 | On a fresh volume `fs_mkdir` of the one byte 0xE5 succeeds and loses a cluster |
| Witnesses.RenameLoses | kernel/fs.c:793-824 | Renaming a directory to the one byte 0xE5 succeeds and loses its cluster |
| Witnesses.CreateLoses | kernel/fs.c:537-564 | `fs_create` of the one byte 0xE5 succeeds and the file is not found |
| Witnesses.RenameRefused | kernel/fs.c:814-817 | From within "A" a rename of "../A" to the free name "/B" is refused |
| Witnesses.LongComponentStrays | kernel/fs.c:396-402 | A 13-byte component walks through two directories, while its 8.3 form names the first of them |
| Witnesses.LongComponentWitness | kernel/fs.c:396-402 | "ABCDEFGH.IJKX" walks to "X" in "ABCDEFGH.IJK" on a volume with just these two directories |
| Witnesses.LongDirPartStrays | kernel/fs.c:452-456 | Behind 95 slashes "A/X" is looked for in the root instead of in "A" |
| Witnesses.DotLeafStrays | kernel/fs.c:826-839 | On a fresh volume "." walks to the root, and `fs_stat` of it finds nothing |
| Growth.OverwriteDone | kernel/fs.c:597-627 | Allocation rounds and one entry update together are the overwrite promised |
| Growth.OverwriteFailed | kernel/fs.c:602-610 | On a full disk the target is left empty and its old clusters free |
| Growth.GrewUndone | kernel/fs.c:602-610 | Freeing the partial chain of a failed write restores the volume before the rounds |
| Growth.FillSlack | kernel/fs.c:744-760 | Rewriting the last sector puts the first bytes exactly behind the old contents |
| Growth.ExtendDone | kernel/fs.c:744-790 | Slack, new clusters and one entry update together are the old contents plus as much as fits |
| FileSystems.EmptySound | kernel/fs.c:466-535 | An empty root and no chains are a sound volume |
| FileSystems.FileSystem.FsInit | kernel/fs.c:466-535 | Mounts a marked volume as it is, sound or not, writing nothing; formats any other into an empty one; starts in "/"; a sound volume is ready for calls |
| FileSystems.FileSystem.Remount | kernel/fs.c:466-535 | At any call boundary `fs_init` again recovers the same tree and only resets the current directory |
| FileSystems.FileSystem.WalkTo | kernel/fs.c:384-432 | The loops over path, directory and text compute the walk and its text |
| FileSystems.FileSystem.FindParent | kernel/fs.c:436-462 | Computes the target of a path, which is in a live directory |
| FileSystems.FileSystem.FsCreate | kernel/fs.c:537-564 | Disk, cached root and tree change as the creation step says, or no sector is written |
| FileSystems.FileSystem.FsWrite | kernel/fs.c:566-627 | All early exits included, the disk changes as the write step says |
| FileSystems.FileSystem.Overwrite | kernel/fs.c:586-627 | Free, allocate round by round, undo on a full disk, update the entry: together the overwrite |
| FileSystems.FileSystem.FsRead | kernel/fs.c:629-665 | The first min(size, max) bytes of the file the path stands for; refused exactly where it stands for no plain file |
| FileSystems.FileSystem.FsDelete | kernel/fs.c:700-721 | Chain freed and entry marked as the deletion step says, or no sector is written |
| FileSystems.FileSystem.FsAppend | kernel/fs.c:723-791 | All early exits included, the disk changes as the append step says |
| FileSystems.FileSystem.FsRename | kernel/fs.c:793-824 | One entry gets its new name, or no sector is written |
| FileSystems.FileSystem.FsStat | kernel/fs.c:826-839 | The recorded size of the entry the path stands for, which for a plain file is the number of its bytes |
| FileSystems.FileSystem.FsMkdir | kernel/fs.c:841-896 | One new directory, or nothing changes, every cell of the FAT included: the cluster is given back when the parent cannot grow |
| FileSystems.FileSystem.FsRmdir | kernel/fs.c:898-942 | Refuses missing, plain, current and non-empty ones, writing no sector; otherwise the directory's clusters and entry go |
| FileSystems.FileSystem.FsChdir | kernel/fs.c:944-956 | Directory and text move together, or neither does; the copies cut at 127 characters cut nothing, as no text is longer |
| FileSystems.FileSystem.Perform | kernel/fs.c:537-956 | Each call is its step, leaves boot loader, kernel and boot sector alone, and on a failure other than of a write or append every cell of the FAT |
| FileSystems.FileSystem.RunCalls | kernel/fs.c:466-956 | Any list of harmless calls on the real disk is a run of steps; memory and disk still agree after it, and boot loader, kernel and boot sector are untouched |
| Blocks.Canonical | kernel/mm.c:102-113 | The used blocks determine the whole block list: two lists over one extent without free neighbours and with the same used blocks are equal |
| Blocks.AllocatedGood | kernel/mm.c:65-100 | After `kmalloc` the blocks tile the extent and no two neighbours are both free |
| Blocks.AllocatedUsed | kernel/mm.c:65-100 | The used blocks are those before and one where the first fit was, of exactly the bytes asked for if that leaves room for a header and a word, and of the whole block otherwise |
| Blocks.AllocatedIsNew | kernel/mm.c:81-100 | The block granted overlaps no block that was in use |
| Blocks.ReleasedGood | kernel/mm.c:102-123 | After `kfree` the blocks tile the extent and no two neighbours are both free |
| Blocks.ReleasedUsed | kernel/mm.c:115-123 | `kfree` takes its block, and no other, from the used ones |
| Blocks.FreeUndoesAlloc | kernel/mm.c:81-123 | `kfree` after `kmalloc` restores the exact block list, whatever was split or merged |
| Blocks.FreesCommute | kernel/mm.c:102-123 | The order of two frees does not matter |
| Blocks.FreeingAllRestores | kernel/mm.c:102-123 | Freeing all used blocks in any order leaves the single block of `kmalloc_init` |
| Blocks.FitsExactly | kernel/mm.c:81-100 | A block is found if and only if some stretch clear of all used blocks holds a header and the bytes |
| Blocks.RequestFits | kernel/mm.c:81-100 | So for 0 < n <= 2^32 - 4 `kmalloc` refuses exactly when no such stretch holds n rounded up to 4 |
| Blocks.HugeRequestSucceeds | kernel/mm.c:83-88 | Above 2^32 - 4 the rounding wraps to 0 and the request is granted fewer than 16 bytes whenever any block is free |
| Blocks.RoundedIsRight | kernel/mm.c:87 | The rounding is right exactly up to 2^32 - 4 |
| Blocks.PayloadsDisjoint | kernel/mm.c:65-100 | Any two blocks, headers included, are disjoint and inside the heap |
| Blocks.TotalIs | kernel/mm.c:125-143 | Sizes and headers always add up to the extent |
| Blocks.AllocatedBytes | kernel/mm.c:125-143 | `kmalloc` raises the bytes in use by the size of the block it grants |
| Blocks.ReleasedBytes | kernel/mm.c:125-143 | `kfree` lowers them by the size of its block |
| Blocks.ServeAllKeeps | kernel/mm.c:81-123 | Over any sequence of `kmalloc` and `kfree` the list stays in order, and a block nobody frees stays where it is |
| Blocks.EnoughRoom | kernel/mm.c:81-100 | However the used blocks lie, a request fits if the heap is large enough for their number and sizes |
| Heaps.Heap.KmallocInit | kernel/mm.c:55-63 | One free block over the whole extent |
| Heaps.Heap.SplitBlock | kernel/mm.c:65-79 | Exactly the words of the two headers are written |
| Heaps.Heap.Kmalloc | kernel/mm.c:81-100 | The in-place loop grants the first fit, updates the headers to match the block list, and writes no word of a live payload |
| Heaps.Heap.Coalesce | kernel/mm.c:102-113 | The in-place loop merges every stretch of free blocks and writes no word of a live payload |
| Heaps.Heap.Kfree | kernel/mm.c:115-123 | The block of a live pointer is released, NULL is ignored, and no word of another live payload is written |
| Heaps.Heap.KmallocStats | kernel/mm.c:125-143 | Total, used and free bytes; total and headers make the extent |
| Tasks.BoundedWaiting | kernel/task.c:21-112 | Under any interleaving of ticks, creations and kills a task that stays in use runs within as many ticks as it is slots away |
| Tasks.EightTicksSuffice | kernel/task.c:21-112 | So within 8 calls of `schedule` |
| Tasks.WaitShrinks | kernel/task.c:21-112 | A tick runs the task or brings it nearer; creations and kills never move it away |
| Tasks.AfterSane | kernel/task.c:21-112 | Task 0 is never killed and the running task is always in use |
| Tasks.SlotsAreSpent | kernel/task.c:58-112 | The table grows by one per creation until eight, whatever is killed: slots are never reused |
| Tasks.DeadStaysDead | kernel/task.c:58-112 | A killed task's slot is never in use again |
| Tasks.NextIsUnique | kernel/task.c:29-32 | The next task is determined: the first used slot round the ring |
| Tasks.StackFits | kernel/task.c:62-63 | In a heap of 278852 bytes a stack can be had beside any eight blocks of up to a stack's size |
| Tasks.Scheduler.TasksInit | kernel/task.c:12-19 | All slots unused, no running task |
| Tasks.Scheduler.Schedule | kernel/task.c:21-49 | The search loop ends and picks the first used slot after the running one |
| Tasks.Scheduler.TaskCreateNamed | kernel/task.c:58-77 | The next slot gets a stack block of its own with the starting frame on top, the other slots and all live payloads are untouched; -1 and no change after eight creations |
| Tasks.Scheduler.TaskKill | kernel/task.c:102-112 | Refused exactly for a slot never given out, a dead task, the running task and task 0; otherwise exactly that slot is marked unused, its stack is given up, and every other slot keeps its name, stack and stack pointer |

## Left out

- Volumes.Volume.FatFreeChain: on a link out of the data area's range the source writes outside the table; the model asks for links in range, and everything else about corrupt volumes is left out.
- FileSystems.FileSystem.FsInit: a marked disk is mounted unchecked, as in the source; what the calls do on one that is not a sound volume is not modelled.
- FileSystems.FileSystem.FsAppend: the tests for a broken chain cannot succeed on a sound volume and are not in the model; neither are those in `fs_read`.
- FileSystems.FileSystem.FsInit: of the boot sector only the "RINKFS16" mark is modelled, not the other fields, which are never read back.
- Tasks.Scheduler.TaskCreateNamed: while a slot is left, asks for a heap that can hold the stack; the source does not test for NULL and would write near address 16384.
- Tasks.Scheduler.Schedule: a context switch is the change of the running task; saving and loading of stack pointers in `task_switch` is not part of this model.
- Heaps.Heap.KmallocInit: the extent that `find_heap_end` reads from the BIOS memory map is a parameter, larger than one header and within its own limit of 0x90000; `mmap_dump` is left out.
- Heaps.Heap.Kfree: asks for NULL or a live pointer; double frees and foreign pointers are left out.
- Sector buffers, strings and the bytes of a transfer are values; their addresses and aliasing are not modelled. Memory of the heap is in words, and bytes of a last block beyond a whole word are not seen.
- The FAT loops that `fs_write`, `fs_append` and `dir_find_free` spell out in line are one method here (`Extend`, `GrowFile`), as are the common openings of `fs_write` and `fs_append`.
- Port input and output (`disk.c`, `io.c`), interrupt set-up and the timer: a disk reads and writes sectors exactly, a tick is a call of `schedule`.
- Crashes and task switches in the middle of a call: the code makes no attempt to survive either.
- `fs_list`, `fs_getcwd`, `task_list`, the console and the shell: output only.
- The keyboard's ring buffer and the shell's history: bounded queues that would add only easy members.
