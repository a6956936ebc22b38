# A verified model of xv6-64

This project models the storage, memory and process layers of the xv6-64 kernel and
three of its user programs in Dafny, and proves what those layers are for: that the log
makes transactions atomic under any crash, that file contents behave as byte sequences
over blocks that nobody else owns, that page tables are maps whose pages have the rights of
their entries and no page is lost or held twice, that the heap stays a sorted, coalesced
ring, that processes are never left waiting, that a pipe is a FIFO, and that the shell's
parser and grep's matcher accept exactly their languages.

`dafny verify dfyconfig.toml` checks everything.

## How the model is organised

| files | what they model |
|---|---|
| Basics, Blocks | types and counting that several modules share; disk blocks as bytes, little-endian words and bits |
| BufferCache | bio.c over memide.c: the cache, its LRU ring, and the map from block number to contents it refines |
| LogCrash, Log, GroupCommit, LogSystem | log.c: crash points and recovery as prefixes of block writes; the imperative code proved to make exactly those writes; any interleaving of operations, commits and crashes; and the log object over its cache as a run of that system |
| FileState, FileContents, FileLog, FileTrunc, Fs, FileWrite, Mkfs | fs.c, the chunking in file.c, and mkfs.c: free map, inodes, block maps, contents, the blocks each operation takes and logs, and the initial image |
| Dirents, DirLookup | directory entries, and fs.c's lookup of a name through readi, also on the initial image |
| FileCrash | fs.c over log.c: what a crash at any point of a commit leaves of the files |
| Boundaries | runs of the above that reach the places where the code does not do what its comments say |
| PageTables, PageCount, Vm | kalloc.c and vm.c: the free list inside the pages, the four-level tables, the pages a range takes, and the operations on address spaces |
| Malloc | umalloc.c: the free ring, its coalescing, and the blocks that tile the heap |
| ProcTable, Proc, SleepLock, Pipe | proc.c, sleeplock.c and pipe.c: steps of many processes, with spin locks as atomic locks, and the imperative table scans proved against the steps |
| ShellSyntax, ShellGrammar, ShellAccepts, ShellDerives, ShellRoundTrip | sh.c's grammar: the parser as functions on positions, and the derivations of the language that it reads |
| ShellWords, Shell, Grep | the words of a line, the parser as it runs, nulterminate, and grep.c's matcher |

Code that updates state in place is a class whose fields are sequences and maps that the
methods reassign; each method is proved against a function or relation on the old and
new values, and the lemmas are about those.  Every panic of the kernel that matters is an
outcome of the method that would panic, and is proved unreachable where the source relies on that.
Ghost maps record who holds each block or page.

## Where the code and its comments differ

- kalloc.c:73-75 promises 0 when memory runs out; the code panics (kalloc.c:86-88), so the
  paths of vm.c that test for 0 are never taken.  The model follows the code.
- mkfs.c:158-163 rounds the root directory's size up to the next block even when it fills
  its last block exactly.  The image then has a hole: `Mkfs.Image.Build` proves that the
  root is free of holes if and only if (files + 2) % 32 != 0, and `Boundaries.ThirtyFiles`
  builds the image of thirty empty files and finds it.
- fs.c:424-450 says that readi reads.  Where the file has a hole it also allocates
  (fs.c:444), without writing the inode.  `Fs.Fs.Readi` proves that a read changes nothing if
  and only if its range has no hole, and leaves the inode on disk right if and only if none
  of the inode's own addresses was empty; `Boundaries.ReadHole` reads the directory above,
  which takes a block and leaves the inode on disk out of date.  writei has the same gap for
  a write that does not grow the file (fs.c:479-482): `FileContents.SplicedInPlace` gives the
  same condition, and `Boundaries.WriteHole` the same outcome.
- log.c:216 stops a transaction at `size - 1` blocks, and mkfs.c:25 gives the log LOGSIZE
  blocks, header included.  With at most LOGSIZE log blocks some run within its budget reaches
  the guard (`GroupCommit.GuardFires`).  With more, `GroupCommit.GuardExact` proves that a
  log_write within its budget meets it exactly when LOGSIZE blocks are listed, that its block
  is then one of these, and that every operation in progress has spent its budget: a new
  block never meets it (`GroupCommit.GuardQuiet`), but one that would be absorbed can
  (`GroupCommit.GuardAbsorbs`), because the count is tested before the list is searched.
- param.h:11-12 makes the cache as large as the log, in blocks, and a commit needs a buffer for
  the log block besides those its transaction pins.  `Log.Log.Commit` proves that it runs out of
  buffers exactly if the cache has no room for one copy, which is when NBUF blocks are listed
  (`LogSystem.System.End`).  With mkfs's log of LOGSIZE blocks that cannot be; with a larger one
  `LogSystem.FullCommit` is a run that ends so.
- file.c:127-133 sizes filewrite's chunks to fit in one transaction.  A chunk does fit in an
  empty log, but a full one spans more than the MAXOPBLOCKS blocks that begin_op sets aside.
  `FileWrite.LoggedExactly` counts the blocks a write logs, `FileWrite.WithinFile` proves that
  within a file it logs more than MAXOPBLOCKS if and only if it spans more than that many
  blocks, and `Boundaries.OverBudget` writes the first chunk of a new file and logs sixteen.
  `GroupCommit.GroupCommit`, whose operations keep to their budget, does not cover such a chunk.

- proc.c:426 says that kill marks a process.  It marks the first slot with the pid, whatever is in
  it (proc.c:435-437), and allocproc does not clear the mark (proc.c:49-51).  The slots that were
  never used have pid 0, so after a kill of pid 0 the next fork makes a child that is killed at
  birth: `ProcTable.BornKilled`.  `ProcTable.NewbornsClean` proves that no slot without a process is
  ever marked if and only if no kill of the run finds its pid in such a slot, and
  `ProcTable.KilledExact` that a slot is marked exactly from the kill that finds it to the wait that
  reaps it.

## Model

| member | source | states |
|---|---|---|
| `BufferCache.Unique` | bio.c:61-93 | at most one buffer holds any block of a real device |
| `BufferCache.Recycling` | bio.c:77-91 | giving an unused clean buffer to another block leaves the cache's view of every block as it was: eviction loses nothing |
| `BufferCache.CleanBlock` | bio.c:61-141 | a block that no dirty or held buffer has is on the disk as the view shows it |
| `BufferCache.HasRecyclable` | bio.c:77-91 | with fewer pinned blocks than buffers and no references, bget finds a buffer |
| `BufferCache.Shortage` | bio.c:77-93 | with some clean buffers held and no other in use, bget can recycle nothing exactly if the dirty blocks and the held buffers fill the cache |
| `BufferCache.FrontPermutation` | bio.c:126-138 | moving a buffer to the front keeps the ring a permutation of all buffers |
| `BufferCache.FrontRecent` | bio.c:126-138 | and keeps it in the order of the last releases, the latest first |
| `BufferCache.Bcache.constructor` | bio.c:38-56 | binit links every buffer into the ring, and the view is the disk |
| `BufferCache.Bcache.Bget` | bio.c:61-93 | finds the block's buffer, or else recycles, of the clean buffers that nobody uses, the last on the ring, which is the one released the longest ago; fails only if the block is not cached and nothing is recyclable, and keeps the view |
| `BufferCache.Bcache.Bread` | bio.c:95-106 | the locked buffer holds exactly what the view shows of the block |
| `BufferCache.Bcache.Bwrite` | bio.c:108-116 | one block write reaches the disk, the one recorded, and the pin is gone |
| `BufferCache.Bcache.Brelse` | bio.c:118-141 | the view takes the buffer's contents and the disk stays; a buffer whose last user lets it go moves to the front of the ring, and the others keep their order |
| `BufferCache.Bcache.Iderw` | memide.c:35-60 | a dirty buffer is written to its block, otherwise an invalid one is read |
| `LogCrash.RecoverHome` | log.c:69-82 | recovery puts every listed block in its home location and leaves the other home blocks alone |
| `LogCrash.RecoveryCrash` | log.c:115-122 | a recovery that crashes after any of its writes can be run again with the same result |
| `LogCrash.RepeatedCrashes` | log.c:115-122 | so can any number of recoveries that crash one after the other |
| `LogCrash.CrashBeforeHeader` | log.c:174-200 | a commit that crashes before its header write recovers to the old home blocks |
| `LogCrash.CrashAfterHeader` | log.c:190-200 | a commit that crashes after it recovers to the new ones |
| `LogCrash.CommitDone` | log.c:190-200 | a finished commit leaves the home blocks as the cache showed them and the header empty |
| `LogCrash.CrashAtomicity` | log.c:69-200 | for every crash point of a commit and any crashes of the recoveries after it, the finished recovery gives all old or all new home blocks, all new exactly when the first header write was done |
| `Log.Log.WriteLog` | log.c:174-188 | the block writes are the cached contents of the listed blocks to the log, in order; or some first ones of these, exactly if the cache has no buffers for one of the copies |
| `Log.Log.WriteHead` | log.c:98-113 | the header block takes the in-memory header and keeps its other words |
| `Log.Log.InstallTrans` | log.c:69-82 | log block i goes to the home of the i-th listed block, and every pin is gone; it fails exactly if the cache has no buffers for the first copy |
| `Log.Log.Commit` | log.c:190-200 | the block writes are exactly those of the crash model, in that order; the view of the home blocks stays and the disk agrees with it; it fails exactly if the cache has no buffers for a copy, and then before the header is written |
| `Log.Log.ReadHead` | log.c:84-96 | the in-memory header becomes the one on disk |
| `Log.Log.RecoverFromLog` | log.c:115-122 | the block writes are exactly those of the crash model, and disk and view become the recovered disk |
| `Log.Log.BeginOp` | log.c:124-141 | an operation starts exactly when no commit runs and the listed blocks, with ten for each operation in progress and ten for this one, are at most thirty |
| `Log.Log.EndOp` | log.c:143-172 | the last operation out starts the commit, and only it; a commit running at entry is exactly the panic |
| `Log.Log.LogWrite` | log.c:211-231 | exactly if fewer than thirty blocks are listed, the log has a block left for one more and an operation is in progress, the block is appended to the list unless it is on it, and its buffer pinned; otherwise nothing changes |
| `Log.Log.Update` | log.c:202-231 | bread, change, log_write and brelse: the view takes the block, the disk does not, and the block is listed and pinned; it fails exactly if there is no buffer, the transaction is too big or no operation is in progress |
| `GroupCommit.BeginKeeps` | log.c:124-141 | begin_op's test keeps the listed blocks plus all unspent budgets within LOGSIZE |
| `GroupCommit.LogWriteKeeps` | log.c:211-231 | absorbing or adding a block keeps the invariant and spends the operation's budget |
| `GroupCommit.EndKeeps` | log.c:143-172 | a commit starts with no operation in progress, so it holds only whole operations |
| `GroupCommit.CommitWriteKeeps` | log.c:190-200 | every single block write of a commit keeps the invariant, and one of them makes the transaction durable |
| `GroupCommit.CrashKeeps` | log.c:115-122 | a crash at any point leaves a disk whose recovery is the durable history |
| `GroupCommit.StepKeeps` | log.c:69-231 | every step of every operation, commit, crash and recovery keeps the invariant |
| `GroupCommit.GroupCommit` | log.c:115-231 | in every run: recovery gives exactly the durable log_writes, each operation is durable as a whole or not at all, listed blocks plus unspent budgets never exceed LOGSIZE, and no operation is in progress during a commit, so end_op's panic is unreachable |
| `GroupCommit.WriteAhead` | log.c:174-231 | in every run, until the header of a transaction is on disk no home block on disk holds anything of it |
| `GroupCommit.BeginExact` | log.c:124-141 | in every reachable state an operation may begin exactly if no commit or recovery runs and the listed blocks, with ten for each operation in progress and ten for the new one, are at most thirty |
| `GroupCommit.SecondJoins` | log.c:132-139 | however many of its ten blocks a first operation has logged, some run has a second one begin then |
| `GroupCommit.GuardExact` | log.c:216-225 | in every run with more than LOGSIZE log blocks, a log_write within its budget meets the guard exactly when LOGSIZE blocks are listed; its block is then listed already and every operation in progress has spent its budget |
| `GroupCommit.GuardQuiet` | log.c:216-217 | so with more than LOGSIZE log blocks an operation with budget left never meets the guard, in any run |
| `GroupCommit.GuardFires` | log.c:216-217 | with at most LOGSIZE log blocks some run reaches the guard within budget |
| `GroupCommit.GuardAbsorbs` | log.c:216-225 | with more than LOGSIZE log blocks some run reaches the guard with a block that is listed already |
| `LogSystem.CommitRuns` | log.c:190-200 | a commit's block writes one after the other, and its end, are a run of the system, which leaves the committed view on disk |
| `LogSystem.RecoverRuns` | log.c:115-122 | so are a crash in any state and the recovery after it |
| `LogSystem.System.constructor` | log.c:53-66 | initlog on the disk that any run has left, at any point of it, continues that run with a crash and a whole recovery |
| `LogSystem.System.Begin` | log.c:124-141 | begin_op on the log object is the system's step, and enters exactly when no commit runs and the new operation's ten blocks fit |
| `LogSystem.System.Read` | bio.c:95-141 | bread and brelse give the block as the log_writes of the run have left it; there is no buffer exactly if the transaction fills the cache and does not list the block |
| `LogSystem.System.Write` | log.c:202-231 | bread, change, log_write and brelse are the system's one step; the only failure is the guard |
| `LogSystem.System.End` | log.c:143-172 | end_op is the system's step, and for the last operation a whole commit after it, whose block writes are exactly the crash model's; it leaves the view on disk and every buffer clean; it fails exactly if it commits as many blocks as there are buffers, on a disk of the run |
| `LogSystem.System.Shown` | log.c:174-231 | write-ahead for the buffers, after any calls: the cache shows every log_write of the run, the disk only the durable ones, and it recovers to these; what the disk lacks is in a pinned buffer, and exactly the listed blocks are pinned |
| `LogSystem.FullCommit` | log.c:190-200 | on a log of more than LOGSIZE blocks three operations list as many blocks as there are buffers, and the commit at their end finds none |
| `FileState.FillDirect` | fs.c:354-364 | assigning a fresh block to a direct slot or as indirect block changes that slot and no other slot of any file |
| `FileState.FillEntry` | fs.c:365-373 | likewise for a slot that the indirect block lists |
| `FileState.FilledOwners` | fs.c:348-376 | after an assignment every owned block is in its owner's slot and every slot owns its block |
| `FileState.DataWritten` | fs.c:471-477 | storing a block of a file changes those bytes of that file, and nothing else of any file |
| `FileState.InodeWritten` | fs.c:201-218 | storing an inode leaves every block map, every byte and every other inode alone |
| `FileState.OthersFrame` | fs.c:348-484 | a change to free blocks or to one file's blocks leaves the other files' inodes, block maps and bytes alone |
| `FileState.InodeChanges` | fs.c:354-364 | filling a range of a file changes its inode exactly if one of the inode's own addresses was empty |
| `FileState.OwnedCount` | fs.c:49-72 | owned blocks are at most the disk's data blocks, and all of them if the free map is full |
| `FileState.InodeFields` | fs.h:29-36 | type, major and minor number, link count, size and block addresses are the little-endian numbers in the inode's 64 bytes, in this order |
| `FileState.Places` | fs.h:38-48 | inodes lie 64 bytes apart from the first inode block on, and the bits of the free map one after the other |
| `Blocks.BitValue` | fs.c:61-63 | the bit of block i is the one of value 2^(i % 8) in byte i / 8 |
| `FileContents.NeedTight` | fs.c:346-376 | what a write to a file without holes takes is the difference of the two sizes in blocks, indirect block included |
| `FileContents.SyncedStill` | fs.c:346-376 | filling a range leaves the inode on disk right exactly if none of the inode's own addresses was empty |
| `Fs.Fs.Ilock` | fs.c:269-294 | the inode in memory is the one on disk |
| `Fs.Fs.Balloc` | fs.c:49-72 | the first free block, marked used and zeroed and both blocks logged, with nothing else on disk changed; out of blocks only if all are used |
| `Fs.Fs.Bfree` | fs.c:74-89 | exactly that block's bit is cleared and its map block logged; the panics are exactly a clear bit and a full list |
| `Fs.Fs.Bmap` | fs.c:346-376 | the slot has a block afterwards, every block the file had is where it was, no byte of any file shows the change, exactly the blocks needed are taken and exactly the blocks changed are logged; where there was a block nothing changes |
| `Fs.Fs.Iupdate` | fs.c:201-218 | the inode's place on disk takes the inode |
| `FileContents.TightGrows` | fs.c:471-477 | writing at or before the end keeps the file free of holes and of blocks past the end |
| `FileContents.SplicedInPlace` | fs.c:466-483 | a write that does not grow the file splices its contents, and leaves the inode on disk right exactly if it filled none of the inode's own addresses |
| `FileContents.SplicedGrown` | fs.c:466-483 | a write past the end splices the contents, leaves the grown inode on disk, and a file in order stays in order |
| `Fs.Fs.Writei` | fs.c:452-484 | for every inode, offset and length: type 3 gives the answer of the major number's driver, or -1 without one, and changes nothing; for any other type, whatever the major number, a range that begins past the end or ends past the longest file is refused and changes nothing, and otherwise the contents become the splice of the data at the offset, in a file with or without holes; the disk is full exactly if fewer blocks are free than the write lacks; exactly the data blocks, the changed map blocks and a grown inode are logged; other files and the free map stay right |
| `Fs.Fs.Readi` | fs.c:424-450 | for every inode, offset and length: type 3 gives the answer of the major number's driver, or -1 without one, and changes nothing; for any other type, whatever the major number, a range that begins past the end or wraps around is refused and changes nothing, and otherwise the result is the matching slice of the contents; holes in the range are filled, so nothing changes exactly if there are none, and the disk is full exactly if fewer blocks are free than that takes |
| `Fs.StuckFull` | fs.c:49-72 | an operation that runs out of blocks needed more than there were |
| `Fs.Fs.Itrunc` | fs.c:378-411 | the blocks freed are exactly the file's, the file is empty in memory and on disk, other files are untouched, exactly the map blocks of its blocks and the inode's are logged, and "freeing free block" cannot happen; it is stopped exactly if the list is too long with the map blocks |
| `FileTrunc.OneMapBlock` | fs.c:378-411 | on a disk with one map block that is at most one block more than were listed |
| `Fs.WholeSystem` | fs.c:348-484 | an operation that leaves its file in order leaves all files in order, and the others' contents as they were |
| `Dirents.DirentReads` | mkfs.c:46-53 | the inode number, low byte first, and the name, up to its first zero or 14 bytes, read back from an entry, and the bytes behind the name are zero |
| `Dirents.Namecmp` | string.c:58-66 | zero exactly if the names agree up to their first zero or 14 bytes |
| `DirLookup.Dirlookup` | fs.c:497-521 | for every directory, with or without holes: finds the first entry in use with that name, and its inode number, and finds none only if no entry matches; the panics are exactly another type of file, and a size that is not whole entries, with no match before its end; a hole before the match is all that can stop it otherwise; nothing changes if the blocks up to the entry are there |
| `DirLookup.LookUp` | fs.c:497-521 | on the image of any files that fit: a name finds the first entry made from it, "." and ".." the root and a file's name that file's inode, which has the file's contents, and changes nothing; a name of no entry is not found |
| `DirLookup.OwnNames` | mkfs.c:118-153 | "." and ".." are the first entries of their names, and a file's entry is the first of its name if no earlier file has it |
| `FileWrite.LoggedBlocks` | fs.c:452-484 | on a disk with one bitmap block a write logs its data blocks and at most three more |
| `FileWrite.LoggedExactly` | fs.c:452-484 | a write logs exactly its data blocks, plus one each for a changed indirect block, free map and inode |
| `FileWrite.WithinFile` | file.c:127-145 | within a file without holes that is the number of blocks it spans, so more than MAXOPBLOCKS if and only if it spans more than that many |
| `FileWrite.ChunkFits` | file.c:127-152 | a chunk at any offset logs at most 17 distinct blocks, so log_write's guard stays quiet |
| `FileWrite.File.WriteChunk` | file.c:140-145 | a transaction of filewrite never meets the log's guard; it splices its chunk into the file and logs exactly the counted blocks, is refused and changes nothing, or meets a full disk, exactly if fewer blocks are free than it lacks |
| `FileWrite.File.Filewrite` | file.c:117-156 | all data is written exactly when it starts within the file and ends within its maximum, and otherwise the whole chunks that do; the disk is full exactly if fewer blocks are free than those take, and then the chunks before are in the file; the log's guard never stops it |
| `FileCrash.HomeSystem` | fs.c:49-484 | two disks that agree outside the log hold the same file system |
| `FileCrash.OldOrNew` | log.c:69-200 | if every block that an operation changed is listed, then for every crash point of the commit and any crashes of the recoveries after it the disk that recovery leaves holds the file system from before the operation or the one after it, the latter exactly when the first header write was done |
| `FileCrash.WholeOrNone` | fs.c:452-484 | so a write survives as a whole or not at all: the file has its old contents or those with the data spliced in, and every other file is as it was |
| `FileCrash.CrashingChunk` | file.c:140-145 | that holds of every transaction of filewrite |
| `Mkfs.RoundedRoot` | mkfs.c:158-163 | rounding the root's size leaves the file free of holes if and only if the size was not a multiple of the block size |
| `Boundaries.ThirtyFiles` | mkfs.c:67-168 | the image of thirty empty files is built, and its root directory claims a second block that it does not have |
| `Boundaries.ReadHole` | fs.c:424-450 | readi of an entry in that second block takes a block from the free map and leaves the inode on disk behind the one in memory |
| `Boundaries.WriteHole` | fs.c:479-482 | writei of an entry there takes a block, and leaves the inode on disk behind the one in memory |
| `Boundaries.OverBudget` | file.c:127-145 | the first chunk of a new file on a new image logs sixteen blocks, more than MAXOPBLOCKS; after a crash at any point of its commit the file has the chunk or is empty |
| `Mkfs.Image.constructor` | mkfs.c:93-115 | zeroed sectors and a super block, whose words are the sizes and starts of the layout, are an empty file system |
| `Mkfs.SuperReads` | fs.c:31-37 | the layout read back from the super block is the image's |
| `Mkfs.Image.Winode` | mkfs.c:183-195 | the inode is in its place and every other file is untouched |
| `Mkfs.Image.Rinode` | mkfs.c:197-208 | the inode read back is the one written |
| `Mkfs.Image.Ialloc` | mkfs.c:223-235 | the next inode becomes an empty file with one link, exactly if there is a next one |
| `Mkfs.Image.Place` | mkfs.c:269-286 | the file's block is given out if it was missing, with an indirect block if that was, and all else is as it was; it fails exactly if that takes more blocks than are left |
| `Mkfs.Image.Iappend` | mkfs.c:255-297 | contents grow by exactly the data and the used blocks by exactly what the longer file takes; it fails exactly if the file would be too long or its blocks do not fit on the disk |
| `Mkfs.Image.FixRoot` | mkfs.c:158-163 | the root's bytes stay, and it stays free of holes exactly under the stated condition |
| `Mkfs.Image.Balloc` | mkfs.c:237-251 | exactly the bits below `used` are set |
| `Mkfs.Image.Root` | mkfs.c:117-128 | the root directory with its two entries always fits |
| `Mkfs.Image.AddFile` | mkfs.c:131-153 | the file gets the next inode, its contents, and an entry of that inode and its name, without a leading underscore, behind the others; exactly if there is an inode, neither is too long, and the blocks of both fit |
| `Mkfs.Image.Build` | mkfs.c:67-168 | the image is built if and only if there are inodes for the files, none is too long, and all blocks, indirect ones included, fit on the disk; it then meets the file system's invariant, its log is empty, block 1 holds the super block's seven words, every file has its contents, the bytes of the root's entries read as ".", ".." and each file's inode number and name, and the root is free of holes if and only if (files + 2) % 32 != 0 |
| `Mkfs.RootFinds` | fs.c:497-521 | in the root directory's bytes, for any files: the first entry in use with a name is the first one made from that name |
| `PageTables.Attach` | vm.c:160-201 | linking a zeroed table or a page below a table keeps the tree a tree and its entries right |
| `PageTables.TranslateRefines` | vm.c:160-201 | the four indexed loads compute the map from virtual pages to frames, flags and contents, for every page below 2^47 |
| `PageTables.RightsRefine` | vm.c:160-201 | the rights the processor applies, which are those that the entries of all four levels give, are the ones in the page's own entry |
| `PageTables.TableReached` | vm.c:160-201 | to every page table there is a walk through entries that are present, writable and open to the user |
| `PageTables.IndexBits` | mmu.h:136-156 | the index at each level is nine bits of the virtual address |
| `PageTables.WalkInjective` | mmu.h:136-156 | two virtual pages share a page-table entry only if they are the same page of the same address space |
| `PageTables.FramesDistinct` | vm.c:212-232 | no frame is mapped twice, in one address space or in two |
| `PageTables.TableMaps` | vm.c:160-201 | adding a table changes no translation |
| `PageTables.LeafMaps` | vm.c:212-232 | mapping a page changes its translation and no other |
| `PageTables.NoLeafMaps` | vm.c:322-332 | unmapping a page removes its translation and no other |
| `PageTables.UnderRoot` | vm.c:338-384 | an address space is what lies under its root |
| `PageCount.FreshCount` | vm.c:160-201 | the pages and tables that a range of an empty address space takes, in closed form |
| `Vm.Census` | kalloc.c:25-93 | free pages, pages of the trees and pages the kernel holds add up to all pages |
| `Vm.FourSuffice` | vm.c:160-232 | four free pages for each page of a range are always enough |
| `Vm.Vm.constructor` | kalloc.c:25-47 | every page from the end of the kernel on is on the free list, once |
| `Vm.Vm.Kfree` | kalloc.c:53-71 | the page is junked and heads the list; the panic is exactly a page outside the allocator's range |
| `Vm.Vm.Kalloc` | kalloc.c:76-93 | the head of the list is taken; the panic is exactly the empty list |
| `Vm.Vm.Kvmalloc` | vm.c:116-137 | kernel code finds the first GB of physical memory at KERNBASE, and the fourth 3 GB above it, uncached, both writable and closed to the user, and nothing else; the rest of the root is empty, and the shared table belongs to no address space; memory runs out exactly if fewer than two pages are free |
| `Vm.Vm.KernelHalf` | vm.c:102-137 | so it does in every address space, in every valid state |
| `Vm.Vm.Rights` | vm.c:160-232 | in every valid state user code may read a page, or write it, exactly if its entry has the user bit, or both bits |
| `Vm.Vm.Setupkvm` | vm.c:102-109 | a new address space has the kernel's entry and no translation, and the others are as they were |
| `Vm.Vm.Walkpgdir` | vm.c:160-201 | gives the page table of an address, or none; the processor's walk reaches it through entries that are all present, writable and open to the user; making tables adds exactly those of the walk, changes no translation and no right to any page, and takes exactly as many free pages as were missing; memory runs out exactly if there are fewer |
| `Vm.Vm.Mappages` | vm.c:212-232 | exactly the pages of the byte range are mapped, to consecutive frames with the given flags, and exactly the missing tables are taken from the free list; up to the first page that is mapped already memory runs out exactly if there are fewer free pages than missing tables, and otherwise that page is the panic |
| `Vm.Vm.Allocuvm` | vm.c:278-306 | exactly the pages between the rounded sizes are added, zeroed, in frames that were free; refusals change nothing; memory runs out exactly if there are fewer free pages than the pages and missing tables up to the first one that is mapped already, and the pages before the stop are then there and nothing else has changed |
| `Vm.BackedView` | vm.c:278-306 | a page that it adds reads as zeroes through the processor's walk, in a frame that was free, and user code may read and write it |
| `Vm.Vm.Deallocuvm` | vm.c:312-334 | exactly the pages between the rounded sizes are removed, and exactly their frames are freed |
| `Vm.GrowShrink` | vm.c:278-334 | growing and shrinking again leaves every translation as it was |
| `Vm.Vm.FreeTable` | vm.c:347-383 | freeing a table frees exactly the pages under it, each once, bottom up |
| `Vm.Vm.Freevm` | vm.c:338-384 | exactly the pages of the address space go to the free list, each once; the kernel's table and every other address space are untouched |
| `Vm.FreedExactly` | vm.c:312-384 | what the trees lose is on the free list afterwards, and nothing else is new there |
| `Vm.Vm.Copyuvm` | vm.c:401-429 | the copy has the parent's flags and bytes in frames that were free, from page 1 on, nothing else mapped, and no other translation changed; up to the first missing page memory runs out exactly if there are fewer free pages than the root, pages and tables of the copy, and otherwise that page is the panic; an unfinished copy has the pages before the stop |
| `Vm.CopiedView` | vm.c:401-429 | through the processor's walk a page of the copy has the parent's bytes and flags, and user code the same rights to it |
| `Malloc.GrowTiles` | umalloc.c:46-61 | a region from sbrk is one more block of the heap |
| `Malloc.InsertRing` | umalloc.c:30-43 | linking a block in at its place keeps the ring sorted, closed and free of overlap |
| `Malloc.JoinRing` | umalloc.c:33-42 | joining two blocks that touch keeps it so |
| `Malloc.MergedFits` | umalloc.c:33-42 | the size of two joined blocks does not wrap around |
| `Malloc.Heap.Units` | umalloc.c:69 | enough units for the bytes and the header, and less than one too many |
| `Malloc.Heap.MoreCore` | umalloc.c:46-61 | the new region, of at least 4096 units, joins the free ring near freep, and the live blocks stay |
| `Malloc.Heap.Free` | umalloc.c:24-44 | the block leaves the live blocks, the others keep their place and size, and the free ring is sorted, coalesced and disjoint from them |
| `Malloc.Heap.Scan` | umalloc.c:74-89 | the first free block from freep on that fits is found; memory is asked for exactly if none does, and at most once; the search ends |
| `Malloc.Heap.Malloc` | umalloc.c:63-90 | null exactly if no free block fits and sbrk fails; otherwise the block returned is new, holds the bytes asked for and overlaps no live block; units are conserved, and grow exactly if no free block fits |
| `ProcTable.AllocKeeps` | proc.c:34-77 | taking a slot and the next pid keeps the invariant: pids are unique, and no slot has one that wait returned |
| `ProcTable.ExitKeeps` | proc.c:175-215 | exit keeps the invariant: the children have a live parent, no zombie has children, and a parent asleep in wait has been woken |
| `ProcTable.WaitKeeps` | proc.c:220-259 | wait keeps the invariant: it reaps a zombie child, fails without children or when killed, or sleeps with none of them a zombie |
| `ProcTable.StepKeeps` | proc.c:34-447 | every step keeps the invariant |
| `ProcTable.ExitAndWait` | proc.c:132-259 | in every run no process sleeps in wait when it is killed or has a zombie child, no zombie has children, and no pid is returned by two waits |
| `ProcTable.KilledExact` | proc.c:429-447 | in every run a slot is marked killed exactly if a kill has found it and no wait has reaped it since |
| `ProcTable.NewbornsClean` | proc.c:34-51 | in a run no slot without a process is ever marked killed if and only if no kill of the run finds its pid in such a slot |
| `ProcTable.BornKilled` | proc.c:426-447 | after a kill of pid 0 the slot that the next fork takes is marked killed |
| `ProcTable.KillReaped` | proc.c:240-244 | a kill of a pid that wait has returned finds no slot, in any run |
| `Proc.Ptable.constructor` | proc.c:82-107 | the first process, runnable in slot 0 with pid 1; every other slot is unused, with pid 0 |
| `Proc.Ptable.Allocproc` | proc.c:34-77 | the first unused slot becomes an embryo with the next pid and keeps its mark; no other slot changes, and without an unused one nothing does |
| `Proc.Ptable.Wakeup1` | proc.c:407-415 | exactly the sleepers on the channel become runnable |
| `Proc.Ptable.PassOn` | proc.c:196-205 | exactly the children change parent, and init is woken if one is a zombie |
| `Proc.Ptable.Exit` | proc.c:175-215 | the process is a zombie; exactly its children have init as parent; exactly the sleepers on its parent, and on init if a child was a zombie, are runnable; nothing else of any slot changes |
| `Proc.Ptable.Wait` | proc.c:220-259 | the first zombie child in table order is reaped: its slot is unused, with no pid, parent or mark, and no other slot changes; without one it fails exactly if there is no child or the process is killed, and otherwise sleeps |
| `Proc.Ptable.Kill` | proc.c:429-447 | exactly if some slot has the pid the first such is marked killed, runnable if it slept, and otherwise as it was; no other slot changes |
| `SleepLock.HoldersMove` | sleeplock.c:22-41 | a step changes a spin lock's holder only from nobody to the process or back |
| `SleepLock.StepKeeps` | sleeplock.c:22-41 | every step of acquiresleep, releasesleep, sleep, wakeup and the scheduler keeps the invariant |
| `SleepLock.NoLostWakeup` | proc.c:369-424 | in every interleaving at most one process holds the lock, and with the spin locks free a sleeper means the lock is held |
| `SleepLock.LockedHasOwner` | sleeplock.c:22-41 | a held lock has an owner |
| `Pipe.SameSlot` | pipe.c:11-16 | a position's counter, wrapped at 2^32, indexes the ring as the position does |
| `Pipe.SlotsDiffer` | pipe.c:11-16 | positions less than the ring's size apart are in different slots |
| `Pipe.Pipe.Fill` | pipe.c:11-16 | the difference of the two counters, wrapped, is the number of bytes in the pipe, at most its size |
| `Pipe.Pipe.Write` | pipe.c:78-98 | a prefix of the data is appended to what has been accepted, all of it when the call returns the length |
| `Pipe.Pipe.ReadUpTo` | pipe.c:100-121 | the bytes read are the oldest not yet read; a positive-length read gives 0 only when the pipe is empty and the write end closed |
| `Pipe.Pipe.Close` | pipe.c:59-75 | an end closes, and the bytes in the pipe stay |
| `ShellWords.ParseKeepsWords` | sh.c:268-449 | a parsed line's tree refers to every word of the line and to nothing else |
| `ShellAccepts.Accepts` | sh.c:268-449 | the text of every derivation of the grammar, with any white space between its tokens, parses to what the derivation means: arguments and redirections in any order, each redirection around those before it, pipes and lists to the right, one background node for each & |
| `ShellDerives.Derives` | sh.c:268-449 | every line that the parser accepts is the text of such a derivation, and the command it returns is what the derivation means |
| `ShellDerives.Language` | sh.c:268-449 | so a line parses to a command if and only if it is the text of a derivation that means that command |
| `ShellRoundTrip.RoundTrip` | sh.c:268-449 | parsing the fully parenthesised printing of any command with legal words and at most 9 arguments, with > or >> at each output redirection, gives that command back |
| `Shell.Parser.Gettoken` | sh.c:268-311 | the token, its span and the new position are the specification's |
| `Shell.Parser.PeekFor` | sh.c:313-323 | skips blanks and tells whether one of the given characters is next |
| `Shell.Parser.Redirections` | sh.c:377-400 | redirections wrap the command in the order read |
| `Shell.Parser.ExecCommand` | sh.c:418-449 | arguments in order, at most nine, with the redirections between them |
| `Shell.Parser.BlockCommand` | sh.c:402-416 | a parenthesised line and its redirections |
| `Shell.Parser.PipeCommand` | sh.c:364-375 | pipes associate to the right |
| `Shell.Parser.LineCommand` | sh.c:347-362 | background marks and lists |
| `Shell.Parser.Command` | sh.c:330-345 | the whole line is parsed, or the parser stops with the specification's error |
| `Shell.NulTerminate` | sh.c:452-496 | exactly the ends of the tree's words are overwritten with NUL |
| `Shell.WordsSurvive` | sh.c:452-496 | afterwards every argument and file name reads as exactly its token |
| `Shell.ParseBuffer` | sh.c:330-345 | after parsing and terminating in the line's own buffer every word reads as exactly its token; an error leaves the buffer alone |
| `Grep.Match` | grep.c:72-82 | true exactly when the pattern's denotation matches somewhere, or at the start after ^ |
| `Grep.MatchHere` | grep.c:84-96 | true exactly when the pattern's denotation matches a prefix |
| `Grep.MatchStar` | grep.c:98-106 | true exactly when some repetition followed by the pattern matches a prefix |

## Left out

- Log.Log.Commit: runs with no buffer held by another process; waiting for the sleep lock of a buffer that a reader holds is over.
- Log.Log.WriteLog: likewise.
- Log.Log.WriteHead: likewise.
- Log.Log.InstallTrans: likewise.
- LogSystem.System.Write: bread, change, log_write and brelse of one block are one step; operations interleave between these steps, so no two hold buffers at once.
- Log.Log.Update: likewise.
- FileCrash.CrashingChunk: the chunk is alone in its transaction; of operations that share one, `GroupCommit.GroupCommit` speaks block by block.
- GroupCommit.GroupCommit: takes as hypotheses that each operation adds at most MAXOPBLOCKS blocks and that home blocks lie outside the log; the guard and the append of log_write are one step.
- BufferCache.Bcache.Bread: models one device, number 1, as the kernel uses; where another process holds the buffer, acquiresleep has waited for it (SleepLock models the wait).
- BufferCache.Bcache.Brelse: a holder that changes a buffer has written or pinned it, as every caller does; otherwise the change would be lost on eviction.
- Fs.Fs.Writei: the answers of the device drivers are a parameter; the size in the inode is at most the longest file's; system calls are atomic, one inode is worked on at a time, and disk and cache are one.
- Fs.Fs.Readi: likewise; the call is within a transaction, as a path name's lookup is.  In fileread (file.c:107), which is not, a hole would meet log_write's second panic.
- FileWrite.File.Filewrite: the open file is writable and on disk, neither a pipe nor a device, and the length is not negative.
- Fs.Fs.Bfree: the super block is read once, not again at each call; no operation writes it.
- Mkfs.Image.Build: an image that outgrows its 1000 blocks or 200 inodes is an outcome of the model, where mkfs does not check and goes on; a file's contents come in the pieces in which they are read.
- Vm.Vm.Kfree: the page is one that kalloc has given out and no tree holds, as kalloc.c:49-52 demands; freeing a page twice is not modelled.
- Vm.Vm.Walkpgdir: addresses are below 2^47, the user half that four levels can map.
- Vm.Vm.Mappages: byte ranges are not empty and end below 2^47, and frames are whole pages.
- Vm.Vm.Allocuvm: new sizes are at most 2^47 or at least KERNBASE; those between have addresses that the hardware rejects.
- Vm.Vm.Deallocuvm: old sizes are at most 2^47.
- Vm.Vm.Copyuvm: the branches for a kalloc that returns 0 are not there, since kalloc panics; likewise in walkpgdir and allocuvm.
- Vm.Vm.Freevm: the four nested loops are one method called at each level.
- Malloc.Heap.Malloc: sbrk is a parameter that gives a fresh region above the static header or fails; addresses count header-sized units, and the heap lies within 2^32 units.
- ProcTable.ExitAndWait: kernel stacks, page tables, open files and trap frames of processes, and pid wraparound are not modelled; a CPU is not an entity.
- Pipe.Pipe.Write: a negative length, the wakeups and the freeing of the pipe's page are not modelled; a call ends where the code would sleep.
- ShellDerives.Language: lines hold no NUL.
- Shell.Parser.ExecCommand: the command record that parseexec fills in place is collected first and wrapped afterwards; a malloc that fails and the printing of leftovers are not modelled.
- DirLookup.Dirlookup: the directory is locked, and the inode it names is not fetched.
- The rest of fs.c (inode cache, links, path names), file descriptors, exec, system calls and traps.
- inituvm, loaduvm, clearpteu and copyout, whose effect is that of the members above on single pages.
- ide.c, the console, the UART, interrupt controllers, boot code and assembly; memide.c stands for the disk and spinlock.c for atomic locks.
- grep's line buffering, the small user programs, usertests, the crash-test programs and debugger.py.
