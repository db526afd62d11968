# An in-memory hierarchical filesystem, modelled in Dafny

The system is a small single-user filesystem that lives in one global structure:

- an entry table of 100 slots;
- a pool of 1000 blocks of 1024 bytes;
- a parallel array of free/used markers;
- a live-entry counter;
- the session's current directory.

A slot is in use when its name is non-empty. Slot 0 is the root directory "/", which is its own parent. Files and directories are created in the current directory, in the lowest empty slot. A write stores a file's content, NUL included, in the first run of contiguous free blocks that is long enough, after releasing the file's old run. A read gathers the blocks back, cut to the recorded size. A directory is deleted recursively: one scan of the table deletes every child, recursing into subdirectories, and then the directory itself.

There are two dialects of the command loop:

- `van/main.c` addresses `write`, `read` and `delete` by slot index.
- `Paola/main_with_filename.c` addresses them by name inside the current directory.

## Modules

- `fs_types.dfy` (`FsTypes`): the constants, the entry record, the error kinds, and the arithmetic shared by the routines (name truncation, block count, chunk length).
- `fs_tree.dfy` (`FsTree`): the shape of the parent chains.
  - A ghost ranking `depth` witnesses that the live entries form a tree (`Ranked`).
  - From the ranking it derives a subtree (`Subtree`), the path string of `get_full_path` and the facts about both.
- `fs_spec.dfy` (`FsSpec`): the whole state as a value `Fs`, its invariant `Valid`, and one pure function per operation.
  - Each function follows the C routine branch for branch and returns the new state with an `Ok`/`Err` result.
  - The exception is `DeleteTree`, the recursive deletion. It is a closed form rather than the scan: it removes the whole subtree at once (`SlotsRemoved`). The engine's scan is proved equal to it, so it serves as an independent reference.
- `fs_props.dfy` (`FsProps`): what the operations promise:
  - the invariant and the tree shape they keep;
  - the outcome of each call;
  - sibling names, block accounting, the write/read round trip, and paths after `cd`.
- `fs_engine.dfy` (`FsEngine`): the global structure as a class `FileSystem` over three arrays, with one method per routine.
  - Each method works in place, loop by loop as the C code does.
  - Each method ensures that its effect is exactly that of its `FsSpec` function: `(State(), r) == Op(old(State()), …)`. So every property of `FsProps` holds for the engine.
  - The pairs are `CreateFile`/`Create`, `WriteFile`/`Write`, `ReadFile`/`Read`, `DeleteFile`/`DeleteFile`, `DeleteDirectoryRecursive`/`DeleteTree`, `ChangeDir`/`ChangeDir` and `DeleteCommand`/`DeleteCommand`.
  - The helpers pair as `FindFileInDir`/`Find`, `FindFreeSlot`/`FirstBlank`, `FindFreeRun`/`FirstFit`, `CopyToBlocks`/`CopyIn`, `ReleaseBlocks`/`ReleaseRange` and `GetFullPath`/`FullPath`.
  - The recursive delete is modelled as the C code has it: the scan, with a mutual recursion into subdirectories. Its termination measure is the live subtree, which strictly shrinks.
- `fs_by_name.dfy` (`FsByName`): the name-addressed dialect.
  - It has pure specifications and methods over a `FileSystem`. Each method resolves the name with `find_file_in_dir(name, current_dir)` and then runs the index routine.

## Behaviour captured as the code has it

- **Stale range after a failed write.** A write that finds no long enough run fails only after it has marked the file's old blocks free, and the entry still records them. `WriteReadErrors` states the markers after such a failure for any valid state. `FailedWriteBreaksAccounting` shows that the exact block partition (`Accounted`) does not hold afterwards, whatever held before; every other operation keeps it. The weaker `NoLeak` (a used block is recorded by some live entry) survives every operation.
- **Name truncation.** The duplicate check compares the full name, but only 31 characters are stored.
  - `TruncatedNamesCollide` builds two siblings with equal names from two different 32-character names.
  - `CreateKeepsUniqueSiblings` shows that names of at most 31 characters never collide.
- **Root is its own child.** The root is never empty (`RootNeverEmpty`). From the root, "/" resolves to the root (`SlashAtRoot`).
- **No re-homing of the current directory.** Deleting, by index, a directory that contains the current directory leaves the session dangling. `DeleteTreeRanked` states when the session survives. Deletion by name cannot do that (`NamedDeleteKeepsSession`).
- **A reachable cycle.** In a dangling session a new entry goes into the lowest empty slot under the current directory, which may be that very slot.
  - `DeletedSessionMakesCycle` steps `mkdir a; cd a; delete 1; mkdir b` from the initial state. Every state on the way is valid.
  - At the end slot 1 is its own parent. No ranking of the table exists, and its parent chain never reaches the root.
  - So the next prompt's `get_full_path(1)` (van/main.c:60-67, called at 309-313) does not end. `delete 1` finds slot 1 among its own children and calls itself on it again (van/main.c:103-107), an unbounded recursion that ends only when the stack overflows and the program crashes.
  - The ranking is therefore kept only while the session is valid. The operations that need it (`GetFullPath`, the recursive delete) are modelled only on the tables it admits (see "Left out").

## Model

| member | source | states |
|---|---|---|
| FsTypes.StoredName | van/main.c:153 | the stored name is a prefix of the given one, cut to 31 characters when longer |
| FsTypes.BlocksNeeded | van/main.c:179-180 | the number of blocks is ceil(len / 1024): at least one for a non-empty payload, and just enough to hold it |
| FsTypes.ChunkLength | van/main.c:210-211 | every chunk but the last is a full block; the last is non-empty, at most a block long, and ends exactly at the payload's end |
| FsSpec.Find | van/main.c:73-82 | the result is the lowest live slot with that parent and name, or -1 exactly when there is none |
| FsSpec.FirstBlank | van/main.c:139-145 | the result is the lowest empty slot, or -1 exactly when every slot is live |
| FsSpec.FirstFit | van/main.c:189-205 | the result is the lowest start of a run of n free blocks, or -1 exactly when no such run exists |
| FsSpec.CopyIn | van/main.c:207-213 | blocks outside the run keep their content; block j of the run begins with chunk j of the payload and keeps its old bytes after it (`Overlay`) |
| FsSpec.Gather | van/main.c:246-254 | after i rounds the gathered length is i full blocks, or the whole size after the last round |
| FsSpec.Payload | van/main.c:179 | the stored bytes are the content followed by one NUL |
| FsSpec.InitFs | van/main.c:34-48 | the initial state; `InitValid` and `InitAccounted` prove it valid and partitioned, with only the root live |
| FsSpec.Create | van/main.c:126-164 | creation as the C code branches; `CreateOutcome` gives each outcome, and `CreateValid`, `CreateRanked`, `CreateAccounted`, `CreateNoLeak` and `CreateKeepsUniqueSiblings` what it keeps |
| FsSpec.Write | van/main.c:168-221 | the write as the C code branches; `WriteReadErrors` gives its failures, `WriteThenRead` its round trip with `Read`, and `WriteValid`, `WriteRanked`, `WriteOkAccounted` and `WriteNoLeak` what it keeps |
| FsSpec.Read | van/main.c:224-257 | the read as the C code branches; `WriteReadErrors` gives its failures and `WriteThenRead` what it returns after a write |
| FsSpec.DeleteFile | van/main.c:260-281 | the file deletion as the C code branches; `DeleteFileOutcome` gives each outcome, and `DeleteFileValid`, `DeleteFileRanked`, `DeleteFileAccounted` and `DeleteFileNoLeak` what it keeps |
| FsSpec.DeleteTree | van/main.c:96-123 | the recursive deletion in closed form, the whole subtree at once; the engine's scan is proved equal to it, and `DeleteTreeValid`, `DeleteTreeRanked`, `DeleteTreeLeavesNoDescendant` and `DeleteTreeReleasesBlocks` state its effect |
| FsSpec.ChangeDir | van/main.c:372-392 | `cd` as the command loop branches; `ChangeDirOutcome` gives each outcome in both directions |
| FsSpec.DeleteCommand | van/main.c:425-445 | the delete command: index 0 refused, otherwise directory or file deletion; `DeletedSessionMakesCycle` shows where it leads from a dangling session |
| FsTree.FullPath | van/main.c:51-70 | the path `get_full_path` builds; `PathFuelIrrelevant`, `PathAfterCd` and `PathAfterCdUp` prove what it is |
| FsTree.RankedReachesRoot | van/main.c:60-67 | in a ranked table every live entry's parent chain reaches the root, so the path walk ends |
| FsTree.PathFuelIrrelevant | van/main.c:51-70 | the path string does not depend on how much of the chain the walk is allowed to follow |
| FsTree.SubtreeOfChild | van/main.c:103-107 | the subtree of a child of d lies inside the subtree of d and does not contain d |
| FsTree.ClearSubtreeRanked | van/main.c:96-123 | removing a whole subtree leaves the table ranked: no live entry is left under a removed parent |
| FsTree.ClearedSubtreeUnreachable | van/main.c:96-123 | once a subtree is removed, no remaining live entry has any removed entry as an ancestor |
| FsTree.BelowDirectory | van/main.c:104-107 | in a ranked table every proper ancestor of a live entry is a live directory, so a file has no descendants |
| FsProps.LiveCountIsCard | van/main.c:27 | the counted live slots are exactly the cardinality of the set of live slots |
| FsProps.InitValid | van/main.c:34-48 | after initialisation every block is free, slot 0 (the directory "/", its own parent) is the only live entry, one entry is counted, and the session is at the root |
| FsProps.InitAccounted | van/main.c:34-48 | the initial state satisfies the block partition |
| FsProps.CreateNeverLacksSlot | van/main.c:139-150 | while the counter equals the number of live slots, the "no free slot" failure never happens |
| FsProps.CreateValid | van/main.c:126-164 | creation with a non-empty name keeps the state invariant, the counter included |
| FsProps.CreateOutcome | van/main.c:126-164 | creation fails with no change exactly when the table is full or the name is taken in the current directory, and with no other error; otherwise it succeeds and fills the lowest empty slot with an empty entry under the current directory and counts it |
| FsProps.CreateRanked | van/main.c:152-161 | a new entry under a live current directory keeps the table ranked, with rank one more than its parent's |
| FsProps.CreateAccounted | van/main.c:126-164 | creation keeps the block partition |
| FsProps.CreateKeepsUniqueSiblings | van/main.c:133-136 | with names of at most 31 characters, creation never makes two live siblings share a name |
| FsProps.WriteKeepsUniqueSiblings | van/main.c:168-221 | a write, and a `cd`, keep live sibling names distinct |
| FsProps.DeleteFileKeepsUniqueSiblings | van/main.c:260-281 | a file deletion keeps live sibling names distinct |
| FsProps.DeleteTreeKeepsUniqueSiblings | van/main.c:96-123 | a recursive deletion keeps live sibling names distinct |
| FsProps.TruncatedNamesCollide | van/main.c:133 | two 32-character names that differ only in the last character both succeed and produce two siblings with equal names |
| FsProps.WriteValid | van/main.c:168-221 | a write, successful or not, keeps the state invariant |
| FsProps.WriteRanked | van/main.c:215-217 | a write keeps the table ranked and leaves the current directory and the session as they were |
| FsProps.WriteReadErrors | van/main.c:169-238 | write and read reject a bad index, an empty slot or a directory with no change; a write otherwise fails only when no long enough run exists after the release, and then the entries, blocks, count and current directory are kept and the markers are the old ones with the file's recorded range free; a read rejects a file never written; no other error is possible, so a write with a fitting run and a read of a written file succeed |
| FsProps.WriteClaimsFirstFit | van/main.c:179-219 | a successful write takes the lowest run of ceil((strlen+1)/1024) free blocks after the release, marks exactly that run used, and leaves every other entry untouched |
| FsProps.WriteOkAccounted | van/main.c:183-213 | a successful write keeps the block partition |
| FsProps.FailedWriteBreaksAccounting | van/main.c:183-205 | from any valid state, a write of a file with content that runs out of space leaves the entry unchanged and its old blocks marked free, so the block partition does not hold afterwards |
| FsProps.GatherCopyIn | van/main.c:207-213 | reading back the blocks just written yields exactly the prefix of the payload the rounds cover |
| FsProps.WriteThenRead | van/main.c:217 | after a successful write the size is strlen+1 and a read returns exactly the content followed by NUL |
| FsProps.DeleteFileValid | van/main.c:260-281 | a file deletion keeps the state invariant |
| FsProps.DeleteFileOutcome | van/main.c:260-281 | deletion of a file rejects a bad index, an empty slot or a directory with no change, and fails in no other case; on success it frees exactly the recorded range, blanks the slot and uncounts it |
| FsProps.DeleteFileRanked | van/main.c:277-278 | a file deletion keeps the table ranked and the session still valid |
| FsProps.DeleteFileAccounted | van/main.c:271-278 | a file deletion keeps the block partition |
| FsProps.DeleteTreeValid | van/main.c:96-123 | a recursive deletion keeps the state invariant, the counter included |
| FsProps.DeleteTreeRanked | van/main.c:96-123 | a recursive deletion keeps the table ranked; the session survives exactly when the current directory is outside the deleted subtree |
| FsProps.DeleteTreeLeavesNoDescendant | van/main.c:96-123 | after a recursive deletion no live entry lies below any entry of the deleted subtree |
| FsProps.DeleteTreeReleasesBlocks | van/main.c:109-112 | every block recorded by a file of the deleted subtree is free afterwards |
| FsProps.DeleteTreeAccounted | van/main.c:96-123 | a recursive deletion keeps the block partition |
| FsProps.AccountedNoLeak | van/main.c:26 | the block partition implies that every used block is recorded by a live entry |
| FsProps.CreateNoLeak | van/main.c:126-164 | creation keeps every used block recorded by a live entry |
| FsProps.WriteNoLeak | van/main.c:168-221 | a write, even a failed one, keeps every used block recorded by a live entry |
| FsProps.DeleteFileNoLeak | van/main.c:260-281 | a file deletion keeps every used block recorded by a live entry |
| FsProps.DeleteTreeNoLeak | van/main.c:96-123 | a recursive deletion keeps every used block recorded by a live entry |
| FsProps.ChangeDirValid | van/main.c:378-391 | `cd` keeps the state invariant |
| FsProps.ChangeDirOutcome | van/main.c:378-391 | `cd` changes only the current directory: ".." goes to the parent, staying put at the root; a name is not found exactly when nothing of that name is in the current directory, is refused exactly when its first match is not a directory, and otherwise is entered; a failure changes nothing |
| FsProps.ChangeDirSession | van/main.c:378-391 | `cd` from a valid session leads to a valid session |
| FsProps.SlashAtRoot | van/main.c:41-45 | from the root, "/" resolves to the root, so `cd /` stays at the root and creating "/" there is a duplicate |
| FsProps.RootNeverEmpty | van/main.c:85-93 | the root always counts as non-empty, for it is its own child |
| FsProps.PathAfterCd | van/main.c:51-70 | after `cd name` into a subdirectory, the full path is the old one extended by "/name" |
| FsProps.PathAfterCdUp | van/main.c:378-381 | after `cd ..` below the root, the full path is the old one without its last "/name" |
| FsProps.SelfParentNeverReachesRoot | van/main.c:60-67 | the path walk from a slot that is its own parent never reaches the root |
| FsProps.OrphanPath | van/main.c:60-67 | the walk from an entry whose parent slot is empty passes through that slot and reaches the root, building "//" followed by the entry's name |
| FsProps.DeletedSessionMakesCycle | van/main.c:139-161 | `mkdir a; cd a; delete 1; mkdir b` from the initial state succeeds through valid states and leaves slot 1 its own parent: no ranking exists and its chain never reaches the root |
| FsEngine.FileSystem.Init | van/main.c:34-48 | the constructed state is the initial state, which is valid, ranked and in session |
| FsEngine.FileSystem.FindFileInDir | van/main.c:73-82 | the scan returns the same slot as the specification of lookup |
| FsEngine.FileSystem.IsDirectoryEmpty | van/main.c:85-93 | the scan answers empty exactly when no live entry has that parent |
| FsEngine.FileSystem.GetFullPath | van/main.c:51-70 | the prepending walk builds exactly the path over the parent chain, "/" for the root |
| FsEngine.FileSystem.FindFreeRun | van/main.c:189-200 | the consecutive-count scan with early exit finds exactly the first-fit start |
| FsEngine.FileSystem.FindFreeSlot | van/main.c:138-145 | the scan finds exactly the lowest empty slot |
| FsEngine.FileSystem.CreateFile | van/main.c:126-164 | the new state and result are those of the creation specification; it keeps the invariant, the ranking and the session |
| FsEngine.FileSystem.WriteFile | van/main.c:168-221 | the new state and result are those of the write specification; it keeps the invariant, the ranking and the session |
| FsEngine.FileSystem.CopyToBlocks | van/main.c:207-213 | the copy loop claims exactly the run and stores each chunk in its block |
| FsEngine.FileSystem.CopyChunk | van/main.c:209-211 | one round copies chunk j of the payload to the front of its block and changes no other block |
| FsEngine.FileSystem.ReadFile | van/main.c:224-257 | the gathered result is that of the read specification |
| FsEngine.FileSystem.DeleteFile | van/main.c:260-281 | the new state and result are those of the file deletion specification |
| FsEngine.FileSystem.EraseFile | van/main.c:110-114 | freeing a file's run and blanking its slot has exactly the effect of a successful file deletion |
| FsEngine.FileSystem.ReleaseBlocks | van/main.c:184-186 | the release loop marks exactly the range free |
| FsEngine.FileSystem.DeleteDirectoryRecursive | van/main.c:96-123 | the new state and result are those of the recursive deletion specification, and the table stays ranked |
| FsEngine.FileSystem.DeleteChildren | van/main.c:103-117 | the scan deletes exactly the subtree below d, releasing its blocks and uncounting its entries |
| FsEngine.FileSystem.DeleteChild | van/main.c:104-116 | one step of the scan keeps the cleared part closed under "child of" and leaves no live child of d before the next slot |
| FsEngine.FileSystem.DeleteEntry | van/main.c:106-115 | deleting a live child, by recursion or by erasure, removes exactly its subtree |
| FsEngine.FileSystem.ChangeDir | van/main.c:372-392 | the new state and result are those of the `cd` specification |
| FsEngine.FileSystem.DeleteCommand | van/main.c:425-445 | the new state and result are those of the delete command specification: index 0 refused, otherwise directory or file deletion |
| FsEngine.ClosedCovers | van/main.c:103-117 | once the scan has passed every child of d, the cleared set is the whole subtree except d |
| FsEngine.FileSubtree | van/main.c:110-114 | a live file's subtree is itself, and erasing it is removing that subtree |
| FsEngine.FinishTree | van/main.c:119-122 | blanking d once its children's subtrees are gone completes the recursive deletion |
| FsByName.Resolve | Paola/main_with_filename.c:73-82 | the resolved slot is a live child of the current directory; it is the root exactly for "/" at the root |
| FsByName.ResolveStable | Paola/main_with_filename.c:73-82 | tables that agree on liveness, parents and names resolve every name alike |
| FsByName.NamedFailureKeepsState | Paola/main_with_filename.c:167-177 | a failed named write or delete changes no entry and no content; it changes nothing unless space ran out |
| FsByName.NamedWriteThenRead | Paola/main_with_filename.c:167-258 | after a successful named write the name still resolves to the same file, and a named read returns the content followed by NUL |
| FsByName.NamedDeleteRemovesName | Paola/main_with_filename.c:428-447 | with distinct sibling names, a successful delete command leaves nothing of that name in the current directory |
| FsByName.NamedDeleteKeepsSession | Paola/main_with_filename.c:428-447 | the delete command keeps the invariant and the ranking, and it never leaves the session dangling |
| FsByName.NamedDeleteIsIndexDelete | Paola/main_with_filename.c:428-447 | a name other than "/" never resolves to the root, and the command then does what the index command does on the resolved slot |
| FsByName.NamedOperationsKeepUniqueSiblings | Paola/main_with_filename.c:167-283 | named writes, file deletions and delete commands keep live sibling names distinct |
| FsByName.WriteNamed | Paola/main_with_filename.c:167-221 | the named write: an unknown name fails with no change, otherwise the index write of the resolved slot; `NamedWriteThenRead` and `NamedFailureKeepsState` state its outcomes |
| FsByName.ReadNamed | Paola/main_with_filename.c:224-258 | the named read: an unknown name fails, otherwise the index read; `NamedWriteThenRead` gives its result after a write |
| FsByName.DeleteFileNamed | Paola/main_with_filename.c:261-283 | the named file deletion: an unknown name fails with no change, otherwise the index deletion; `NamedFailureKeepsState` gives its failures |
| FsByName.DeleteCommandNamed | Paola/main_with_filename.c:423-447 | the named delete command: "/" refused, an unknown name not found, a directory deleted recursively, a file deleted; `NamedDeleteRemovesName`, `NamedDeleteKeepsSession` and `NamedDeleteIsIndexDelete` state its effect |
| FsByName.WriteByName | Paola/main_with_filename.c:167-221 | the new state and result are those of the named write specification |
| FsByName.ReadByName | Paola/main_with_filename.c:224-258 | the result is that of the named read specification |
| FsByName.DeleteFileByName | Paola/main_with_filename.c:261-283 | the new state and result are those of the named file deletion specification |
| FsByName.DeleteByName | Paola/main_with_filename.c:423-447 | the new state and result are those of the named delete command, and the session survives |

## Left out

- Timestamps: `created` and `modified` come from the clock and are not modelled.
- Allocation failure in `read_file`: `malloc` is a foreign call. A read returns the gathered bytes as a value.
- `MAX_PATH` truncation in `get_full_path`: paths are unbounded strings.
- `list_directory`, `print_prompt` and `print_help` only format output and are not modelled.
- The command loop's tokenising, `atoi` and every diagnostic message are not modelled. Each error is a distinct `FsError` value. The empty-argument usage checks become the requirements `name != ""` on creation. `cd` with an empty name is simply not found.
- `FsEngine.FileSystem.CreateFile` requires a non-empty name with no NUL in it. The command loop guarantees this, and `create_file("")` would count a slot it leaves empty.
- `FsEngine.FileSystem.WriteFile` requires content with no NUL in it, as a C string has.
- `FsEngine.FileSystem.DeleteDirectoryRecursive` requires a ranked table (`Tree()`). Every operation keeps the ranking only while the session is valid. In the index dialect, deleting the current directory and creating again can leave two kinds of table it excludes:
  - a cyclic one (`DeletedSessionMakesCycle`), on which the C recursion does not end;
  - an acyclic one with an orphan, a live entry whose parent slot is empty, on which the C recursion does end. An example is `mkdir z; mkdir a; delete 1; cd a; delete 2; mkdir x`. The model promises nothing about deleting a directory on such a table.
  - Index 0 is excluded because the root is its own child and the recursion would never end.
- `FsEngine.FileSystem.DeleteCommand` requires `0 <= index < 100`. The C code reads `files[index]` there with no bounds check, which is undefined behaviour for other indices. For a directory it also requires `Tree()`, and so it excludes the cyclic and orphan tables listed for `DeleteDirectoryRecursive`.
- `FsSpec.DeleteTree` requires a ranked table, and so it says nothing about the cyclic and orphan tables listed for `FsEngine.FileSystem.DeleteDirectoryRecursive`. On an orphan table the C recursion ends, but the model gives no result there.
- `FsSpec.DeleteCommand` requires a ranked table for a directory index, and so it says nothing about the same tables (see `FsEngine.FileSystem.DeleteCommand`). It also requires `0 <= index < 100`, for the reason given there.
- `FsEngine.FileSystem.GetFullPath` requires that the parent chain reaches the root. On a cyclic chain (`DeletedSessionMakesCycle`) the C loop never ends, and the model describes no result. An orphan's chain does reach the root: it goes through the empty parent slot, whose parent is 0. There the model gives the same path as the C loop, "//" followed by the orphan's name (`OrphanPath`).
- Blocks are modelled as a sequence of fixed-length character sequences held in one array, not as a two-dimensional array. A `char` stands for a C byte.
- Sizes are unbounded integers. No value of the system comes near the width of `int` or `size_t`.
- The name-addressed file's own copy of `init_filesystem`, `create_file` and the other shared routines is the same code as the index-addressed one. It is modelled once, by `FsEngine`.
