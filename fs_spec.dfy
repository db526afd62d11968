/** The filesystem as one value, and one pure function per operation of the storage engine.
    Each function states the effect of the C routine it is named after, step by step as the
    routine performs it; the engine's methods are proved to have exactly these effects. */
module FsSpec {
  import opened FsTypes
  import opened FsTree

  /** The global `FileSystem fs`: entry table, free-block markers (true = free), the block
      pool, the `num_files` counter and the session's current directory. */
  datatype Fs = Fs(
    files: seq<Entry>,
    free: seq<bool>,
    blocks: seq<Block>,
    numFiles: int,
    cwd: int)

  /** Block `k` lies in the range an entry records. */
  predicate Owns(e: Entry, k: int) {
    e.startBlock <= k < e.startBlock + e.numBlocks
  }

  /** The shape every slot keeps under every operation: an empty slot is all zeros, its
      parent is an index of the table, its block range is either the "no content" sentinel
      (-1, 0) or lies inside the pool, directories own no blocks, and a file that has content
      records as many blocks as its size needs. */
  predicate WellFormedEntry(e: Entry) {
    && (!IsLive(e) ==> e == BlankEntry)
    && 0 <= e.parent < MAX_FILES
    && 0 <= e.numBlocks
    && ((e.startBlock == -1 && e.numBlocks == 0) || (0 <= e.startBlock && e.startBlock + e.numBlocks <= MAX_BLOCKS))
    && (e.isDirectory ==> e.numBlocks == 0)
    && (IsLive(e) && !e.isDirectory && e.startBlock != -1 ==> e.size >= 1 && e.numBlocks == BlocksNeeded(e.size))
  }

  /** The number of live slots. */
  function LiveCount(s: seq<Entry>): (n: nat)
    ensures n <= |s|
  {
    if s == [] then 0 else LiveCount(s[..|s| - 1]) + (if IsLive(s[|s| - 1]) then 1 else 0)
  }

  /** The invariant that every operation of the engine preserves. */
  predicate Valid(fs: Fs) {
    && |fs.files| == MAX_FILES && |fs.free| == MAX_BLOCKS && |fs.blocks| == MAX_BLOCKS
    && (forall k :: 0 <= k < MAX_BLOCKS ==> |fs.blocks[k]| == BLOCK_SIZE)
    && fs.files[0] == RootEntry
    && (forall x :: 0 <= x < MAX_FILES ==> WellFormedEntry(fs.files[x]))
    && fs.numFiles == LiveCount(fs.files)
    && 0 <= fs.cwd < MAX_FILES
  }

  /** The session refers to a live directory (it can stop doing so: no operation re-homes it). */
  predicate SessionOk(fs: Fs)
    requires Valid(fs)
  {
    IsLive(fs.files[fs.cwd]) && fs.files[fs.cwd].isDirectory
  }

  // ---------------------------------------------------------------- scans of the entry table

  /** The test of `find_file_in_dir`'s loop. */
  predicate Matches(e: Entry, name: string, dir: int) {
    IsLive(e) && e.parent == dir && e.name == name
  }

  function FindFrom(s: seq<Entry>, name: string, dir: int, i: nat): (r: int)
    requires i <= |s|
    ensures r == -1 || (i <= r < |s| && Matches(s[r], name, dir))
    ensures r == -1 ==> forall j :: i <= j < |s| ==> !Matches(s[j], name, dir)
    ensures r != -1 ==> forall j :: i <= j < r ==> !Matches(s[j], name, dir)
    decreases |s| - i
  {
    if i == |s| then -1
    else if Matches(s[i], name, dir) then i
    else FindFrom(s, name, dir, i + 1)
  }

  /** `find_file_in_dir`: the lowest live index with that parent and name, or -1. */
  function Find(s: seq<Entry>, name: string, dir: int): (r: int)
    ensures r == -1 || (0 <= r < |s| && Matches(s[r], name, dir))
    ensures r == -1 <==> forall j :: 0 <= j < |s| ==> !Matches(s[j], name, dir)
    ensures r != -1 ==> forall j :: 0 <= j < r ==> !Matches(s[j], name, dir)
  {
    FindFrom(s, name, dir, 0)
  }

  function FirstBlankFrom(s: seq<Entry>, i: nat): (r: int)
    requires i <= |s|
    ensures r == -1 || (i <= r < |s| && !IsLive(s[r]))
    ensures r == -1 ==> forall j :: i <= j < |s| ==> IsLive(s[j])
    ensures r != -1 ==> forall j :: i <= j < r ==> IsLive(s[j])
    decreases |s| - i
  {
    if i == |s| then -1
    else if !IsLive(s[i]) then i
    else FirstBlankFrom(s, i + 1)
  }

  /** The free-slot search of `create_file`: the lowest empty slot, or -1. */
  function FirstBlank(s: seq<Entry>): (r: int)
    ensures r == -1 || (0 <= r < |s| && !IsLive(s[r]))
    ensures r == -1 <==> forall j :: 0 <= j < |s| ==> IsLive(s[j])
    ensures r != -1 ==> forall j :: 0 <= j < r ==> IsLive(s[j])
  {
    FirstBlankFrom(s, 0)
  }

  /** `is_directory_empty` answers 0 exactly when this holds. */
  predicate HasChild(s: seq<Entry>, dir: int) {
    exists i :: 0 <= i < |s| && IsLive(s[i]) && s[i].parent == dir
  }

  // ---------------------------------------------------------------- the block pool

  /** Blocks `start` .. `start + n - 1` exist and are all free. */
  predicate RunFree(free: seq<bool>, start: int, n: nat) {
    0 <= start && start + n <= |free| && forall k :: start <= k < start + n ==> free[k]
  }

  function FirstFitFrom(free: seq<bool>, n: nat, p: nat): (r: int)
    ensures r == -1 || (p <= r && RunFree(free, r, n))
    ensures r == -1 ==> forall q :: p <= q ==> !RunFree(free, q, n)
    ensures r != -1 ==> forall q :: p <= q < r ==> !RunFree(free, q, n)
    decreases |free| - p
  {
    if p + n > |free| then -1
    else if forall k :: p <= k < p + n ==> free[k] then p
    else FirstFitFrom(free, n, p + 1)
  }

  /** First-fit: the lowest start of a run of `n` free blocks, or -1 when there is none. */
  function FirstFit(free: seq<bool>, n: nat): (r: int)
    ensures r == -1 || RunFree(free, r, n)
    ensures r == -1 <==> forall q :: 0 <= q ==> !RunFree(free, q, n)
    ensures r != -1 ==> forall q :: 0 <= q < r ==> !RunFree(free, q, n)
  {
    FirstFitFrom(free, n, 0)
  }

  /** The markers after `free_blocks[start + i] = 1` for every i < count. */
  function ReleaseRange(free: seq<bool>, start: int, count: int): seq<bool> {
    seq(|free|, k requires 0 <= k < |free| => free[k] || start <= k < start + count)
  }

  /** The markers after `free_blocks[start + i] = 0` for every i < count. */
  function ClaimRange(free: seq<bool>, start: int, count: int): seq<bool> {
    seq(|free|, k requires 0 <= k < |free| => free[k] && !(start <= k < start + count))
  }

  /** Block number `j` of the payload `data` after the `memcpy` of `write_file`: the chunk of
      `data` it carries, followed by whatever the block held beyond that chunk. */
  function Overlay(b: Block, data: seq<char>, j: nat): (r: Block)
    requires |b| == BLOCK_SIZE && |data| >= 1 && j < BlocksNeeded(|data|)
    ensures |r| == BLOCK_SIZE
    ensures r[..ChunkLength(j, BlocksNeeded(|data|), |data|)] ==
      data[j * BLOCK_SIZE .. j * BLOCK_SIZE + ChunkLength(j, BlocksNeeded(|data|), |data|)]
    ensures r[ChunkLength(j, BlocksNeeded(|data|), |data|)..] == b[ChunkLength(j, BlocksNeeded(|data|), |data|)..]
  {
    var len := ChunkLength(j, BlocksNeeded(|data|), |data|);
    data[j * BLOCK_SIZE .. j * BLOCK_SIZE + len] + b[len..]
  }

  /** The pool after `data` has been copied into the blocks from `start` on. This is the
      reference for the copy loop; `GatherCopyIn` and `WriteThenRead` prove what it holds. */
  function CopyIn(blocks: seq<Block>, start: int, data: seq<char>): (r: seq<Block>)
    requires forall k :: 0 <= k < |blocks| ==> |blocks[k]| == BLOCK_SIZE
    requires |data| >= 1
    ensures |r| == |blocks| && forall k :: 0 <= k < |r| ==> |r[k]| == BLOCK_SIZE
    ensures forall k :: 0 <= k < |r| && !(start <= k < start + BlocksNeeded(|data|)) ==> r[k] == blocks[k]
    ensures forall k :: 0 <= k < |r| && start <= k < start + BlocksNeeded(|data|) ==>
      r[k] == Overlay(blocks[k], data, k - start)
  {
    seq(|blocks|, k requires 0 <= k < |blocks| =>
      if start <= k < start + BlocksNeeded(|data|) then Overlay(blocks[k], data, k - start) else blocks[k])
  }

  /** What the copy loop of `read_file` has gathered after its first `i` rounds: full blocks,
      then the last block cut to the remainder of `size`. */
  function Gather(blocks: seq<Block>, start: int, n: nat, size: nat, i: nat): (r: seq<char>)
    requires size >= 1 && n == BlocksNeeded(size) && i <= n
    requires 0 <= start && start + n <= |blocks|
    requires forall k :: 0 <= k < |blocks| ==> |blocks[k]| == BLOCK_SIZE
    ensures |r| == if i < n then i * BLOCK_SIZE else size
  {
    if i == 0 then []
    else Gather(blocks, start, n, size, i - 1) + blocks[start + i - 1][..ChunkLength(i - 1, n, size)]
  }

  // ---------------------------------------------------------------- operations

  /** `init_filesystem`. */
  function InitFs(): Fs {
    Fs(seq(MAX_FILES, i requires 0 <= i < MAX_FILES => if i == 0 then RootEntry else BlankEntry),
       seq(MAX_BLOCKS, k => true),
       seq(MAX_BLOCKS, k => seq(BLOCK_SIZE, j => NUL)),
       1,
       0)
  }

  /** The slot `create_file` fills: truncated name, no content, parent = current directory. */
  function NewEntry(name: string, isDirectory: bool, parent: int): Entry {
    Entry(StoredName(name), 0, -1, 0, isDirectory, parent)
  }

  /** `create_file(name, isDirectory)`. */
  function Create(fs: Fs, name: string, isDirectory: bool): (Fs, Result<int>)
    requires Valid(fs)
  {
    if fs.numFiles >= MAX_FILES then (fs, Err(TableFull))
    else if Find(fs.files, name, fs.cwd) != -1 then (fs, Err(DuplicateName))
    else
      var slot := FirstBlank(fs.files);
      if slot == -1 then (fs, Err(NoFreeSlot))
      else
        (fs.(files := fs.files[slot := NewEntry(name, isDirectory, fs.cwd)],
             numFiles := fs.numFiles + 1),
         Ok(slot))
  }

  /** The bytes `write_file` stores for a C string: its characters and the terminating NUL.
      A reference definition; `WriteThenRead` proves that a read returns exactly these. */
  function Payload(content: string): (data: seq<char>)
    ensures |data| == |content| + 1 && data[..|content|] == content && data[|content|] == NUL
  {
    content + [NUL]
  }

  /** The markers after the first loop of `write_file`, which frees the entry's old range. */
  function ReleaseOld(free: seq<bool>, e: Entry): seq<bool> {
    if e.startBlock != -1 then ReleaseRange(free, e.startBlock, e.numBlocks) else free
  }

  /** `write_file(idx, content)`, addressed by slot index. */
  function Write(fs: Fs, idx: int, content: string): (Fs, Result<()>)
    requires Valid(fs)
  {
    if !(0 <= idx < MAX_FILES) || !IsLive(fs.files[idx]) then (fs, Err(InvalidIndex))
    else if fs.files[idx].isDirectory then (fs, Err(IsADirectory))
    else
      var e := fs.files[idx];
      var data := Payload(content);
      var n := BlocksNeeded(|data|);
      var free := ReleaseOld(fs.free, e);
      var start := FirstFit(free, n);
      if start == -1 then (fs.(free := free), Err(OutOfSpace))
      else
        (fs.(files := fs.files[idx := e.(startBlock := start, numBlocks := n, size := |data|)],
             free := ClaimRange(free, start, n),
             blocks := CopyIn(fs.blocks, start, data)),
         Ok(()))
  }

  /** The bytes the copy loop of `read_file` returns for a written file. */
  function Stored(fs: Fs, idx: int): seq<char>
    requires Valid(fs) && 0 <= idx < MAX_FILES
    requires IsLive(fs.files[idx]) && !fs.files[idx].isDirectory && fs.files[idx].startBlock != -1
  {
    var e := fs.files[idx];
    Gather(fs.blocks, e.startBlock, e.numBlocks, e.size, e.numBlocks)
  }

  /** `read_file(idx)`, addressed by slot index (the `malloc` failure is not modelled). */
  function Read(fs: Fs, idx: int): Result<seq<char>>
    requires Valid(fs)
  {
    if !(0 <= idx < MAX_FILES) || !IsLive(fs.files[idx]) then Err(InvalidIndex)
    else if fs.files[idx].isDirectory then Err(IsADirectory)
    else if fs.files[idx].startBlock == -1 then Err(EmptyFile)
    else Ok(Stored(fs, idx))
  }

  /** `delete_file(idx)`, addressed by slot index. */
  function DeleteFile(fs: Fs, idx: int): (Fs, Result<()>)
    requires Valid(fs)
  {
    if !(0 <= idx < MAX_FILES) || !IsLive(fs.files[idx]) then (fs, Err(InvalidIndex))
    else if fs.files[idx].isDirectory then (fs, Err(IsADirectory))
    else
      var e := fs.files[idx];
      (fs.(free := ReleaseRange(fs.free, e.startBlock, e.numBlocks),
           files := fs.files[idx := BlankEntry],
           numFiles := fs.numFiles - 1),
       Ok(()))
  }

  /** Block `k` lies in the range of some slot of `S`. */
  ghost predicate OwnedBy(s: seq<Entry>, S: set<int>, k: int) {
    exists x :: x in S && 0 <= x < |s| && Owns(s[x], k)
  }

  /** The markers once every range recorded by a slot of `S` has been freed. */
  ghost function ReleaseAll(free: seq<bool>, s: seq<Entry>, S: set<int>): seq<bool> {
    seq(|free|, k requires 0 <= k < |free| => free[k] || OwnedBy(s, S, k))
  }

  /** `delete_directory_recursive(d)`: a file is refused; a directory is removed with its whole
      subtree, every file of which returns its blocks, and `num_files` drops by the subtree's
      size. (`depth` is the ranking that shows the recursion ends.) */
  ghost function DeleteTree(fs: Fs, depth: seq<nat>, d: int): (Fs, Result<()>)
    requires Valid(fs) && Ranked(fs.files, depth) && 0 < d < MAX_FILES
  {
    if !fs.files[d].isDirectory then (fs, Err(NotADirectory))
    else
      (SlotsRemoved(fs, Subtree(fs.files, depth, d)), Ok(()))
  }

  /** The state once the slots `S` are blanked, the blocks they record are free again and the
      count has dropped by their number. */
  ghost function SlotsRemoved(fs: Fs, S: set<int>): Fs {
    Fs(ClearSlots(fs.files, S), ReleaseAll(fs.free, fs.files, S), fs.blocks, fs.numFiles - |S|, fs.cwd)
  }

  /** The `cd` branch of the command loop (shared by both variants). */
  function ChangeDir(fs: Fs, arg: string): (Fs, Result<()>)
    requires Valid(fs)
  {
    if arg == ".." then
      (if fs.cwd != 0 then fs.(cwd := fs.files[fs.cwd].parent) else fs, Ok(()))
    else
      var i := Find(fs.files, arg, fs.cwd);
      if i == -1 then (fs, Err(NotFound))
      else if !fs.files[i].isDirectory then (fs, Err(NotADirectory))
      else (fs.(cwd := i), Ok(()))
  }

  /** The `delete <index>` branch of the index-addressed command loop. */
  ghost function DeleteCommand(fs: Fs, depth: seq<nat>, idx: int): (Fs, Result<()>)
    requires Valid(fs) && 0 <= idx < MAX_FILES
    requires idx != 0 && fs.files[idx].isDirectory ==> Ranked(fs.files, depth)
  {
    if idx == 0 then (fs, Err(CannotDeleteRoot))
    else if fs.files[idx].isDirectory then DeleteTree(fs, depth, idx)
    else DeleteFile(fs, idx)
  }
}
