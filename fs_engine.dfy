/** The storage engine as the C code runs it: the global `FileSystem` as an object over
    arrays, each routine a method that updates the arrays in place, loop by loop.
    Every method is proved to have exactly the effect of the pure operation of FsSpec
    with the same name, so everything proved about those applies to the engine. */
module FsEngine {
  import opened FsTypes
  import opened FsTree
  import opened FsSpec
  import opened FsProps

  class FileSystem {
    /** `fs.files`, `fs.free_blocks` (true = free) and `fs.blocks`. */
    const files: array<Entry>
    const freeBlocks: array<bool>
    const blocks: array<Block>
    /** `fs.num_files` and `fs.current_dir`. */
    var numFiles: int
    var currentDir: int
    /** A rank per slot that witnesses that the parent links form a tree (see Tree()). */
    ghost var depth: seq<nat>

    /** The whole state as one value. */
    function State(): Fs
      reads this, files, freeBlocks, blocks
    {
      Fs(files[..], freeBlocks[..], blocks[..], numFiles, currentDir)
    }

    ghost predicate Valid()
      reads this, files, freeBlocks, blocks
    {
      && files.Length == MAX_FILES && freeBlocks.Length == MAX_BLOCKS && blocks.Length == MAX_BLOCKS
      && |depth| == MAX_FILES
      && FsSpec.Valid(State())
    }

    /** The parent links form a tree that `depth` ranks. */
    ghost predicate Tree()
      reads this, files, freeBlocks, blocks
    {
      Valid() && Ranked(files[..], depth)
    }

    /** The current directory is a live directory. */
    ghost predicate Session()
      reads this, files, freeBlocks, blocks
    {
      Valid() && SessionOk(State())
    }

    /** `init_filesystem`: zero everything, mark every block free, make slot 0 the root. */
    constructor Init()
      ensures Valid() && Tree() && Session()
      ensures State() == InitFs()
      ensures fresh(files) && fresh(freeBlocks) && fresh(blocks)
    {
      var fb := new bool[MAX_BLOCKS](k => false);
      for i := 0 to MAX_BLOCKS
        invariant forall k :: 0 <= k < MAX_BLOCKS ==> fb[k] == (k < i)
      {
        fb[i] := true;
      }
      var f := new Entry[MAX_FILES](i => BlankEntry);
      var b := new Block[MAX_BLOCKS](k => seq(BLOCK_SIZE, j => NUL));
      f[0] := RootEntry;
      files := f;
      freeBlocks := fb;
      blocks := b;
      numFiles := 1;
      currentDir := 0;
      depth := seq(MAX_FILES, i => 0);
      new;
      assert forall i :: 0 <= i < MAX_FILES ==> files[i] == InitFs().files[i];
      assert files[..] == InitFs().files;
      assert freeBlocks[..] == InitFs().free;
      assert forall k :: 0 <= k < MAX_BLOCKS ==> blocks[k] == InitFs().blocks[k];
      assert blocks[..] == InitFs().blocks;
      InitValid();
    }

    /** `find_file_in_dir`: the linear scan for a live entry of that name under `dir`. */
    method FindFileInDir(name: string, dir: int) returns (r: int)
      requires Valid()
      ensures r == Find(files[..], name, dir)
    {
      for i := 0 to MAX_FILES
        invariant forall j :: 0 <= j < i ==> !Matches(files[j], name, dir)
      {
        if files[i].name != "" && files[i].parent == dir && files[i].name == name {
          return i;
        }
      }
      return -1;
    }

    /** `is_directory_empty`: true (1 in C) exactly when no live entry has `dir` as parent. */
    method IsDirectoryEmpty(dir: int) returns (empty: bool)
      requires Valid()
      ensures empty <==> !HasChild(files[..], dir)
    {
      for i := 0 to MAX_FILES
        invariant forall j :: 0 <= j < i ==> !(IsLive(files[j]) && files[j].parent == dir)
      {
        if files[i].name != "" && files[i].parent == dir {
          assert IsLive(files[..][i]) && files[..][i].parent == dir;
          return false;
        }
      }
      return true;
    }

    /** `get_full_path`: walk the parent chain up to the root, prepending "/" + name at each
        step. The walk ends exactly when the chain reaches the root; `fuel` bounds its length. */
    method GetFullPath(index: int, ghost fuel: nat) returns (path: string)
      requires Valid() && ReachesRoot(files[..], index, fuel)
      ensures path == FullPath(files[..], index, fuel)
    {
      if index == 0 {
        return "/";
      }
      var tempPath := "";
      var current := index;
      ghost var f := fuel;
      while current != 0
        invariant ReachesRoot(files[..], current, f)
        invariant PathBelow(files[..], index, fuel) == PathBelow(files[..], current, f) + tempPath
        decreases f
      {
        tempPath := "/" + files[current].name + tempPath;
        current := files[current].parent;
        f := f - 1;
      }
      path := tempPath;
    }

    /** The first-fit scan of `write_file`: count consecutive free blocks from the start of
        the current run, stop as soon as `needed` of them are found; -1 when none is. */
    method FindFreeRun(needed: nat) returns (start: int)
      requires Valid() && needed >= 1
      ensures start == FirstFit(freeBlocks[..], needed)
    {
      start := -1;
      var consecutive := 0;
      var i := 0;
      while i < MAX_BLOCKS
        invariant 0 <= consecutive <= i <= MAX_BLOCKS && consecutive < needed
        invariant forall k :: i - consecutive <= k < i ==> freeBlocks[k]
        invariant i - consecutive > 0 ==> !freeBlocks[i - consecutive - 1]
        invariant consecutive > 0 ==> start == i - consecutive
        invariant forall q :: 0 <= q && q + needed <= i ==> !RunFree(freeBlocks[..], q, needed)
      {
        if freeBlocks[i] {
          if consecutive == 0 {
            start := i;
          }
          consecutive := consecutive + 1;
          if consecutive == needed {
            break;
          }
          if i + 1 - needed >= 0 {
            assert !freeBlocks[..][i - consecutive];
          }
        } else {
          consecutive := 0;
          assert !freeBlocks[..][i];
        }
        i := i + 1;
      }
      if consecutive < needed {
        start := -1;
      } else {
        assert RunFree(freeBlocks[..], start, needed);
      }
    }

    /** `create_file`: refuse when the table is full or the name is taken in the current
        directory, else fill the lowest empty slot (name truncated to 31 characters, no
        content, parent = current directory) and count it. The new slot ranks one below the
        current directory. */
    method CreateFile(name: string, isDirectory: bool) returns (r: Result<int>)
      requires Valid() && name != "" && IsCString(name)
      modifies this, files
      ensures Valid()
      ensures (State(), r) == Create(old(State()), name, isDirectory)
      ensures depth == if r.Ok? then old(depth)[r.value := old(depth)[currentDir] + 1] else old(depth)
      ensures old(Tree() && Session()) ==> Tree() && Session()
    {
      ghost var fs0 := State();
      if numFiles >= MAX_FILES {
        return Err(TableFull);
      }
      var existing := FindFileInDir(name, currentDir);
      if existing != -1 {
        return Err(DuplicateName);
      }
      var slot := FindFreeSlot();
      if slot == -1 {
        return Err(NoFreeSlot);
      }
      CreateSucceeds(fs0, depth, name, isDirectory, slot);
      files[slot] := Entry(StoredName(name), 0, -1, 0, isDirectory, currentDir);
      numFiles := numFiles + 1;
      depth := depth[slot := depth[currentDir] + 1];
      r := Ok(slot);
      assert files[..] == fs0.files[slot := NewEntry(name, isDirectory, fs0.cwd)];
    }

    /** The free-slot search of `create_file`: the lowest slot with an empty name, or -1. */
    method FindFreeSlot() returns (slot: int)
      requires Valid()
      ensures slot == FirstBlank(files[..])
    {
      for i := 0 to MAX_FILES
        invariant forall j :: 0 <= j < i ==> IsLive(files[j])
      {
        if files[i].name == "" {
          return i;
        }
      }
      return -1;
    }

    /** `write_file`, addressed by slot index: free the old range, find a first-fit run for
        strlen + 1 bytes, claim it and copy the bytes block by block, then record the range. */
    method WriteFile(idx: int, content: string) returns (r: Result<()>)
      requires Valid() && IsCString(content)
      modifies files, freeBlocks, blocks
      ensures Valid()
      ensures (State(), r) == Write(old(State()), idx, content)
      ensures old(Tree()) ==> Tree()
      ensures old(Session()) ==> Session()
    {
      ghost var fs0 := State();
      WriteValid(fs0, idx, content);
      if old(Tree()) {
        WriteRanked(fs0, depth, idx, content);
      }
      if idx < 0 || idx >= MAX_FILES || files[idx].name == "" {
        return Err(InvalidIndex);
      }
      if files[idx].isDirectory {
        return Err(IsADirectory);
      }
      var e := files[idx];
      var data := content + [NUL];
      var needed := BlocksNeeded(|data|);
      if e.startBlock != -1 {
        ReleaseBlocks(e.startBlock, e.numBlocks);
      }
      ghost var free1 := freeBlocks[..];
      var start := FindFreeRun(needed);
      if start == -1 {
        return Err(OutOfSpace);
      }
      CopyToBlocks(start, data);
      files[idx] := e.(startBlock := start, numBlocks := needed, size := |data|);
      r := Ok(());
      if old(Session()) {
        assert files[currentDir] == fs0.files[currentDir];
      }
    }

    /** The allocation loop of `write_file`: mark each block of the run used and copy the
        payload's chunk for it, a full block except for the last, which takes the remainder. */
    method CopyToBlocks(start: int, data: seq<char>)
      requires freeBlocks.Length == MAX_BLOCKS && blocks.Length == MAX_BLOCKS
      requires forall k :: 0 <= k < MAX_BLOCKS ==> |blocks[k]| == BLOCK_SIZE
      requires |data| >= 1 && 0 <= start && start + BlocksNeeded(|data|) <= MAX_BLOCKS
      modifies freeBlocks, blocks
      ensures freeBlocks[..] == ClaimRange(old(freeBlocks[..]), start, BlocksNeeded(|data|))
      ensures blocks[..] == CopyIn(old(blocks[..]), start, data)
    {
      ghost var f0 := freeBlocks[..];
      ghost var b0 := blocks[..];
      var needed := BlocksNeeded(|data|);
      for i := 0 to needed
        invariant freeBlocks[..] == ClaimRange(f0, start, i)
        invariant blocks[..] == CopiedUpTo(b0, start, data, i)
      {
        ClaimStep(f0, start, i);
        CopiedStep(b0, start, data, i);
        freeBlocks[start + i] := false;
        CopyChunk(start + i, data, i);
      }
      CopiedAll(b0, start, data);
    }

    /** One round of the copy loop of `write_file`: the `memcpy` of chunk `j` of `data` (a
        full block, or the remainder for the last one) to the front of block `k`. */
    method CopyChunk(k: int, data: seq<char>, j: nat)
      requires blocks.Length == MAX_BLOCKS && 0 <= k < MAX_BLOCKS && |blocks[k]| == BLOCK_SIZE
      requires |data| >= 1 && j < BlocksNeeded(|data|)
      modifies blocks
      ensures blocks[..] == old(blocks[..])[k := Overlay(old(blocks[k]), data, j)]
    {
      var needed := BlocksNeeded(|data|);
      var toWrite := if j == needed - 1 then |data| - j * BLOCK_SIZE else BLOCK_SIZE;
      assert toWrite == ChunkLength(j, needed, |data|);
      blocks[k] := data[j * BLOCK_SIZE .. j * BLOCK_SIZE + toWrite] + blocks[k][toWrite..];
    }

    /** `read_file`, addressed by slot index: refuse a bad index, a directory or a file that
        was never written, else concatenate the blocks, the last one cut to the remainder of
        `size`. */
    method ReadFile(idx: int) returns (r: Result<seq<char>>)
      requires Valid()
      ensures r == Read(State(), idx)
    {
      if idx < 0 || idx >= MAX_FILES || files[idx].name == "" {
        return Err(InvalidIndex);
      }
      if files[idx].isDirectory {
        return Err(IsADirectory);
      }
      if files[idx].startBlock == -1 {
        return Err(EmptyFile);
      }
      var e := files[idx];
      assert WellFormedEntry(files[..][idx]);
      var content: seq<char> := [];
      for i := 0 to e.numBlocks
        invariant content == Gather(blocks[..], e.startBlock, e.numBlocks, e.size, i)
      {
        var toRead := if i == e.numBlocks - 1 then e.size - i * BLOCK_SIZE else BLOCK_SIZE;
        assert toRead == ChunkLength(i, e.numBlocks, e.size);
        content := content + blocks[e.startBlock + i][..toRead];
      }
      r := Ok(content);
    }

    /** `delete_file`, addressed by slot index: free the recorded range, zero the slot and
        uncount it. */
    method DeleteFile(idx: int) returns (r: Result<()>)
      requires Valid()
      modifies this, files, freeBlocks
      ensures Valid() && depth == old(depth)
      ensures (State(), r) == FsSpec.DeleteFile(old(State()), idx)
      ensures old(Tree()) ==> Tree()
      ensures old(Session()) ==> Session()
    {
      ghost var fs0 := State();
      DeleteFileValid(fs0, idx);
      if old(Tree()) {
        DeleteFileRanked(fs0, depth, idx);
      }
      if idx < 0 || idx >= MAX_FILES || files[idx].name == "" {
        return Err(InvalidIndex);
      }
      if files[idx].isDirectory {
        return Err(IsADirectory);
      }
      EraseFile(idx);
      r := Ok(());
      if old(Session()) {
        assert fs0.files[fs0.cwd].isDirectory;
      }
    }

    /** The three steps both deletions take for a file: free its recorded range, zero its
        slot, uncount it. */
    method EraseFile(idx: int)
      requires Valid() && 0 <= idx < MAX_FILES && IsLive(files[idx]) && !files[idx].isDirectory
      modifies this, files, freeBlocks
      ensures Valid() && depth == old(depth) && currentDir == old(currentDir)
      ensures State() == FsSpec.DeleteFile(old(State()), idx).0
      ensures old(Tree()) ==> Tree()
    {
      ghost var fs0 := State();
      DeleteFileValid(fs0, idx);
      if old(Tree()) {
        DeleteFileRanked(fs0, depth, idx);
      }
      assert WellFormedEntry(files[..][idx]);
      ReleaseBlocks(files[idx].startBlock, files[idx].numBlocks);
      files[idx] := BlankEntry;
      numFiles := numFiles - 1;
    }

    /** The loop `free_blocks[start + j] = 1` for j < count, shared by both deletions. */
    method ReleaseBlocks(start: int, count: int)
      requires Valid() && 0 <= count && (count > 0 ==> 0 <= start && start + count <= MAX_BLOCKS)
      modifies freeBlocks
      ensures freeBlocks[..] == ReleaseRange(old(freeBlocks[..]), start, count)
      ensures Valid()
    {
      ghost var f0 := freeBlocks[..];
      for j := 0 to count
        invariant forall k :: 0 <= k < MAX_BLOCKS ==> freeBlocks[k] == (f0[k] || start <= k < start + j)
      {
        freeBlocks[start + j] := true;
      }
      assert freeBlocks[..] == ReleaseRange(f0, start, count);
    }

    /** `delete_directory_recursive(d)`: refuse a file; else delete everything below `d`,
        then zero `d` itself and uncount it. The recursion ends because each call works on a
        strictly smaller subtree. */
    method DeleteDirectoryRecursive(d: int) returns (r: Result<()>)
      requires Tree() && 0 < d < MAX_FILES
      modifies this, files, freeBlocks
      ensures Tree() && depth == old(depth)
      ensures (State(), r) == DeleteTree(old(State()), depth, d)
      decreases Subtree(files[..], depth, d), 2
    {
      if !files[d].isDirectory {
        return Err(NotADirectory);
      }
      ghost var fs0 := State();
      DeleteChildren(d);
      FinishTree(fs0, depth, d, files[..], freeBlocks[..], numFiles);
      files[d] := BlankEntry;
      numFiles := numFiles - 1;
      r := Ok(());
    }

    /** The state of the scan in `delete_directory_recursive(d)` before slot `i`: starting
        from table `s0`, free map `f0` and count `n0`, exactly the slots `C` of the subtree `S`
        of `d` have been cleared and released, `C` is closed under "child of", and no slot
        below `i` is still a live child of `d`. */
    ghost predicate Scanned(d: int, s0: seq<Entry>, f0: seq<bool>, n0: int, S: set<int>, C: set<int>, i: int)
      reads this, files, freeBlocks, blocks
    {
      && Tree() && 0 < d < MAX_FILES && 0 <= i <= MAX_FILES
      && |s0| == MAX_FILES && Ranked(s0, depth) && S == Subtree(s0, depth, d) && IsLive(s0[d])
      && C <= S - {d} && Closed(s0, S, d, C)
      && files[..] == ClearSlots(s0, C)
      && freeBlocks[..] == ReleaseAll(f0, s0, C)
      && numFiles == n0 - |C|
      && forall j :: 0 <= j < i ==> !(IsLive(files[j]) && files[j].parent == d)
    }

    /** The loop of `delete_directory_recursive(d)`: one scan of the table that deletes each
        live child of `d`, a directory by recursion, a file by `EraseFile`. Afterwards the
        whole subtree below `d` is gone. */
    method DeleteChildren(d: int)
      requires Tree() && 0 < d < MAX_FILES && files[d].isDirectory
      modifies this, files, freeBlocks
      ensures Tree() && depth == old(depth) && currentDir == old(currentDir)
      ensures var S := Subtree(old(files[..]), depth, d);
        && files[..] == ClearSlots(old(files[..]), S - {d})
        && freeBlocks[..] == ReleaseAll(old(freeBlocks[..]), old(files[..]), S - {d})
        && numFiles == old(numFiles) - |S - {d}|
      decreases Subtree(files[..], depth, d), 1
    {
      ghost var s0 := files[..];
      ghost var f0 := freeBlocks[..];
      ghost var n0 := numFiles;
      ghost var S := Subtree(s0, depth, d);
      assert WellFormedEntry(s0[d]) && IsLive(s0[d]);
      ghost var C: set<int> := {};
      assert files[..] == ClearSlots(s0, C);
      assert freeBlocks[..] == ReleaseAll(f0, s0, C);
      for i := 0 to MAX_FILES
        invariant Scanned(d, s0, f0, n0, S, C, i)
        invariant depth == old(depth) && currentDir == old(currentDir)
      {
        C := DeleteChild(d, i, s0, f0, n0, S, C);
      }
      ClosedCovers(s0, depth, d, S, C);
    }

    /** One step of that scan: slot `i`, when it is a live child of `d`, is deleted together
        with everything below it. */
    method DeleteChild(d: int, i: int, ghost s0: seq<Entry>, ghost f0: seq<bool>, ghost n0: int,
                       ghost S: set<int>, ghost C: set<int>) returns (ghost C': set<int>)
      requires Scanned(d, s0, f0, n0, S, C, i) && i < MAX_FILES
      modifies this, files, freeBlocks
      ensures Scanned(d, s0, f0, n0, S, C', i + 1)
      ensures depth == old(depth) && currentDir == old(currentDir)
      decreases S, 0
    {
      C' := C;
      if files[i].name != "" && files[i].parent == d {
        assert files[0] == RootEntry;
        ChildStep(s0, f0, depth, d, S, C, i);
        ghost var T := Subtree(files[..], depth, i);
        DeleteEntry(i);
        C' := C + T;
      }
    }

    /** The body of that loop for a live child `i`: a directory goes to the recursive
        deletion, a file is erased; either way `i` and everything below it are gone. */
    method DeleteEntry(i: int)
      requires Tree() && 0 < i < MAX_FILES && IsLive(files[i])
      modifies this, files, freeBlocks
      ensures Tree() && depth == old(depth) && currentDir == old(currentDir)
      ensures var T := Subtree(old(files[..]), depth, i);
        && files[..] == ClearSlots(old(files[..]), T)
        && freeBlocks[..] == ReleaseAll(old(freeBlocks[..]), old(files[..]), T)
        && numFiles == old(numFiles) - |T|
      decreases Subtree(files[..], depth, i), 3
    {
      if files[i].isDirectory {
        var _ := DeleteDirectoryRecursive(i);
      } else {
        ghost var s0 := files[..];
        ghost var f0 := freeBlocks[..];
        FileSubtree(s0, f0, depth, i);
        EraseFile(i);
      }
    }

    /** The `cd` branch of the command loop: ".." moves to the parent unless at the root;
        a name moves only when it resolves to a directory of the current directory. */
    method ChangeDir(arg: string) returns (r: Result<()>)
      requires Valid()
      modifies this
      ensures Valid() && depth == old(depth)
      ensures (State(), r) == FsSpec.ChangeDir(old(State()), arg)
      ensures old(Tree() && Session()) ==> Tree() && Session()
    {
      ghost var fs0 := State();
      ChangeDirValid(fs0, arg);
      if old(Tree() && Session()) {
        ChangeDirSession(fs0, depth, arg);
      }
      if arg == ".." {
        if currentDir != 0 {
          currentDir := files[currentDir].parent;
        }
        return Ok(());
      }
      var dirIndex := FindFileInDir(arg, currentDir);
      if dirIndex == -1 {
        return Err(NotFound);
      }
      if !files[dirIndex].isDirectory {
        return Err(NotADirectory);
      }
      currentDir := dirIndex;
      r := Ok(());
    }

    /** The `delete <index>` branch of the index-addressed command loop: index 0 is refused,
        a directory goes to the recursive deletion, anything else to `delete_file`. */
    method DeleteCommand(idx: int) returns (r: Result<()>)
      requires Valid() && 0 <= idx < MAX_FILES
      requires idx != 0 && files[idx].isDirectory ==> Tree()
      modifies this, files, freeBlocks
      ensures Valid() && depth == old(depth)
      ensures (State(), r) == FsSpec.DeleteCommand(old(State()), old(depth), idx)
      ensures old(Tree()) ==> Tree()
    {
      if idx == 0 {
        return Err(CannotDeleteRoot);
      }
      if files[idx].isDirectory {
        r := DeleteDirectoryRecursive(idx);
      } else {
        r := DeleteFile(idx);
      }
    }
  }

  // ---------------------------------------------------------------- the recursive deletion's loop

  /** The slots cleared so far are closed under taking children within the subtree. */
  ghost predicate Closed(s0: seq<Entry>, S: set<int>, d: int, C: set<int>)
    requires forall y :: y in S ==> 0 <= y < |s0|
  {
    forall y :: y in S && y != d && s0[y].parent in C ==> y in C
  }

  /** When the scan has passed every child of `d`, the cleared set is the whole subtree but `d`. */
  lemma ClosedCovers(s0: seq<Entry>, depth: seq<nat>, d: int, S: set<int>, C: set<int>)
    requires Ranked(s0, depth) && S == Subtree(s0, depth, d) && 0 < d < |s0| && IsLive(s0[d])
    requires C <= S - {d} && Closed(s0, S, d, C)
    requires forall j :: 0 <= j < |s0| ==> !(IsLive(ClearSlots(s0, C)[j]) && ClearSlots(s0, C)[j].parent == d)
    ensures S == C + {d} && d !in C
  {
    forall y | y in S && y != d ensures y in C {
      ClosedCoversAt(s0, depth, d, S, C, y);
    }
  }

  lemma {:induction false} ClosedCoversAt(s0: seq<Entry>, depth: seq<nat>, d: int, S: set<int>, C: set<int>, y: int)
    requires Ranked(s0, depth) && S == Subtree(s0, depth, d) && 0 < d < |s0|
    requires C <= S - {d} && Closed(s0, S, d, C)
    requires forall j :: 0 <= j < |s0| ==> !(IsLive(ClearSlots(s0, C)[j]) && ClearSlots(s0, C)[j].parent == d)
    requires y in S && y != d
    ensures y in C
    decreases depth[y]
  {
    assert y != 0;
    assert ParentOk(s0, depth, y);
    var p := s0[y].parent;
    if p == d {
      assert !(IsLive(ClearSlots(s0, C)[y]) && ClearSlots(s0, C)[y].parent == d);
    } else {
      BelowNormal(s0, depth, p, d, depth[y] - 1);
      ClosedCoversAt(s0, depth, d, S, C, p);
    }
  }

  /** Block `k` is recorded by a slot of `A + B` iff by a slot of `A` or of `B`, where the
      slots of `B` read the same in `t` as in `s`. */
  lemma OwnedBySplit(s: seq<Entry>, t: seq<Entry>, A: set<int>, B: set<int>, k: int)
    requires |s| == |t| && forall x :: x in B && 0 <= x < |s| ==> t[x] == s[x]
    ensures OwnedBy(s, A + B, k) <==> OwnedBy(s, A, k) || OwnedBy(t, B, k)
  {
    if OwnedBy(s, A + B, k) {
      var x :| x in A + B && 0 <= x < |s| && Owns(s[x], k);
      if x in B {
        assert t[x] == s[x];
      }
    }
    if OwnedBy(t, B, k) {
      var x :| x in B && 0 <= x < |t| && Owns(t[x], k);
      assert x in A + B && s[x] == t[x];
    }
  }

  /** The loop state after deleting the live child `i` of `d` with everything below it:
      the cleared set grows by `T`, the child's current subtree, which lies strictly inside
      the subtree of `d`; the children scanned so far stay deleted. */
  lemma ChildStep(s0: seq<Entry>, f0: seq<bool>, depth: seq<nat>, d: int, S: set<int>, C: set<int>, i: int)
    requires Ranked(s0, depth) && S == Subtree(s0, depth, d) && 0 < d < |s0| && IsLive(s0[d])
    requires Ranked(ClearSlots(s0, C), depth) && C <= S - {d} && Closed(s0, S, d, C)
    requires 0 < i < |s0| && IsLive(ClearSlots(s0, C)[i]) && ClearSlots(s0, C)[i].parent == d
    ensures var cur := ClearSlots(s0, C);
      var T := Subtree(cur, depth, i);
      && i in T && T < S && C * T == {} && C + T <= S - {d}
      && ClearSlots(cur, T) == ClearSlots(s0, C + T)
      && ReleaseAll(ReleaseAll(f0, s0, C), cur, T) == ReleaseAll(f0, s0, C + T)
      && Closed(s0, S, d, C + T)
  {
    var cur := ClearSlots(s0, C);
    var T := Subtree(cur, depth, i);
    ChildInside(s0, depth, d, S, C, i);
    ClearMore(s0, f0, C, T);
    ChildClosed(s0, depth, d, S, C, i);
  }

  /** The child's current subtree lies inside the subtree of `d`, without `d`, and has
      nothing in common with what is already cleared. */
  lemma ChildInside(s0: seq<Entry>, depth: seq<nat>, d: int, S: set<int>, C: set<int>, i: int)
    requires Ranked(s0, depth) && S == Subtree(s0, depth, d) && 0 < d < |s0| && IsLive(s0[d])
    requires Ranked(ClearSlots(s0, C), depth) && C <= S - {d}
    requires 0 < i < |s0| && IsLive(ClearSlots(s0, C)[i]) && ClearSlots(s0, C)[i].parent == d
    ensures var T := Subtree(ClearSlots(s0, C), depth, i);
      i in T && T <= S - {d} && d in S && C * T == {}
  {
    var cur := ClearSlots(s0, C);
    assert i !in C && cur[i] == s0[i];
    SubtreeShrinks(cur, s0, depth, i);
    SubtreeOfChild(s0, depth, i, d);
    assert Below(s0, d, d, depth[d]);
    assert Below(cur, i, i, depth[i]);
  }

  /** Clearing `T` after `C`, when the two are disjoint, is clearing `C + T` at once. */
  lemma ClearMore(s0: seq<Entry>, f0: seq<bool>, C: set<int>, T: set<int>)
    requires C * T == {}
    ensures ClearSlots(ClearSlots(s0, C), T) == ClearSlots(s0, C + T)
    ensures ReleaseAll(ReleaseAll(f0, s0, C), ClearSlots(s0, C), T) == ReleaseAll(f0, s0, C + T)
  {
    var cur := ClearSlots(s0, C);
    assert ClearSlots(cur, T) == ClearSlots(s0, C + T);
    forall x | x in T && 0 <= x < |s0| ensures cur[x] == s0[x] {
      assert x in C ==> x in C * T;
    }
    forall k | 0 <= k < |f0| ensures ReleaseAll(ReleaseAll(f0, s0, C), cur, T)[k] == ReleaseAll(f0, s0, C + T)[k] {
      OwnedBySplit(s0, cur, C, T, k);
    }
  }

  /** Every entry of the subtree whose parent has been cleared is itself cleared. */
  lemma ChildClosed(s0: seq<Entry>, depth: seq<nat>, d: int, S: set<int>, C: set<int>, i: int)
    requires Ranked(s0, depth) && S == Subtree(s0, depth, d) && 0 < d < |s0|
    requires Ranked(ClearSlots(s0, C), depth) && C <= S - {d} && Closed(s0, S, d, C)
    requires 0 < i < |s0|
    ensures Closed(s0, S, d, C + Subtree(ClearSlots(s0, C), depth, i))
  {
    var cur := ClearSlots(s0, C);
    var T := Subtree(cur, depth, i);
    forall y | y in S && y != d && s0[y].parent in C + T ensures y in C + T {
      if s0[y].parent !in C && y !in C {
        assert y != 0 && cur[y] == s0[y];
        SubtreeHasChild(cur, depth, i, y);
      }
    }
  }

  /** A live file is a leaf: its subtree is itself, and erasing it is deleting that subtree. */
  lemma FileSubtree(s: seq<Entry>, free: seq<bool>, depth: seq<nat>, i: int)
    requires Ranked(s, depth) && 0 <= i < |s| && IsLive(s[i]) && !s[i].isDirectory
    ensures Subtree(s, depth, i) == {i}
    ensures s[i := BlankEntry] == ClearSlots(s, {i})
    ensures ReleaseRange(free, s[i].startBlock, s[i].numBlocks) == ReleaseAll(free, s, {i})
  {
    forall x | x in Subtree(s, depth, i) ensures x == i {
      BelowDirectory(s, depth, x, i, depth[x]);
    }
    assert s[i := BlankEntry] == ClearSlots(s, {i});
    forall k | 0 <= k < |free| ensures ReleaseRange(free, s[i].startBlock, s[i].numBlocks)[k] == ReleaseAll(free, s, {i})[k] {
      OwnedBySplit(s, s, {}, {i}, k);
    }
  }

  /** The success branch of `create_file`: the lowest blank slot gets the new entry, and the
      table stays valid (and ranked, with the session intact, when it was). */
  lemma CreateSucceeds(fs0: Fs, depth0: seq<nat>, name: string, isDirectory: bool, slot: int)
    requires Valid(fs0) && name != "" && fs0.numFiles < MAX_FILES && Find(fs0.files, name, fs0.cwd) == -1
    requires slot == FirstBlank(fs0.files) && slot != -1
    ensures Create(fs0, name, isDirectory) ==
      (Fs(fs0.files[slot := NewEntry(name, isDirectory, fs0.cwd)], fs0.free, fs0.blocks, fs0.numFiles + 1, fs0.cwd),
       Ok(slot))
    ensures Valid(Create(fs0, name, isDirectory).0)
    ensures Ranked(fs0.files, depth0) && SessionOk(fs0) ==>
      && Ranked(Create(fs0, name, isDirectory).0.files, depth0[slot := depth0[fs0.cwd] + 1])
      && SessionOk(Create(fs0, name, isDirectory).0)
  {
    CreateValid(fs0, name, isDirectory);
    if Ranked(fs0.files, depth0) && SessionOk(fs0) {
      CreateRanked(fs0, depth0, name, isDirectory);
    }
  }

  /** The pool after the first `i` rounds of the copy loop of `write_file`. */
  ghost function CopiedUpTo(b0: seq<Block>, start: int, data: seq<char>, i: int): seq<Block>
    requires forall k :: 0 <= k < |b0| ==> |b0[k]| == BLOCK_SIZE
    requires |data| >= 1 && i <= BlocksNeeded(|data|)
  {
    seq(|b0|, k requires 0 <= k < |b0| => if start <= k < start + i then Overlay(b0[k], data, k - start) else b0[k])
  }

  /** After the last round the whole payload is in. */
  lemma CopiedAll(b0: seq<Block>, start: int, data: seq<char>)
    requires forall k :: 0 <= k < |b0| ==> |b0[k]| == BLOCK_SIZE
    requires |data| >= 1
    ensures CopiedUpTo(b0, start, data, BlocksNeeded(|data|)) == CopyIn(b0, start, data)
  {
  }

  /** One more round of the copy loop claims one more block. */
  lemma ClaimStep(f0: seq<bool>, start: int, i: int)
    requires 0 <= start + i < |f0| && 0 <= i
    ensures ClaimRange(f0, start, i)[start + i := false] == ClaimRange(f0, start, i + 1)
  {
  }

  /** One more round of the copy loop overlays one more block and leaves the others. */
  lemma CopiedStep(b0: seq<Block>, start: int, data: seq<char>, i: int)
    requires forall k :: 0 <= k < |b0| ==> |b0[k]| == BLOCK_SIZE
    requires |data| >= 1 && 0 <= i < BlocksNeeded(|data|) && 0 <= start + i < |b0|
    ensures CopiedUpTo(b0, start, data, i)[start + i] == b0[start + i]
    ensures CopiedUpTo(b0, start, data, i)[start + i := Overlay(b0[start + i], data, i)]
      == CopiedUpTo(b0, start, data, i + 1)
  {
  }

  /** Zeroing `d` once its children's subtrees are gone completes `DeleteTree`, and the
      result is a valid, ranked table. */
  lemma FinishTree(fs0: Fs, depth: seq<nat>, d: int, files1: seq<Entry>, free1: seq<bool>, n1: int)
    requires Valid(fs0) && Ranked(fs0.files, depth) && 0 < d < MAX_FILES && fs0.files[d].isDirectory
    requires var S := Subtree(fs0.files, depth, d);
      && files1 == ClearSlots(fs0.files, S - {d})
      && free1 == ReleaseAll(fs0.free, fs0.files, S - {d})
      && n1 == fs0.numFiles - |S - {d}|
    ensures DeleteTree(fs0, depth, d) == (Fs(files1[d := BlankEntry], free1, fs0.blocks, n1 - 1, fs0.cwd), Ok(()))
    ensures Valid(DeleteTree(fs0, depth, d).0) && Ranked(files1[d := BlankEntry], depth)
  {
    FinishEquation(fs0, depth, d, Subtree(fs0.files, depth, d), files1, free1, n1);
    ClearSubtreeRanked(fs0.files, depth, d);
    DeleteTreeValid(fs0, depth, d);
  }

  /** The equation half of `FinishTree`, over the subtree `S` of `d`. */
  lemma FinishEquation(fs0: Fs, depth: seq<nat>, d: int, S: set<int>, files1: seq<Entry>, free1: seq<bool>, n1: int)
    requires Valid(fs0) && Ranked(fs0.files, depth) && 0 < d < MAX_FILES && fs0.files[d].isDirectory
    requires S == Subtree(fs0.files, depth, d)
    requires files1 == ClearSlots(fs0.files, S - {d})
    requires free1 == ReleaseAll(fs0.free, fs0.files, S - {d})
    requires n1 == fs0.numFiles - |S - {d}|
    ensures DeleteTree(fs0, depth, d) == (Fs(files1[d := BlankEntry], free1, fs0.blocks, n1 - 1, fs0.cwd), Ok(()))
  {
    FinishSlots(fs0.files, fs0.free, depth, d, S);
    RemovedEquation(fs0, S, d, files1, free1, n1);
  }

  /** `SlotsRemoved` of the whole subtree, spelled out from the state with `d` still to go. */
  lemma RemovedEquation(fs0: Fs, S: set<int>, d: int, files1: seq<Entry>, free1: seq<bool>, n1: int)
    requires 0 <= d < |files1|
    requires files1[d := BlankEntry] == ClearSlots(fs0.files, S)
    requires free1 == ReleaseAll(fs0.free, fs0.files, S)
    requires n1 - 1 == fs0.numFiles - |S|
    ensures SlotsRemoved(fs0, S) == Fs(files1[d := BlankEntry], free1, fs0.blocks, n1 - 1, fs0.cwd)
  {
  }

  /** The slot-level half of that: `d` is in its own subtree and records no blocks. */
  lemma FinishSlots(s0: seq<Entry>, f0: seq<bool>, depth: seq<nat>, d: int, S: set<int>)
    requires Ranked(s0, depth) && 0 < d < |s0| && IsLive(s0[d]) && s0[d].numBlocks == 0
    requires S == Subtree(s0, depth, d)
    ensures ClearSlots(s0, S - {d})[d := BlankEntry] == ClearSlots(s0, S)
    ensures ReleaseAll(f0, s0, S - {d}) == ReleaseAll(f0, s0, S)
    ensures |S - {d}| == |S| - 1
  {
    assert Below(s0, d, d, depth[d]);
    FinalStep(s0, f0, d, S, S - {d});
  }

  /** The last step, zeroing `d` itself, completes the subtree; `d` records no blocks. */
  lemma FinalStep(s0: seq<Entry>, f0: seq<bool>, d: int, S: set<int>, C: set<int>)
    requires S == C + {d} && d !in C && 0 <= d < |s0| && s0[d].numBlocks == 0
    ensures ClearSlots(s0, C)[d := BlankEntry] == ClearSlots(s0, S)
    ensures ReleaseAll(f0, s0, C) == ReleaseAll(f0, s0, S)
    ensures |S| == |C| + 1
  {
    assert ClearSlots(s0, C)[d := BlankEntry] == ClearSlots(s0, S);
    forall k | 0 <= k < |f0| ensures ReleaseAll(f0, s0, C)[k] == ReleaseAll(f0, s0, S)[k] {
      OwnedBySplit(s0, s0, C, {d}, k);
    }
  }
}
