/** Properties of the pure operations of FsSpec: the invariant they keep, the tree shape and the
    session, sibling names, block accounting, the write/read round trip, and paths. */
module FsProps {
  import opened FsTypes
  import opened FsTree
  import opened FsSpec

  // ---------------------------------------------------------------- counting live slots

  function LiveSlots(s: seq<Entry>): set<int> {
    set i | 0 <= i < |s| && IsLive(s[i])
  }

  /** `num_files`, as the invariant defines it, is the number of live slots. */
  lemma {:induction false} LiveCountIsCard(s: seq<Entry>)
    ensures LiveCount(s) == |LiveSlots(s)|
    decreases |s|
  {
    if s != [] {
      var t := s[..|s| - 1];
      LiveCountIsCard(t);
      assert LiveSlots(s) == LiveSlots(t) + (if IsLive(s[|s| - 1]) then {|s| - 1} else {});
    }
  }

  /** Overwriting one slot changes the count by that slot's change of liveness. */
  lemma {:induction false} LiveCountUpdate(s: seq<Entry>, i: int, e: Entry)
    requires 0 <= i < |s|
    ensures LiveCount(s[i := e]) == LiveCount(s) - (if IsLive(s[i]) then 1 else 0) + (if IsLive(e) then 1 else 0)
    decreases |s|
  {
    var t := s[i := e];
    var n := |s| - 1;
    if i == n {
      assert t[..n] == s[..n];
    } else {
      assert t[..n] == s[..n][i := e];
      LiveCountUpdate(s[..n], i, e);
    }
  }

  /** Zeroing a set of live slots lowers the count by the size of the set. */
  lemma LiveCountClear(s: seq<Entry>, S: set<int>)
    requires S <= LiveSlots(s)
    ensures LiveCount(ClearSlots(s, S)) == LiveCount(s) - |S|
  {
    LiveCountIsCard(s);
    LiveCountIsCard(ClearSlots(s, S));
    assert LiveSlots(ClearSlots(s, S)) == LiveSlots(s) - S;
  }

  lemma {:induction false} AllLiveCount(s: seq<Entry>)
    requires forall j :: 0 <= j < |s| ==> IsLive(s[j])
    ensures LiveCount(s) == |s|
    decreases |s|
  {
    if s != [] {
      AllLiveCount(s[..|s| - 1]);
    }
  }

  // ---------------------------------------------------------------- the invariant

  /** `init_filesystem` leaves a valid, ranked, accounted state: every block free, slot 0 the
      only live entry (the directory "/", its own parent), one file counted, session at root. */
  lemma InitValid()
    ensures Valid(InitFs()) && SessionOk(InitFs())
    ensures Ranked(InitFs().files, seq(MAX_FILES, i => 0))
    ensures LiveSlots(InitFs().files) == {0} && InitFs().numFiles == 1 && InitFs().cwd == 0
    ensures forall k :: 0 <= k < MAX_BLOCKS ==> InitFs().free[k]
  {
    var s := InitFs().files;
    assert LiveSlots(s) == {0};
    LiveCountIsCard(s);
  }

  /** Creation can fail only because the table is full or the name is taken in the current
      directory: when `num_files` counts the live slots, a free slot exists whenever
      `num_files < MAX_FILES`, so the third failure of `create_file` never happens. */
  lemma CreateNeverLacksSlot(fs: Fs, name: string, isDirectory: bool)
    requires Valid(fs)
    ensures Create(fs, name, isDirectory).1 != Err(NoFreeSlot)
  {
    if fs.numFiles < MAX_FILES && FirstBlank(fs.files) == -1 {
      AllLiveCount(fs.files);
    }
  }

  lemma CreateValid(fs: Fs, name: string, isDirectory: bool)
    requires Valid(fs) && name != ""
    ensures Valid(Create(fs, name, isDirectory).0)
  {
    var (fs', r) := Create(fs, name, isDirectory);
    if r.Ok? {
      LiveCountUpdate(fs.files, r.value, NewEntry(name, isDirectory, fs.cwd));
    }
  }

  lemma WriteValid(fs: Fs, idx: int, content: string)
    requires Valid(fs)
    ensures Valid(Write(fs, idx, content).0)
  {
    var (fs', r) := Write(fs, idx, content);
    if r.Ok? {
      var e := fs.files[idx];
      var data := Payload(content);
      var n := BlocksNeeded(|data|);
      var start := FirstFit(ReleaseOld(fs.free, e), n);
      var e' := e.(startBlock := start, numBlocks := n, size := |data|);
      assert fs'.files == fs.files[idx := e'];
      LiveCountUpdate(fs.files, idx, e');
      forall k | 0 <= k < MAX_BLOCKS ensures |fs'.blocks[k]| == BLOCK_SIZE {
        if start <= k < start + n {
          assert fs'.blocks[k] == Overlay(fs.blocks[k], data, k - start);
        }
      }
    }
  }

  lemma DeleteFileValid(fs: Fs, idx: int)
    requires Valid(fs)
    ensures Valid(DeleteFile(fs, idx).0)
  {
    if DeleteFile(fs, idx).1.Ok? {
      LiveCountUpdate(fs.files, idx, BlankEntry);
    }
  }

  lemma ChangeDirValid(fs: Fs, arg: string)
    requires Valid(fs)
    ensures Valid(ChangeDir(fs, arg).0)
  {
    if arg == ".." && fs.cwd != 0 {
      assert WellFormedEntry(fs.files[fs.cwd]);
    }
  }

  lemma DeleteTreeValid(fs: Fs, depth: seq<nat>, d: int)
    requires Valid(fs) && Ranked(fs.files, depth) && 0 < d < MAX_FILES
    ensures Valid(DeleteTree(fs, depth, d).0)
  {
    if fs.files[d].isDirectory {
      var S := Subtree(fs.files, depth, d);
      assert S <= LiveSlots(fs.files);
      LiveCountClear(fs.files, S);
      assert 0 !in S;
    }
  }

  // ---------------------------------------------------------------- tree shape and session

  /** A creation in a live current directory keeps the table a tree (the new entry ranks one
      below its parent) and keeps the session valid. */
  lemma CreateRanked(fs: Fs, depth: seq<nat>, name: string, isDirectory: bool)
    requires Valid(fs) && Ranked(fs.files, depth) && SessionOk(fs) && name != ""
    ensures var (fs', r) := Create(fs, name, isDirectory);
      && Valid(fs') && SessionOk(fs')
      && Ranked(fs'.files, if r.Ok? then depth[r.value := depth[fs.cwd] + 1] else depth)
  {
    CreateValid(fs, name, isDirectory);
    var (fs', r) := Create(fs, name, isDirectory);
    if r.Ok? {
      var slot := r.value;
      var depth' := depth[slot := depth[fs.cwd] + 1];
      assert slot != fs.cwd;
      forall x | 0 < x < MAX_FILES && IsLive(fs'.files[x]) ensures ParentOk(fs'.files, depth', x) {
        if x != slot {
          assert ParentOk(fs.files, depth, x);
        }
      }
    }
  }

  /** Writing changes no name, kind or parent, so the tree and the session are kept. */
  lemma WriteRanked(fs: Fs, depth: seq<nat>, idx: int, content: string)
    requires Valid(fs) && Ranked(fs.files, depth)
    ensures var fs' := Write(fs, idx, content).0;
      Valid(fs') && Ranked(fs'.files, depth) && fs'.cwd == fs.cwd && (SessionOk(fs) ==> SessionOk(fs'))
  {
    WriteValid(fs, idx, content);
    var fs' := Write(fs, idx, content).0;
    forall x | 0 < x < MAX_FILES && IsLive(fs'.files[x]) ensures ParentOk(fs'.files, depth, x) {
      assert ParentOk(fs.files, depth, x);
    }
  }

  /** Deleting a file keeps the tree (a file is nobody's parent) and the session. */
  lemma DeleteFileRanked(fs: Fs, depth: seq<nat>, idx: int)
    requires Valid(fs) && Ranked(fs.files, depth)
    ensures var fs' := DeleteFile(fs, idx).0;
      Valid(fs') && Ranked(fs'.files, depth) && fs'.cwd == fs.cwd && (SessionOk(fs) ==> SessionOk(fs'))
  {
    DeleteFileValid(fs, idx);
    var fs' := DeleteFile(fs, idx).0;
    forall x | 0 < x < MAX_FILES && IsLive(fs'.files[x]) ensures ParentOk(fs'.files, depth, x) {
      assert ParentOk(fs.files, depth, x);
    }
  }

  /** `cd` only ever moves to a live directory: ".." to the parent, a name to a directory
      child, and a failed `cd` stays put. */
  lemma ChangeDirSession(fs: Fs, depth: seq<nat>, arg: string)
    requires Valid(fs) && Ranked(fs.files, depth) && SessionOk(fs)
    ensures var fs' := ChangeDir(fs, arg).0;
      Valid(fs') && SessionOk(fs') && fs'.files == fs.files
  {
    ChangeDirValid(fs, arg);
    if arg == ".." && fs.cwd != 0 {
      assert ParentOk(fs.files, depth, fs.cwd);
    }
  }

  /** Recursive deletion keeps the tree; the session stays valid exactly when the current
      directory was outside the deleted subtree (it is not re-homed). */
  lemma DeleteTreeRanked(fs: Fs, depth: seq<nat>, d: int)
    requires Valid(fs) && Ranked(fs.files, depth) && 0 < d < MAX_FILES
    ensures var (fs', r) := DeleteTree(fs, depth, d);
      && Valid(fs') && Ranked(fs'.files, depth) && fs'.cwd == fs.cwd
      && (SessionOk(fs') <==> SessionOk(fs) && (r.Ok? ==> fs.cwd !in Subtree(fs.files, depth, d)))
  {
    DeleteTreeValid(fs, depth, d);
    ClearSubtreeRanked(fs.files, depth, d);
  }

  /** Beyond being cleared, the deleted subtree leaves no trace in the tree: no live entry
      has any of its former members on its parent chain. */
  lemma DeleteTreeLeavesNoDescendant(fs: Fs, depth: seq<nat>, d: int, y: int, x: int)
    requires Valid(fs) && Ranked(fs.files, depth) && 0 < d < MAX_FILES && fs.files[d].isDirectory
    requires y in Subtree(fs.files, depth, d)
    requires 0 <= x < MAX_FILES && IsLive(DeleteTree(fs, depth, d).0.files[x])
    ensures !Below(DeleteTree(fs, depth, d).0.files, x, y, depth[x])
  {
    assert DeleteTree(fs, depth, d).0.files == ClearSlots(fs.files, Subtree(fs.files, depth, d));
    ClearedSubtreeUnreachable(fs.files, depth, d, y, x);
  }

  /** Every block that a member of the deleted subtree recorded is free afterwards. */
  lemma DeleteTreeReleasesBlocks(fs: Fs, depth: seq<nat>, d: int, y: int, k: int)
    requires Valid(fs) && Ranked(fs.files, depth) && 0 < d < MAX_FILES && fs.files[d].isDirectory
    requires y in Subtree(fs.files, depth, d) && 0 <= k < MAX_BLOCKS && Owns(fs.files[y], k)
    ensures DeleteTree(fs, depth, d).0.free[k]
  {
    assert OwnedBy(fs.files, Subtree(fs.files, depth, d), k);
  }

  // ---------------------------------------------------------------- sibling names

  /** No two live entries with the same parent share a name. */
  ghost predicate UniqueSiblings(s: seq<Entry>) {
    forall i, j ::
      (0 <= i < |s| && 0 <= j < |s| && i != j && IsLive(s[i]) && IsLive(s[j]) && s[i].parent == s[j].parent)
      ==> s[i].name != s[j].name
  }

  /** With names short enough to be stored whole, creation never makes two siblings share a
      name: the duplicate check sees exactly the name that is stored. */
  lemma CreateKeepsUniqueSiblings(fs: Fs, name: string, isDirectory: bool)
    requires Valid(fs) && UniqueSiblings(fs.files) && name != "" && |name| < MAX_FILENAME
    ensures UniqueSiblings(Create(fs, name, isDirectory).0.files)
  {
    var (fs', r) := Create(fs, name, isDirectory);
    if r.Ok? {
      var slot := r.value;
      forall j | 0 <= j < MAX_FILES && j != slot && IsLive(fs'.files[j]) && fs'.files[j].parent == fs.cwd
        ensures fs'.files[j].name != fs'.files[slot].name
      {
        assert !Matches(fs.files[j], name, fs.cwd);
      }
    }
  }

  /** A table whose live slots were live before, under the same names and parents, keeps
      sibling names distinct. */
  lemma UniqueSiblingsShrink(s: seq<Entry>, t: seq<Entry>)
    requires |s| == |t| && UniqueSiblings(s)
    requires forall j :: 0 <= j < |t| && IsLive(t[j]) ==>
      IsLive(s[j]) && t[j].name == s[j].name && t[j].parent == s[j].parent
    ensures UniqueSiblings(t)
  {
    forall i, j | 0 <= i < |t| && 0 <= j < |t| && i != j && IsLive(t[i]) && IsLive(t[j]) && t[i].parent == t[j].parent
      ensures t[i].name != t[j].name
    {
      assert s[i].parent == s[j].parent;
    }
  }

  /** A write renames nothing, so it keeps sibling names distinct; so does `cd`, which leaves
      the table alone. */
  lemma WriteKeepsUniqueSiblings(fs: Fs, idx: int, content: string, arg: string)
    requires Valid(fs) && UniqueSiblings(fs.files)
    ensures UniqueSiblings(Write(fs, idx, content).0.files)
    ensures UniqueSiblings(ChangeDir(fs, arg).0.files)
  {
    var t := Write(fs, idx, content).0.files;
    assert forall j :: 0 <= j < MAX_FILES && j != idx ==> t[j] == fs.files[j];
    UniqueSiblingsShrink(fs.files, t);
  }

  /** A file deletion only empties a slot, so it keeps sibling names distinct. */
  lemma DeleteFileKeepsUniqueSiblings(fs: Fs, idx: int)
    requires Valid(fs) && UniqueSiblings(fs.files)
    ensures UniqueSiblings(DeleteFile(fs, idx).0.files)
  {
    var t := DeleteFile(fs, idx).0.files;
    assert forall j :: 0 <= j < MAX_FILES && j != idx ==> t[j] == fs.files[j];
    UniqueSiblingsShrink(fs.files, t);
  }

  /** A recursive deletion only empties slots, so it keeps sibling names distinct. */
  lemma DeleteTreeKeepsUniqueSiblings(fs: Fs, depth: seq<nat>, d: int)
    requires Valid(fs) && Ranked(fs.files, depth) && 0 < d < MAX_FILES && UniqueSiblings(fs.files)
    ensures UniqueSiblings(DeleteTree(fs, depth, d).0.files)
  {
    var t := DeleteTree(fs, depth, d).0.files;
    assert forall j :: 0 <= j < MAX_FILES && IsLive(t[j]) ==> t[j] == fs.files[j];
    UniqueSiblingsShrink(fs.files, t);
  }

  /** Longer names break that: the duplicate check compares the full name while only its
      first MAX_FILENAME - 1 characters are stored. Creating a 32-character name and then a
      different 32-character name with the same first 31 characters, both in the root, gives
      two sibling slots with the same stored name. */
  lemma TruncatedNamesCollide()
    ensures Valid(InitFs()) &&
      var a := seq(MAX_FILENAME, i => 'a');
      var b := seq(MAX_FILENAME - 1, i => 'a') + ['b'];
      var (fs1, r1) := Create(InitFs(), a, false);
      Valid(fs1) &&
      var (fs2, r2) := Create(fs1, b, false);
      && r1 == Ok(1) && r2 == Ok(2)
      && fs2.files[1].parent == fs2.files[2].parent == 0
      && fs2.files[1].name == fs2.files[2].name
      && !UniqueSiblings(fs2.files)
  {
    var a := seq(MAX_FILENAME, i => 'a');
    var b := seq(MAX_FILENAME - 1, i => 'a') + ['b'];
    InitValid();
    var fs0 := InitFs();
    assert !IsLive(fs0.files[1]);
    assert forall j :: 0 <= j < MAX_FILES ==> !Matches(fs0.files[j], a, 0);
    var (fs1, r1) := Create(fs0, a, false);
    assert r1 == Ok(1);
    CreateValid(fs0, a, false);
    assert !IsLive(fs1.files[2]);
    assert fs1.files[1].name == a[..MAX_FILENAME - 1];
    assert forall j :: 0 <= j < MAX_FILES ==> !Matches(fs1.files[j], b, 0);
    var (fs2, r2) := Create(fs1, b, false);
    assert r2 == Ok(2);
    assert fs2.files[1].name == fs2.files[2].name;
  }

  // ---------------------------------------------------------------- block accounting

  /** Block `k` lies in the recorded range of some live entry. */
  ghost predicate UsedBy(s: seq<Entry>, k: int) {
    exists x :: 0 <= x < |s| && IsLive(s[x]) && Owns(s[x], k)
  }

  /** No block lies in the recorded ranges of two live entries. */
  ghost predicate Disjoint(s: seq<Entry>) {
    forall x, y, k ::
      (0 <= x < |s| && 0 <= y < |s| && x != y && IsLive(s[x]) && IsLive(s[y]) && Owns(s[x], k))
      ==> !Owns(s[y], k)
  }

  /** The block partition of the design: the used blocks are exactly the disjoint union of
      the live entries' recorded ranges. */
  ghost predicate Accounted(fs: Fs) {
    && |fs.free| == MAX_BLOCKS
    && (forall k :: 0 <= k < MAX_BLOCKS ==> (!fs.free[k] <==> UsedBy(fs.files, k)))
    && Disjoint(fs.files)
  }

  lemma InitAccounted()
    ensures Accounted(InitFs())
  {
    var s := InitFs().files;
    assert forall x :: 0 <= x < |s| && IsLive(s[x]) ==> x == 0;
  }

  lemma CreateAccounted(fs: Fs, name: string, isDirectory: bool)
    requires Valid(fs) && Accounted(fs)
    ensures Accounted(Create(fs, name, isDirectory).0)
  {
    var (fs', r) := Create(fs, name, isDirectory);
    if r.Ok? {
      forall k | 0 <= k < MAX_BLOCKS ensures UsedBy(fs'.files, k) <==> UsedBy(fs.files, k) {
        if UsedBy(fs'.files, k) {
          var x :| 0 <= x < MAX_FILES && IsLive(fs'.files[x]) && Owns(fs'.files[x], k);
          assert x != r.value && fs.files[x] == fs'.files[x];
        }
        if UsedBy(fs.files, k) {
          var x :| 0 <= x < MAX_FILES && IsLive(fs.files[x]) && Owns(fs.files[x], k);
          assert x != r.value && fs.files[x] == fs'.files[x];
        }
      }
    }
  }

  /** A successful write keeps the partition: the old range is released, and the first-fit
      run it claims was free once that range was released, so nobody else records it. */
  lemma WriteOkAccounted(fs: Fs, idx: int, content: string)
    requires Valid(fs) && Accounted(fs) && Write(fs, idx, content).1.Ok?
    ensures Accounted(Write(fs, idx, content).0)
  {
    var fs' := Write(fs, idx, content).0;
    var e := fs.files[idx];
    var n := BlocksNeeded(|Payload(content)|);
    var free1 := ReleaseOld(fs.free, e);
    var start := FirstFit(free1, n);
    var e' := fs'.files[idx];
    assert e' == e.(startBlock := start, numBlocks := n, size := |Payload(content)|);
    assert forall k :: Owns(e', k) ==> 0 <= k < MAX_BLOCKS && free1[k];
    // A block some other live entry records was used before and is not in the old range.
    forall x, k | 0 <= x < MAX_FILES && x != idx && IsLive(fs.files[x]) && Owns(fs.files[x], k) && 0 <= k < MAX_BLOCKS
      ensures !free1[k] && !Owns(e, k)
    {
      assert UsedBy(fs.files, k);
    }
    forall k | 0 <= k < MAX_BLOCKS ensures !fs'.free[k] <==> UsedBy(fs'.files, k) {
      if !fs'.free[k] {
        if Owns(e', k) {
          assert IsLive(fs'.files[idx]);
        } else {
          assert !free1[k] && !fs.free[k] && !Owns(e, k);
          var x :| 0 <= x < MAX_FILES && IsLive(fs.files[x]) && Owns(fs.files[x], k);
          assert x != idx && fs'.files[x] == fs.files[x];
        }
      }
      if UsedBy(fs'.files, k) {
        var x :| 0 <= x < MAX_FILES && IsLive(fs'.files[x]) && Owns(fs'.files[x], k);
        if x != idx {
          assert fs'.files[x] == fs.files[x];
        }
      }
    }
    forall x, y, k | 0 <= x < MAX_FILES && 0 <= y < MAX_FILES && x != y && IsLive(fs'.files[x]) &&
      IsLive(fs'.files[y]) && Owns(fs'.files[x], k)
      ensures !Owns(fs'.files[y], k)
    {
      if x != idx && y != idx {
        assert fs'.files[x] == fs.files[x] && fs'.files[y] == fs.files[y];
      }
    }
  }

  /** The stale range: when a write of a file that had content fails for lack of space, its
      old blocks are already marked free while its entry still records them, so the block
      partition does not hold afterwards, whatever held before (a later write may hand those blocks to another file, and a
      later delete of this one frees them again). */
  lemma FailedWriteBreaksAccounting(fs: Fs, idx: int, content: string)
    requires Valid(fs)
    requires Write(fs, idx, content).1 == Err(OutOfSpace) && fs.files[idx].startBlock != -1
    ensures var fs' := Write(fs, idx, content).0;
      && fs'.files == fs.files
      && (forall k :: 0 <= k < MAX_BLOCKS && Owns(fs.files[idx], k) ==> fs'.free[k])
      && !Accounted(fs')
  {
    var fs' := Write(fs, idx, content).0;
    var e := fs.files[idx];
    assert WellFormedEntry(e);
    var k := e.startBlock;
    assert fs'.free[k];
    assert UsedBy(fs'.files, k);
  }

  lemma DeleteFileAccounted(fs: Fs, idx: int)
    requires Valid(fs) && Accounted(fs)
    ensures Accounted(DeleteFile(fs, idx).0)
  {
    var (fs', r) := DeleteFile(fs, idx);
    if r.Ok? {
      var e := fs.files[idx];
      forall k | 0 <= k < MAX_BLOCKS ensures !fs'.free[k] <==> UsedBy(fs'.files, k) {
        if !fs'.free[k] {
          var x :| 0 <= x < MAX_FILES && IsLive(fs.files[x]) && Owns(fs.files[x], k);
          assert x != idx && fs'.files[x] == fs.files[x];
        }
        if UsedBy(fs'.files, k) {
          var x :| 0 <= x < MAX_FILES && IsLive(fs'.files[x]) && Owns(fs'.files[x], k);
          assert x != idx && fs'.files[x] == fs.files[x];
        }
      }
      forall x, y, k | 0 <= x < MAX_FILES && 0 <= y < MAX_FILES && x != y && IsLive(fs'.files[x]) &&
        IsLive(fs'.files[y]) && Owns(fs'.files[x], k)
        ensures !Owns(fs'.files[y], k)
      {
        assert fs'.files[x] == fs.files[x] && fs'.files[y] == fs.files[y];
      }
    }
  }

  lemma DeleteTreeAccounted(fs: Fs, depth: seq<nat>, d: int)
    requires Valid(fs) && Ranked(fs.files, depth) && 0 < d < MAX_FILES && Accounted(fs)
    ensures Accounted(DeleteTree(fs, depth, d).0)
  {
    var (fs', r) := DeleteTree(fs, depth, d);
    if r.Ok? {
      var S := Subtree(fs.files, depth, d);
      forall k | 0 <= k < MAX_BLOCKS ensures !fs'.free[k] <==> UsedBy(fs'.files, k) {
        if !fs'.free[k] {
          var x :| 0 <= x < MAX_FILES && IsLive(fs.files[x]) && Owns(fs.files[x], k);
          assert x !in S;
          assert fs'.files[x] == fs.files[x];
        }
        if UsedBy(fs'.files, k) {
          var x :| 0 <= x < MAX_FILES && IsLive(fs'.files[x]) && Owns(fs'.files[x], k);
          assert x !in S && fs'.files[x] == fs.files[x];
        }
      }
      forall x, y, k | 0 <= x < MAX_FILES && 0 <= y < MAX_FILES && x != y && IsLive(fs'.files[x]) &&
        IsLive(fs'.files[y]) && Owns(fs'.files[x], k)
        ensures !Owns(fs'.files[y], k)
      {
        assert x !in S && y !in S;
        assert fs'.files[x] == fs.files[x] && fs'.files[y] == fs.files[y];
      }
    }
  }

  /** The weaker half of the partition that does survive every operation, failed writes
      included: a block marked used is recorded by some live entry, so no block is ever lost. */
  ghost predicate NoLeak(fs: Fs) {
    forall k :: 0 <= k < |fs.free| && !fs.free[k] ==> UsedBy(fs.files, k)
  }

  lemma AccountedNoLeak(fs: Fs)
    requires Accounted(fs)
    ensures NoLeak(fs)
  {
  }

  lemma CreateNoLeak(fs: Fs, name: string, isDirectory: bool)
    requires Valid(fs) && NoLeak(fs)
    ensures NoLeak(Create(fs, name, isDirectory).0)
  {
    var (fs', r) := Create(fs, name, isDirectory);
    if r.Ok? {
      forall k | 0 <= k < MAX_BLOCKS && !fs'.free[k] ensures UsedBy(fs'.files, k) {
        var x :| 0 <= x < MAX_FILES && IsLive(fs.files[x]) && Owns(fs.files[x], k);
        assert x != r.value && fs'.files[x] == fs.files[x];
      }
    }
  }

  /** Whether it succeeds or runs out of space, a write loses no block: a failed one only
      frees blocks, a successful one claims blocks the file itself now records. */
  lemma WriteNoLeak(fs: Fs, idx: int, content: string)
    requires Valid(fs) && NoLeak(fs)
    ensures NoLeak(Write(fs, idx, content).0)
  {
    var (fs', r) := Write(fs, idx, content);
    if 0 <= idx < MAX_FILES && IsLive(fs.files[idx]) && !fs.files[idx].isDirectory {
      var e := fs.files[idx];
      var free1 := ReleaseOld(fs.free, e);
      forall k | 0 <= k < MAX_BLOCKS && !fs'.free[k] ensures UsedBy(fs'.files, k) {
        if !Owns(fs'.files[idx], k) {
          assert !free1[k] && !fs.free[k] && !Owns(e, k);
          var x :| 0 <= x < MAX_FILES && IsLive(fs.files[x]) && Owns(fs.files[x], k);
          assert x != idx && fs'.files[x] == fs.files[x];
        } else {
          assert r.Ok? && IsLive(fs'.files[idx]);
        }
      }
    }
  }

  lemma DeleteFileNoLeak(fs: Fs, idx: int)
    requires Valid(fs) && NoLeak(fs)
    ensures NoLeak(DeleteFile(fs, idx).0)
  {
    var (fs', r) := DeleteFile(fs, idx);
    if r.Ok? {
      forall k | 0 <= k < MAX_BLOCKS && !fs'.free[k] ensures UsedBy(fs'.files, k) {
        var x :| 0 <= x < MAX_FILES && IsLive(fs.files[x]) && Owns(fs.files[x], k);
        assert x != idx && fs'.files[x] == fs.files[x];
      }
    }
  }

  lemma DeleteTreeNoLeak(fs: Fs, depth: seq<nat>, d: int)
    requires Valid(fs) && Ranked(fs.files, depth) && 0 < d < MAX_FILES && NoLeak(fs)
    ensures NoLeak(DeleteTree(fs, depth, d).0)
  {
    var (fs', r) := DeleteTree(fs, depth, d);
    if r.Ok? {
      var S := Subtree(fs.files, depth, d);
      forall k | 0 <= k < MAX_BLOCKS && !fs'.free[k] ensures UsedBy(fs'.files, k) {
        var x :| 0 <= x < MAX_FILES && IsLive(fs.files[x]) && Owns(fs.files[x], k);
        assert x !in S && fs'.files[x] == fs.files[x];
      }
    }
  }

  // ---------------------------------------------------------------- content

  /** The copy-out loop gathers back exactly what the copy-in loop stored: after `i` rounds,
      the first `i` chunks of the payload. */
  lemma {:induction false} GatherCopyIn(blocks: seq<Block>, start: int, data: seq<char>, i: nat)
    requires forall k :: 0 <= k < |blocks| ==> |blocks[k]| == BLOCK_SIZE
    requires |data| >= 1 && 0 <= start && start + BlocksNeeded(|data|) <= |blocks|
    requires i <= BlocksNeeded(|data|)
    ensures var n := BlocksNeeded(|data|);
      Gather(CopyIn(blocks, start, data), start, n, |data|, i) == data[..if i < n then i * BLOCK_SIZE else |data|]
  {
    if i > 0 {
      GatherCopyIn(blocks, start, data, i - 1);
      GatherStep(blocks, start, data, i - 1);
    } else {
      assert data[..0] == [];
    }
  }

  /** One round of the copy-out loop appends the chunk the copy-in loop put in that block. */
  lemma GatherStep(blocks: seq<Block>, start: int, data: seq<char>, j: nat)
    requires forall k :: 0 <= k < |blocks| ==> |blocks[k]| == BLOCK_SIZE
    requires |data| >= 1 && 0 <= start && start + BlocksNeeded(|data|) <= |blocks|
    requires j < BlocksNeeded(|data|)
    ensures var n := BlocksNeeded(|data|);
      var cb := CopyIn(blocks, start, data);
      Gather(cb, start, n, |data|, j) == data[..j * BLOCK_SIZE] ==>
        Gather(cb, start, n, |data|, j + 1) == data[..if j + 1 < n then (j + 1) * BLOCK_SIZE else |data|]
  {
    var n := BlocksNeeded(|data|);
    var len := ChunkLength(j, n, |data|);
    var cb := CopyIn(blocks, start, data);
    var p := j * BLOCK_SIZE;
    assert Gather(cb, start, n, |data|, j + 1) == Gather(cb, start, n, |data|, j) + cb[start + j][..len];
    assert cb[start + j] == Overlay(blocks[start + j], data, j);
    assert cb[start + j][..len] == data[p .. p + len];
    assert p + len == if j + 1 < n then (j + 1) * BLOCK_SIZE else |data|;
    assert data[..p] + data[p .. p + len] == data[..p + len];
  }

  /** The round trip: after a successful write, a read returns the content followed by its
      NUL, `size` = strlen + 1 bytes in all. */
  lemma WriteThenRead(fs: Fs, idx: int, content: string)
    requires Valid(fs) && Write(fs, idx, content).1.Ok?
    ensures var fs' := Write(fs, idx, content).0;
      && Valid(fs')
      && fs'.files[idx].size == |content| + 1
      && Read(fs', idx) == Ok(Payload(content))
  {
    WriteValid(fs, idx, content);
    var fs' := Write(fs, idx, content).0;
    var data := Payload(content);
    var n := BlocksNeeded(|data|);
    var start := FirstFit(ReleaseOld(fs.free, fs.files[idx]), n);
    assert fs'.files[idx] == fs.files[idx].(startBlock := start, numBlocks := n, size := |data|);
    assert fs'.blocks == CopyIn(fs.blocks, start, data);
    GatherCopyIn(fs.blocks, start, data, n);
    assert data[..|data|] == data;
  }

  /** A successful write claims the first-fit run: the lowest-starting run of
      ceil((strlen + 1) / BLOCK_SIZE) free blocks once the old range is released; it marks
      exactly those blocks used and touches no other entry. */
  lemma WriteClaimsFirstFit(fs: Fs, idx: int, content: string)
    requires Valid(fs) && Write(fs, idx, content).1.Ok?
    ensures var fs' := Write(fs, idx, content).0;
      var free1 := ReleaseOld(fs.free, fs.files[idx]);
      var e' := fs'.files[idx];
      && e'.numBlocks >= 1 && (e'.numBlocks - 1) * BLOCK_SIZE < |content| + 1 <= e'.numBlocks * BLOCK_SIZE
      && RunFree(free1, e'.startBlock, e'.numBlocks)
      && (forall q :: 0 <= q < e'.startBlock ==> !RunFree(free1, q, e'.numBlocks))
      && (forall k :: 0 <= k < MAX_BLOCKS ==> fs'.free[k] == (free1[k] && !Owns(e', k)))
      && (forall j :: 0 <= j < MAX_FILES && j != idx ==> fs'.files[j] == fs.files[j])
  {
  }

  // ---------------------------------------------------------------- outcomes of single calls

  /** `create_file` fails and changes nothing exactly when the table is full or a live entry of
      the current directory has that name; otherwise it fills the lowest empty slot with an
      empty entry under the current directory and counts it. */
  lemma CreateOutcome(fs: Fs, name: string, isDirectory: bool)
    requires Valid(fs)
    ensures var (fs', r) := Create(fs, name, isDirectory);
      && (r.Err? ==> fs' == fs && r.error in {TableFull, DuplicateName})
      && (r == Err(TableFull) <==> fs.numFiles >= MAX_FILES)
      && (r == Err(DuplicateName) <==>
            fs.numFiles < MAX_FILES && exists j :: 0 <= j < MAX_FILES && Matches(fs.files[j], name, fs.cwd))
      && (r.Ok? ==>
            var slot := r.value;
            && 0 < slot < MAX_FILES && !IsLive(fs.files[slot])
            && (forall j :: 0 <= j < slot ==> IsLive(fs.files[j]))
            && fs'.files[slot] == Entry(StoredName(name), 0, -1, 0, isDirectory, fs.cwd)
            && (forall j :: 0 <= j < MAX_FILES && j != slot ==> fs'.files[j] == fs.files[j])
            && fs'.numFiles == fs.numFiles + 1
            && fs'.free == fs.free && fs'.blocks == fs.blocks && fs'.cwd == fs.cwd)
  {
    CreateNeverLacksSlot(fs, name, isDirectory);
    var r := Create(fs, name, isDirectory).1;
    if fs.numFiles < MAX_FILES && exists j :: 0 <= j < MAX_FILES && Matches(fs.files[j], name, fs.cwd) {
      assert Find(fs.files, name, fs.cwd) != -1;
    }
  }

  /** `delete_file` agrees with its error checks, and on success frees exactly the file's
      recorded range, empties its slot and uncounts it, touching nothing else. */
  lemma DeleteFileOutcome(fs: Fs, idx: int)
    requires Valid(fs)
    ensures var (fs', r) := DeleteFile(fs, idx);
      && (r == Err(InvalidIndex) <==> !(0 <= idx < MAX_FILES) || !IsLive(fs.files[idx]))
      && (r == Err(IsADirectory) <==> 0 <= idx < MAX_FILES && IsLive(fs.files[idx]) && fs.files[idx].isDirectory)
      && (r.Err? ==> fs' == fs && r.error in {InvalidIndex, IsADirectory})
      && (r.Ok? ==>
            && (forall k :: 0 <= k < MAX_BLOCKS ==> fs'.free[k] == (fs.free[k] || Owns(fs.files[idx], k)))
            && fs'.files[idx] == BlankEntry
            && (forall j :: 0 <= j < MAX_FILES && j != idx ==> fs'.files[j] == fs.files[j])
            && fs'.numFiles == fs.numFiles - 1 && fs'.blocks == fs.blocks && fs'.cwd == fs.cwd)
  {
  }

  /** `write_file` and `read_file` reject a bad index, an empty slot or a directory with no
      change; a write fails otherwise only when no run of free blocks is long enough once the
      old range is released, and then only the markers have changed: the old range is free. */
  lemma WriteReadErrors(fs: Fs, idx: int, content: string)
    requires Valid(fs)
    ensures var (fs', r) := Write(fs, idx, content);
      && (r == Err(InvalidIndex) <==> !(0 <= idx < MAX_FILES) || !IsLive(fs.files[idx]))
      && (r == Err(IsADirectory) <==> 0 <= idx < MAX_FILES && IsLive(fs.files[idx]) && fs.files[idx].isDirectory)
      && (r == Err(OutOfSpace) <==>
            0 <= idx < MAX_FILES && IsLive(fs.files[idx]) && !fs.files[idx].isDirectory &&
            forall q :: 0 <= q ==> !RunFree(ReleaseOld(fs.free, fs.files[idx]), q, BlocksNeeded(|Payload(content)|)))
      && (r.Err? ==> r.error in {InvalidIndex, IsADirectory, OutOfSpace})
      && (r.Err? ==> fs'.files == fs.files && fs'.blocks == fs.blocks && fs'.numFiles == fs.numFiles)
      && (r.Err? && r.error != OutOfSpace ==> fs' == fs)
      && (r == Err(OutOfSpace) ==>
            && fs'.cwd == fs.cwd
            && forall k :: 0 <= k < MAX_BLOCKS ==> fs'.free[k] == (fs.free[k] || Owns(fs.files[idx], k)))
    ensures Read(fs, idx) == Err(InvalidIndex) <==> !(0 <= idx < MAX_FILES) || !IsLive(fs.files[idx])
    ensures Read(fs, idx) == Err(IsADirectory) <==>
      0 <= idx < MAX_FILES && IsLive(fs.files[idx]) && fs.files[idx].isDirectory
    ensures Read(fs, idx) == Err(EmptyFile) <==>
      0 <= idx < MAX_FILES && IsLive(fs.files[idx]) && !fs.files[idx].isDirectory && fs.files[idx].startBlock == -1
    ensures Read(fs, idx).Err? ==> Read(fs, idx).error in {InvalidIndex, IsADirectory, EmptyFile}
  {
  }

  /** `cd` changes nothing but the current directory, and moves it only to the parent on ".."
      (staying put at the root) or to a directory of that name in the current directory. A
      name is not found exactly when nothing of that name is in the current directory, and it
      is entered exactly when its first match there is a directory. */
  lemma ChangeDirOutcome(fs: Fs, arg: string)
    requires Valid(fs)
    ensures var (fs', r) := ChangeDir(fs, arg);
      && fs'.(cwd := fs.cwd) == fs
      && (r.Err? ==> fs' == fs)
      && (arg == ".." ==> r.Ok? && fs'.cwd == (if fs.cwd == 0 then 0 else fs.files[fs.cwd].parent))
      && (arg != ".." && r.Ok? ==>
            Matches(fs.files[fs'.cwd], arg, fs.cwd) && fs.files[fs'.cwd].isDirectory)
      && (arg != ".." && r.Err? ==>
            forall j :: 0 <= j < MAX_FILES && Matches(fs.files[j], arg, fs.cwd) ==>
              (r == Err(NotADirectory) && j >= Find(fs.files, arg, fs.cwd)))
    ensures arg != ".." ==>
      var (fs', r) := ChangeDir(fs, arg);
      var i := Find(fs.files, arg, fs.cwd);
      && (r == Err(NotFound) <==> forall j :: 0 <= j < MAX_FILES ==> !Matches(fs.files[j], arg, fs.cwd))
      && (r == Err(NotADirectory) <==> i != -1 && !fs.files[i].isDirectory)
      && (i != -1 && fs.files[i].isDirectory ==> r.Ok? && fs'.cwd == i)
  {
  }

  // ---------------------------------------------------------------- navigation and paths

  /** The root is named "/" and is its own child, so "/" resolves to the root from the root:
      `cd /` at the root stays there and `create_file("/")` there is a duplicate. */
  lemma SlashAtRoot(fs: Fs, isDirectory: bool)
    requires Valid(fs) && fs.cwd == 0
    ensures Find(fs.files, "/", 0) == 0
    ensures ChangeDir(fs, "/") == (fs, Ok(()))
    ensures fs.numFiles < MAX_FILES ==> Create(fs, "/", isDirectory) == (fs, Err(DuplicateName))
  {
    assert Matches(fs.files[0], "/", 0);
  }

  /** The root is never empty, for it is its own child. */
  lemma RootNeverEmpty(fs: Fs)
    requires Valid(fs)
    ensures HasChild(fs.files, 0)
  {
    assert IsLive(fs.files[0]) && fs.files[0].parent == 0;
  }

  /** `pwd` after `cd name` into a directory below: the old path extended by "/name". */
  lemma PathAfterCd(fs: Fs, depth: seq<nat>, name: string)
    requires Valid(fs) && Ranked(fs.files, depth) && SessionOk(fs) && name != ".."
    requires ChangeDir(fs, name).1.Ok? && ChangeDir(fs, name).0.cwd != 0
    ensures var c := ChangeDir(fs, name).0.cwd;
      ReachesRoot(fs.files, c, depth[c]) && ReachesRoot(fs.files, fs.cwd, depth[fs.cwd]) &&
      FullPath(fs.files, c, depth[c]) ==
        (if fs.cwd == 0 then "" else FullPath(fs.files, fs.cwd, depth[fs.cwd])) + "/" + name
  {
    var c := ChangeDir(fs, name).0.cwd;
    assert Matches(fs.files[c], name, fs.cwd);
    RankedReachesRoot(fs.files, depth, c);
    RankedReachesRoot(fs.files, depth, fs.cwd);
    if fs.cwd != 0 {
      PathFuelIrrelevant(fs.files, fs.cwd, depth[c] - 1, depth[fs.cwd]);
    }
  }

  /** `pwd` after `cd ..` below the root: the old path with its last "/name" removed. */
  lemma PathAfterCdUp(fs: Fs, depth: seq<nat>)
    requires Valid(fs) && Ranked(fs.files, depth) && SessionOk(fs) && fs.cwd != 0
    ensures var p := ChangeDir(fs, "..").0.cwd;
      ReachesRoot(fs.files, p, depth[p]) && ReachesRoot(fs.files, fs.cwd, depth[fs.cwd]) &&
      FullPath(fs.files, fs.cwd, depth[fs.cwd]) ==
        (if p == 0 then "" else FullPath(fs.files, p, depth[p])) + "/" + fs.files[fs.cwd].name
  {
    var p := fs.files[fs.cwd].parent;
    assert ParentOk(fs.files, depth, fs.cwd);
    RankedReachesRoot(fs.files, depth, p);
    RankedReachesRoot(fs.files, depth, fs.cwd);
    if p != 0 {
      PathFuelIrrelevant(fs.files, p, depth[fs.cwd] - 1, depth[p]);
    }
  }

  // ---------------------------------------------------------------- a reachable cycle

  /** A slot that is its own parent never leads to the root, whatever the fuel. */
  lemma {:induction false} SelfParentNeverReachesRoot(s: seq<Entry>, i: int, f: nat)
    requires 0 < i < |s| && s[i].parent == i
    ensures !ReachesRoot(s, i, f)
    decreases f
  {
    if f > 0 {
      SelfParentNeverReachesRoot(s, i, f - 1);
    }
  }

  /** An orphan, a live entry whose parent slot is empty, still has a path: an empty slot's
      parent is 0, so the walk passes through it with an empty name and reaches the root, and
      `get_full_path` builds "//" followed by the orphan's name. */
  lemma OrphanPath(s: seq<Entry>, i: int, p: int)
    requires 0 < i < |s| && 0 < p < |s| && s[i].parent == p && s[p] == BlankEntry
    ensures ReachesRoot(s, i, 2)
    ensures FullPath(s, i, 2) == "//" + s[i].name
  {
    assert ReachesRoot(s, p, 1);
    assert PathBelow(s, p, 1) == "/";
  }

  /** The ranking of the table with one directory below the root in slot 1. */
  function OneBelowRoot(): seq<nat> {
    seq(MAX_FILES, i => if i == 0 then 0 else 1)
  }

  /** The states of the trace `mkdir a; cd a; delete 1; mkdir b` from the initial state. */
  function TraceState(step: nat): Fs
    requires step <= 4
  {
    var fs0 := InitFs();
    match step
    case 0 => fs0
    case 1 => fs0.(files := fs0.files[1 := Entry("a", 0, -1, 0, true, 0)], numFiles := 2)
    case 2 => fs0.(files := fs0.files[1 := Entry("a", 0, -1, 0, true, 0)], numFiles := 2, cwd := 1)
    case 3 => fs0.(cwd := 1)
    case 4 => fs0.(files := fs0.files[1 := Entry("b", 0, -1, 0, true, 1)], numFiles := 2, cwd := 1)
  }

  /** `mkdir a` at the root fills slot 1. */
  lemma TraceMkdirA()
    ensures Valid(TraceState(0)) && Create(TraceState(0), "a", true) == (TraceState(1), Ok(1))
    ensures Valid(TraceState(1))
  {
    InitValid();
    var fs0 := InitFs();
    assert forall j :: 0 <= j < MAX_FILES ==> !Matches(fs0.files[j], "a", 0);
    assert !IsLive(fs0.files[1]);
    assert StoredName("a") == "a";
    CreateValid(fs0, "a", true);
  }

  /** `cd a` enters slot 1, and the table is ranked. */
  lemma TraceCdA()
    requires Valid(TraceState(1))
    ensures ChangeDir(TraceState(1), "a") == (TraceState(2), Ok(()))
    ensures Valid(TraceState(2)) && Ranked(TraceState(2).files, OneBelowRoot())
  {
    var fs1 := TraceState(1);
    assert Matches(fs1.files[1], "a", 0);
    ChangeDirValid(fs1, "a");
    var s := TraceState(2).files;
    forall x | 0 < x < MAX_FILES && IsLive(s[x]) ensures ParentOk(s, OneBelowRoot(), x) {
      assert x == 1;
    }
  }

  /** `delete 1` removes the current directory, which has no children, and leaves the session there. */
  lemma TraceDelete1()
    requires Valid(TraceState(2)) && Ranked(TraceState(2).files, OneBelowRoot())
    ensures DeleteCommand(TraceState(2), OneBelowRoot(), 1) == (TraceState(3), Ok(()))
    ensures Valid(TraceState(3))
  {
    var fs2 := TraceState(2);
    var depth := OneBelowRoot();
    var S := Subtree(fs2.files, depth, 1);
    assert Below(fs2.files, 1, 1, depth[1]);
    assert !Below(fs2.files, 0, 1, depth[0]);
    forall x | x in S ensures x == 1 {
      assert 0 <= x < MAX_FILES && IsLive(fs2.files[x]);
    }
    assert S == {1};
    assert ClearSlots(fs2.files, S) == TraceState(3).files;
    assert ReleaseAll(fs2.free, fs2.files, S) == fs2.free;
    DeleteTreeValid(fs2, depth, 1);
  }

  /** `mkdir b` fills slot 1 again, under the current directory, which is slot 1. */
  lemma TraceMkdirB()
    requires Valid(TraceState(3))
    ensures Create(TraceState(3), "b", true) == (TraceState(4), Ok(1))
    ensures Valid(TraceState(4))
  {
    var fs3 := TraceState(3);
    assert forall j :: 0 <= j < MAX_FILES ==> !Matches(fs3.files[j], "b", 1);
    assert !IsLive(fs3.files[1]);
    assert StoredName("b") == "b";
    CreateValid(fs3, "b", true);
  }

  /** Nothing re-homes the current directory, and creation puts a new entry under it in the
      lowest empty slot. So `mkdir a; cd a; delete 1; mkdir b` from the initial state (the
      index-addressed dialect) creates `b` in slot 1 with slot 1 as its parent. That state is
      valid, but slot 1 is its own parent: no ranking of the table exists and its parent chain
      never reaches the root, so `get_full_path(1)` of the next prompt and `delete 1` do not
      end. */
  lemma DeletedSessionMakesCycle()
    ensures
      var fs0 := InitFs();
      Valid(fs0) &&
      var (fs1, r1) := Create(fs0, "a", true);
      Valid(fs1) &&
      var (fs2, r2) := ChangeDir(fs1, "a");
      Valid(fs2) && Ranked(fs2.files, OneBelowRoot()) &&
      var (fs3, r3) := DeleteCommand(fs2, OneBelowRoot(), 1);
      Valid(fs3) &&
      var (fs4, r4) := Create(fs3, "b", true);
      && r1 == Ok(1) && r2 == Ok(()) && r3 == Ok(()) && r4 == Ok(1)
      && Valid(fs4) && fs4.cwd == 1
      && fs4.files[1] == Entry("b", 0, -1, 0, true, 1)
      && (forall depth :: !Ranked(fs4.files, depth))
      && (forall f: nat :: !ReachesRoot(fs4.files, 1, f))
  {
    TraceMkdirA();
    TraceCdA();
    TraceDelete1();
    TraceMkdirB();
    var s := TraceState(4).files;
    forall depth ensures !Ranked(s, depth) {
      assert |depth| == |s| ==> !ParentOk(s, depth, 1);
    }
    forall f: nat ensures !ReachesRoot(s, 1, f) {
      SelfParentNeverReachesRoot(s, 1, f);
    }
  }
}
