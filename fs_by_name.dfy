/** The name-addressed variant of the engine: `write_file`, `read_file` and `delete_file` take a
    file name, resolve it with `find_file_in_dir(name, current_dir)` and then run the same code
    as the index-addressed routines; the `delete <name>` command refuses "/" and dispatches on
    what the name resolves to. */
module FsByName {
  import opened FsTypes
  import opened FsTree
  import opened FsSpec
  import opened FsProps
  import opened FsEngine

  // ---------------------------------------------------------------- the operations

  /** The slot a name denotes in the current directory, or -1. */
  function Resolve(fs: Fs, name: string): (i: int)
    requires Valid(fs)
    ensures i == -1 || (0 <= i < MAX_FILES && IsLive(fs.files[i]) && fs.files[i].parent == fs.cwd)
    ensures i == 0 ==> name == "/" && fs.cwd == 0
    ensures name == "/" && fs.cwd == 0 ==> i == 0
  {
    assert Matches(fs.files[0], "/", 0);
    Find(fs.files, name, fs.cwd)
  }

  /** `write_file(name, content)`: an unknown name fails before anything is touched. */
  function WriteNamed(fs: Fs, name: string, content: string): (Fs, Result<()>)
    requires Valid(fs)
  {
    var i := Resolve(fs, name);
    if i == -1 then (fs, Err(NotFound)) else Write(fs, i, content)
  }

  /** `read_file(name)`. */
  function ReadNamed(fs: Fs, name: string): Result<seq<char>>
    requires Valid(fs)
  {
    var i := Resolve(fs, name);
    if i == -1 then Err(NotFound) else Read(fs, i)
  }

  /** `delete_file(name)`. */
  function DeleteFileNamed(fs: Fs, name: string): (Fs, Result<()>)
    requires Valid(fs)
  {
    var i := Resolve(fs, name);
    if i == -1 then (fs, Err(NotFound)) else DeleteFile(fs, i)
  }

  /** The name resolves to a directory other than the root, which the command would delete
      recursively; only then is a ranking of the tree needed. */
  predicate TargetsDirectory(fs: Fs, name: string)
    requires Valid(fs)
  {
    var i := Resolve(fs, name);
    name != "/" && i != -1 && fs.files[i].isDirectory
  }

  /** The `delete <name>` branch of the name-addressed command loop. */
  ghost function DeleteCommandNamed(fs: Fs, depth: seq<nat>, name: string): (Fs, Result<()>)
    requires Valid(fs)
    requires TargetsDirectory(fs, name) ==> Ranked(fs.files, depth)
  {
    if name == "/" then (fs, Err(CannotDeleteRoot))
    else
      var i := Resolve(fs, name);
      if i == -1 then (fs, Err(NotFound))
      else if fs.files[i].isDirectory then DeleteTree(fs, depth, i)
      else DeleteFileNamed(fs, name)
  }

  // ---------------------------------------------------------------- properties

  /** Resolution only looks at liveness, parent and name: a table that agrees there resolves
      every name to the same slot. */
  lemma ResolveStable(s: seq<Entry>, t: seq<Entry>, name: string, dir: int)
    requires |s| == |t|
    requires forall j :: 0 <= j < |s| ==> (Matches(s[j], name, dir) <==> Matches(t[j], name, dir))
    ensures Find(s, name, dir) == Find(t, name, dir)
  {
    var a := Find(s, name, dir);
    var b := Find(t, name, dir);
    if a != -1 {
      assert Matches(t[a], name, dir);
    }
    if b != -1 {
      assert Matches(s[b], name, dir);
    }
  }

  /** A failed named write or delete_file never changes an entry, a block's content, the count
      or the current directory; when it failed on resolution or on a directory (not for lack of
      space), it changes nothing at all. */
  lemma NamedFailureKeepsState(fs: Fs, name: string, content: string)
    requires Valid(fs)
    ensures var (fs', r) := WriteNamed(fs, name, content);
      r.Err? ==> fs'.files == fs.files && fs'.blocks == fs.blocks && fs'.numFiles == fs.numFiles && fs'.cwd == fs.cwd
    ensures var (fs', r) := WriteNamed(fs, name, content);
      r.Err? && r.error != OutOfSpace ==> fs' == fs
    ensures var (fs', r) := DeleteFileNamed(fs, name);
      r.Err? ==> fs' == fs && (r.error == NotFound || r.error == IsADirectory)
    ensures ReadNamed(fs, name).Err? ==> ReadNamed(fs, name).error in {NotFound, IsADirectory, EmptyFile}
  {
  }

  /** The named write/read round trip: once `write_file(name, content)` succeeds, the same name
      still resolves to the same file, and `read_file(name)` returns the content and its NUL. */
  lemma NamedWriteThenRead(fs: Fs, name: string, content: string)
    requires Valid(fs) && WriteNamed(fs, name, content).1.Ok?
    ensures var fs' := WriteNamed(fs, name, content).0;
      && Valid(fs')
      && Resolve(fs', name) == Resolve(fs, name)
      && fs'.files[Resolve(fs, name)].size == |content| + 1
      && ReadNamed(fs', name) == Ok(Payload(content))
  {
    var i := Resolve(fs, name);
    var fs' := Write(fs, i, content).0;
    WriteThenRead(fs, i, content);
    assert fs'.cwd == fs.cwd;
    forall j | 0 <= j < MAX_FILES
      ensures Matches(fs.files[j], name, fs.cwd) <==> Matches(fs'.files[j], name, fs.cwd)
    {
      assert j != i ==> fs'.files[j] == fs.files[j];
    }
    ResolveStable(fs.files, fs'.files, name, fs.cwd);
  }

  /** With the siblings' names distinct, a successful delete command leaves nothing by that
      name in the current directory: the file, or the directory with its whole subtree, is gone. */
  lemma NamedDeleteRemovesName(fs: Fs, depth: seq<nat>, name: string)
    requires Valid(fs) && Ranked(fs.files, depth) && UniqueSiblings(fs.files)
    requires DeleteCommandNamed(fs, depth, name).1.Ok?
    ensures var fs' := DeleteCommandNamed(fs, depth, name).0;
      Valid(fs') && Resolve(fs', name) == -1
  {
    NamedDeleteKeepsSession(fs, depth, name);
    var i := Resolve(fs, name);
    var fs' := DeleteCommandNamed(fs, depth, name).0;
    if fs.files[i].isDirectory {
      DeleteTreeValid(fs, depth, i);
      var S := Subtree(fs.files, depth, i);
      assert Below(fs.files, i, i, depth[i]);
      forall j | 0 <= j < MAX_FILES ensures !Matches(fs'.files[j], name, fs.cwd) {
        assert Matches(fs.files[j], name, fs.cwd) ==> j == i;
      }
    } else {
      DeleteFileValid(fs, i);
      forall j | 0 <= j < MAX_FILES ensures !Matches(fs'.files[j], name, fs.cwd) {
        assert Matches(fs.files[j], name, fs.cwd) ==> j == i;
      }
    }
  }

  /** Unlike deletion by index, deletion by name can only remove a child of the current
      directory, so the current directory survives it and the session stays valid; the command
      also keeps the table valid and ranked. */
  lemma NamedDeleteKeepsSession(fs: Fs, depth: seq<nat>, name: string)
    requires Valid(fs) && Ranked(fs.files, depth)
    ensures var fs' := DeleteCommandNamed(fs, depth, name).0;
      && Valid(fs') && Ranked(fs'.files, depth) && fs'.cwd == fs.cwd
      && (SessionOk(fs) ==> SessionOk(fs'))
  {
    var i := Resolve(fs, name);
    if name != "/" && i != -1 {
      if fs.files[i].isDirectory {
        SubtreeOfChild(fs.files, depth, i, fs.cwd);
        DeleteTreeRanked(fs, depth, i);
      } else {
        DeleteFileRanked(fs, depth, i);
      }
    }
  }

  /** The named operations keep sibling names distinct, as the index-addressed ones do. */
  lemma NamedOperationsKeepUniqueSiblings(fs: Fs, depth: seq<nat>, name: string, content: string)
    requires Valid(fs) && Ranked(fs.files, depth) && UniqueSiblings(fs.files)
    ensures UniqueSiblings(WriteNamed(fs, name, content).0.files)
    ensures UniqueSiblings(DeleteFileNamed(fs, name).0.files)
    ensures UniqueSiblings(DeleteCommandNamed(fs, depth, name).0.files)
  {
    var i := Resolve(fs, name);
    if i != -1 {
      WriteKeepsUniqueSiblings(fs, i, content, "");
      DeleteFileKeepsUniqueSiblings(fs, i);
      if i != 0 && fs.files[i].isDirectory {
        DeleteTreeKeepsUniqueSiblings(fs, depth, i);
      }
    }
  }

  /** A name other than "/" never resolves to the root, and the command on a resolved name
      does what the index-addressed command does on the resolved slot. */
  lemma NamedDeleteIsIndexDelete(fs: Fs, depth: seq<nat>, name: string)
    requires Valid(fs) && Ranked(fs.files, depth) && name != "/" && Resolve(fs, name) != -1
    ensures 0 < Resolve(fs, name)
    ensures DeleteCommandNamed(fs, depth, name) == DeleteCommand(fs, depth, Resolve(fs, name))
  {
  }

  // ---------------------------------------------------------------- the routines

  /** `write_file(name, content)` on the engine. */
  method WriteByName(fs: FileSystem, name: string, content: string) returns (r: Result<()>)
    requires fs.Valid() && IsCString(content)
    modifies fs.files, fs.freeBlocks, fs.blocks
    ensures fs.Valid()
    ensures (fs.State(), r) == WriteNamed(old(fs.State()), name, content)
    ensures old(fs.Tree()) ==> fs.Tree()
    ensures old(fs.Session()) ==> fs.Session()
  {
    var i := fs.FindFileInDir(name, fs.currentDir);
    if i == -1 {
      return Err(NotFound);
    }
    r := fs.WriteFile(i, content);
  }

  /** `read_file(name)` on the engine. */
  method ReadByName(fs: FileSystem, name: string) returns (r: Result<seq<char>>)
    requires fs.Valid()
    ensures r == ReadNamed(fs.State(), name)
  {
    var i := fs.FindFileInDir(name, fs.currentDir);
    if i == -1 {
      return Err(NotFound);
    }
    r := fs.ReadFile(i);
  }

  /** `delete_file(name)` on the engine. */
  method DeleteFileByName(fs: FileSystem, name: string) returns (r: Result<()>)
    requires fs.Valid()
    modifies fs, fs.files, fs.freeBlocks
    ensures fs.Valid() && fs.depth == old(fs.depth)
    ensures (fs.State(), r) == DeleteFileNamed(old(fs.State()), name)
    ensures old(fs.Tree()) ==> fs.Tree()
    ensures old(fs.Session()) ==> fs.Session()
  {
    var i := fs.FindFileInDir(name, fs.currentDir);
    if i == -1 {
      return Err(NotFound);
    }
    r := fs.DeleteFile(i);
  }

  /** The `delete <name>` branch of the command loop on the engine. */
  method DeleteByName(fs: FileSystem, name: string) returns (r: Result<()>)
    requires fs.Tree()
    modifies fs, fs.files, fs.freeBlocks
    ensures fs.Tree() && fs.depth == old(fs.depth)
    ensures (fs.State(), r) == DeleteCommandNamed(old(fs.State()), fs.depth, name)
    ensures old(fs.Session()) ==> fs.Session()
  {
    ghost var fs0 := fs.State();
    NamedDeleteKeepsSession(fs0, fs.depth, name);
    if name == "/" {
      return Err(CannotDeleteRoot);
    }
    var i := fs.FindFileInDir(name, fs.currentDir);
    if i == -1 {
      return Err(NotFound);
    }
    if fs.files[i].isDirectory {
      r := fs.DeleteDirectoryRecursive(i);
    } else {
      r := DeleteFileByName(fs, name);
    }
  }
}
