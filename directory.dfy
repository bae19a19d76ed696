/**
 * Stalxed\FileSystem\Directory: operations on the directory at a pathname.  The walks
 * of isEmpty(), getSize(), clear(), makeWritableForAll() and copyTo() visit the order `w`
 * the iterator yields for the directory (Walks.Yields); each failure of the runtime
 * becomes a RuntimeException.
 */
module Directories {
  import opened Paths
  import opened Wrappers
  import opened Errors
  import opened Hosts
  import opened Walks
  import FS = FileSystems

  class Directory {
    var path: Path

    constructor (path: Path)
      ensures this.path == path
    {
      this.path := path;
    }

    method SetDirectoryPath(path: Path)
      modifies this
      ensures this.path == path
    {
      this.path := path;
    }

    /** isExists(): is_dir(), following a link. */
    function IsExists(h: Host): (r: bool)
      reads this, h
      ensures r <==> FS.IsDir(h.tree, path)
      ensures FS.IsFile(h.tree, path) || !FS.FileExists(h.tree, path) ==> !r
    {
      FS.IsDir(h.tree, path)
    }

    /** isReadable(): exactly the directories the iterator of the walks can open. */
    function IsReadable(h: Host): (r: bool)
      reads this, h
      ensures r ==> IsExists(h)
      ensures FS.IsFile(h.tree, path) || !FS.FileExists(h.tree, path) ==> !r
      ensures r <==> WalkRoot(h.tree, path).Some?
    {
      FS.IsDir(h.tree, path) && FS.IsReadable(h.tree, path)
    }

    /** isWritable(): exactly the directories, reached through at most one link, that take new entries. */
    function IsWritable(h: Host): (r: bool)
      reads this, h
      ensures r ==> IsExists(h)
      ensures FS.IsFile(h.tree, path) || !FS.FileExists(h.tree, path) ==> !r
      ensures r <==> FS.CanEdit(h.tree, FS.Resolve(h.tree, path))
    {
      FS.IsDir(h.tree, path) && FS.IsWritable(h.tree, path)
    }

    /** isEmpty(): the directory has nothing in it. */
    method IsEmpty(h: Host, w: seq<Path>) returns (r: Result<bool>)
      requires h.Valid() && Yields(h.tree, path, w, false)
      ensures r.Ok? <==> WalkRoot(h.tree, path).Some?
      ensures r.Err? ==> r.error == UnexpectedValue
      ensures r.Ok? ==> (r.value <==> FS.NoChildren(h.tree, WalkRoot(h.tree, path).value))
    {
      var root := WalkRoot(h.tree, path);
      if root.None? {
        return Err(UnexpectedValue);
      }
      var found := HasEntry(w);
      EmptyWalk(h.tree, root.value, w);
      r := Ok(!found);
    }

    /** getSize(): the sizes of the files below the directory, at any depth, added up. */
    method GetSize(h: Host, w: seq<Path>) returns (r: Result<nat>)
      requires Yields(h.tree, path, w, false)
      ensures r.Ok? <==> WalkRoot(h.tree, path).Some?
      ensures r.Err? ==> r.error == UnexpectedValue
      ensures r.Ok? ==> r.value == SetSize(h.tree, Below(h.tree, WalkRoot(h.tree, path).value))
    {
      var root := WalkRoot(h.tree, path);
      if root.None? {
        return Err(UnexpectedValue);
      }
      var size := SumFileSizes(h, w);
      WalkSize(h.tree, root.value, w);
      r := Ok(size);
    }

    /** create(): mkdir -p with `mode` (0755 by default). */
    method Create(h: Host, mode: nat) returns (r: Result<()>)
      requires h.Valid()
      modifies h
      ensures h.Valid()
      ensures var (u, ok) := FS.MkdirRecursive(old(h.tree), path, mode);
        h.tree == u && r == if ok then Ok(()) else Err(Runtime("Failed to create directory.", Render(path)))
      ensures FS.Keeps(old(h.tree), h.tree)
      ensures r.Ok? ==> path in h.tree && h.tree[path] == FS.Dir(mode)
      ensures r.Ok? ==> forall k :: 0 <= k < |path| ==> path[..k] in h.tree && h.tree[path[..k]].Dir?
      ensures forall q :: q in h.tree && q !in old(h.tree) ==>
        (exists k :: 0 < k <= |path| && q == path[..k]) && h.tree[q] == FS.Dir(mode)
      ensures path in old(h.tree) ==> r.Err? && h.tree == old(h.tree)
    {
      FS.MkdirRecursiveOutcome(h.tree, path, mode);
      if path in h.tree {
        FS.MkdirRecursiveExisting(h.tree, path, mode);
      }
      var ok := h.MkdirRecursive(path, mode);
      if !ok {
        return Err(Runtime("Failed to create directory.", Render(path)));
      }
      forall k | 0 <= k < |path|
        ensures path[..k] in h.tree && h.tree[path[..k]].Dir?
      {
        FS.AncestorsAreDirs(h.tree, path, k);
      }
      r := Ok(());
    }

    /** delete(): rmdir(), which takes only an empty directory. */
    method Delete(h: Host) returns (r: Result<()>)
      requires h.Valid()
      modifies h
      ensures h.Valid()
      ensures var removed := FS.Rmdir(old(h.tree), path);
        h.tree == FS.After(old(h.tree), removed) &&
        r == if removed.Some? then Ok(()) else Err(Runtime("Failed to delete directory.", Render(path)))
      ensures r.Ok? ==> h.tree == old(h.tree) - {path}
      ensures !FS.NoChildren(old(h.tree), path) ==> r.Err? && h.tree == old(h.tree)
    {
      var ok := h.Rmdir(path);
      if !ok {
        return Err(Runtime("Failed to delete directory.", Render(path)));
      }
      r := Ok(());
    }

    /**
     * clear(): removes what is below the directory, children first, and throws at the first
     * entry that will not go, naming the directory; what was removed before stays removed.
     */
    method Clear(h: Host, w: seq<Path>) returns (r: Result<()>)
      requires h.Valid() && Yields(h.tree, path, w, true)
      modifies h
      ensures h.Valid()
      ensures WalkRoot(old(h.tree), path).None? ==> r == Err(UnexpectedValue) && h.tree == old(h.tree)
      ensures WalkRoot(old(h.tree), path).Some? ==>
        var run := Walks.Clear(old(h.tree), w);
        h.tree == run.tree &&
        (run.done == |w| ==> r == Ok(())) &&
        (run.done < |w| ==> r == Err(Runtime(
          if FS.IsDir(h.tree, w[run.done]) then "Failed to delete directory." else "Failed to delete file.",
          Render(path))))
      ensures r.Ok? ==> (
        var root := WalkRoot(old(h.tree), path).value;
        root in h.tree && FS.NoChildren(h.tree, root) && h.tree == old(h.tree) - Below(old(h.tree), root))
      ensures WalkRoot(old(h.tree), path).Some? && NoLinkedDirs(old(h.tree), w) ==>
        h.tree == old(h.tree) - Items(w[..FirstLocked(old(h.tree), w)])
    {
      var root := WalkRoot(h.tree, path);
      if root.None? {
        return Err(UnexpectedValue);
      }
      if NoLinkedDirs(h.tree, w) {
        ClearStopsAtFirstLocked(h.tree, root.value, w);
      }
      ghost var t0 := h.tree;
      var done, dir := RemoveEach(h, w);
      if done < |w| {
        return Err(Runtime(if dir then "Failed to delete directory." else "Failed to delete file.", Render(path)));
      }
      ClearEmpties(t0, root.value, w);
      r := Ok(());
    }

    /**
     * makeWritableForAll(): chmod 0777 on everything below the directory, children first,
     * then on the directory itself; it throws at the first refusal, naming that entry.
     */
    method MakeWritableForAll(h: Host, w: seq<Path>) returns (r: Result<()>)
      requires h.Valid() && Yields(h.tree, path, w, true)
      modifies h
      ensures h.Valid()
      ensures WalkRoot(old(h.tree), path).None? ==> r == Err(UnexpectedValue) && h.tree == old(h.tree)
      ensures WalkRoot(old(h.tree), path).Some? ==>
        var run := ChmodAll(old(h.tree), h.foreign, w);
        if run.done < |w| then
          h.tree == run.tree && r == Err(Runtime("Failed to change permissions.", Render(w[run.done])))
        else
          var last := FS.Chmod(run.tree, h.foreign, path, FS.AllAccess);
          h.tree == FS.After(run.tree, last) &&
          r == if last.Some? then Ok(()) else Err(Runtime("Failed to change permissions.", Render(path)))
      ensures r.Ok? ==>
        FS.FileExists(h.tree, path) && FS.Stat(h.tree, path).value.mode == FS.AllAccess &&
        forall i :: 0 <= i < |w| ==> FS.FileExists(h.tree, w[i]) && FS.Stat(h.tree, w[i]).value.mode == FS.AllAccess
    {
      var root := WalkRoot(h.tree, path);
      if root.None? {
        return Err(UnexpectedValue);
      }
      ghost var t0 := h.tree;
      var done := ChmodEach(h, w);
      if done < |w| {
        return Err(Runtime("Failed to change permissions.", Render(w[done])));
      }
      var ok := h.Chmod(path, FS.AllAccess);
      if !ok {
        return Err(Runtime("Failed to change permissions.", Render(path)));
      }
      AllWritable(t0, h.foreign, w, path);
      r := Ok(());
    }

    /**
     * copyTo(): merges what is below the directory into the existing directory `dest`,
     * making missing directories with `dirmode` (0755 by default) and copying only files
     * that are not there yet, which get `filemode` (0644 by default).
     */
    method CopyTo(h: Host, dest: Path, w: seq<Path>, dirmode: nat, filemode: nat) returns (r: Result<()>)
      requires h.Valid() && Yields(h.tree, path, w, false)
      modifies h
      ensures h.Valid()
      ensures !FS.IsDir(old(h.tree), dest) ==>
        r == Err(Runtime("Directory destination is not exist.", Render(dest))) && h.tree == old(h.tree)
      ensures FS.IsDir(old(h.tree), dest) && WalkRoot(old(h.tree), path).None? ==>
        r == Err(UnexpectedValue) && h.tree == old(h.tree)
      ensures FS.IsDir(old(h.tree), dest) && WalkRoot(old(h.tree), path).Some? ==>
        var root, base := WalkRoot(old(h.tree), path).value, FS.Resolve(old(h.tree), dest);
        var run := CopyAll(old(h.tree), h.foreign, root, base, w, dirmode, filemode);
        h.tree == run.tree && r == CopyError(root, base, w, run)
      ensures FS.Keeps(old(h.tree), h.tree)
      ensures r.Ok? ==>
        var root, base := WalkRoot(old(h.tree), path).value, FS.Resolve(old(h.tree), dest);
        Apart(root, base) && NoLinksAt(old(h.tree), base) ==>
          (forall i :: 0 <= i < |w| ==> Mirrored(old(h.tree), h.tree, w[i], Rebase(w[i], root, base), dirmode, filemode)) &&
          h.tree.Keys <= old(h.tree).Keys + set i | 0 <= i < |w| :: Rebase(w[i], root, base)
    {
      if !FS.IsDir(h.tree, dest) {
        return Err(Runtime("Directory destination is not exist.", Render(dest)));
      }
      var root := WalkRoot(h.tree, path);
      if root.None? {
        return Err(UnexpectedValue);
      }
      var base := FS.Resolve(h.tree, dest);
      ghost var t0 := h.tree;
      var done, failed := CopyEach(h, root.value, base, w, dirmode, filemode);
      r := CopyError(root.value, base, w, Copying(h.tree, done, failed));
      if r.Ok? && Apart(root.value, base) && NoLinksAt(t0, base) {
        CopyAllMirrors(t0, h.foreign, root.value, base, w, dirmode, filemode);
      }
    }
  }

  /**
   * A writable directory takes a new entry: mkdir() of any name not yet in it succeeds,
   * and so does creating a file there.
   */
  lemma WritableTakesEntry(d: Directory, h: Host, name: string, mode: nat)
    requires d.IsWritable(h) && FS.Resolve(h.tree, d.path) + [name] !in h.tree
    ensures FS.Mkdir(h.tree, FS.Resolve(h.tree, d.path) + [name], mode).Some?
    ensures FS.OpenForWrite(h.tree, FS.Resolve(h.tree, d.path) + [name]).Some?
  {
    var q := FS.Resolve(h.tree, d.path) + [name];
    assert Parent(q) == FS.Resolve(h.tree, d.path);
    assert FS.Resolve(h.tree, q) == q;
  }
}
