/**
 * Stalxed\FileSystem\DirectoryObject: the walks of Directory on an SplFileInfo.  Its
 * iterators open getRealPath(), the pathname itself under vfs and the resolved path
 * otherwise.  clear() and makeWritableForAll() read a `directory_path` property the class
 * never defines; PHP gives null for it, so the exceptions of clear() carry no path and
 * the final chmod() of makeWritableForAll(), on the empty pathname, always fails.  Where
 * getRealPath() is false, the iterator is given the empty name and SPL refuses it.
 */
module DirectoryObjects {
  import opened Paths
  import opened Wrappers
  import opened Errors
  import opened Hosts
  import opened Walks
  import FS = FileSystems

  class DirectoryObject {
    const path: Path

    constructor (path: Path)
      ensures this.path == path
    {
      this.path := path;
    }

    /** The directory its RecursiveDirectoryIterator lists; None when the iterator cannot be made. */
    function Listed(h: Host): (r: Option<Path>)
      reads h
      ensures r.Some? ==> h.RealPath(path).Some? && FS.IsDir(h.tree, h.RealPath(path).value)
      ensures h.RealPath(path).Some? ==> r == WalkRoot(h.tree, h.RealPath(path).value)
      ensures h.RealPath(path).None? ==> r.None?
    {
      match h.RealPath(path)
      case None => None
      case Some(p) => WalkRoot(h.tree, p)
    }

    /**
     * What making that iterator throws: given getRealPath()'s false, the empty name, SPL
     * refuses it with a RuntimeException before opening anything; a directory it cannot
     * open gives UnexpectedValueException.
     */
    function ListFailure(h: Host): (e: Failure)
      reads h
      ensures h.RealPath(path).None? ==> e == SplRuntime
      ensures h.RealPath(path).Some? ==> e == UnexpectedValue
    {
      if h.RealPath(path).None? then SplRuntime else UnexpectedValue
    }

    /** `w` is an order in which that iterator may visit the entries below the directory. */
    predicate Lists(h: Host, w: seq<Path>, childFirst: bool)
      reads h
    {
      match h.RealPath(path)
      case None => true
      case Some(p) => Yields(h.tree, p, w, childFirst)
    }

    /** getSize(): the sizes of the files below the directory, at any depth, added up. */
    method GetSize(h: Host, w: seq<Path>) returns (r: Result<nat>)
      requires Lists(h, w, false)
      ensures r.Ok? <==> Listed(h).Some?
      ensures r.Err? ==> r.error == ListFailure(h)
      ensures r.Ok? ==> r.value == SetSize(h.tree, Below(h.tree, Listed(h).value))
    {
      var root := Listed(h);
      if root.None? {
        return Err(ListFailure(h));
      }
      var size := SumFileSizes(h, w);
      WalkSize(h.tree, root.value, w);
      r := Ok(size);
    }

    /** isEmpty(): the directory has nothing in it. */
    method IsEmpty(h: Host, w: seq<Path>) returns (r: Result<bool>)
      requires h.Valid() && Lists(h, w, false)
      ensures r.Ok? <==> Listed(h).Some?
      ensures r.Err? ==> r.error == ListFailure(h)
      ensures r.Ok? ==> (r.value <==> FS.NoChildren(h.tree, Listed(h).value))
    {
      var root := Listed(h);
      if root.None? {
        return Err(ListFailure(h));
      }
      var found := HasEntry(w);
      EmptyWalk(h.tree, root.value, w);
      r := Ok(!found);
    }

    /** clear(): as Directory's, but the exception names no path. */
    method Clear(h: Host, w: seq<Path>) returns (r: Result<()>)
      requires h.Valid() && Lists(h, w, true)
      modifies h
      ensures h.Valid()
      ensures old(Listed(h)).None? ==> r == Err(old(ListFailure(h))) && h.tree == old(h.tree)
      ensures old(Listed(h)).Some? ==>
        var run := Walks.Clear(old(h.tree), w);
        h.tree == run.tree &&
        (run.done == |w| ==> r == Ok(())) &&
        (run.done < |w| ==> r == Err(Runtime(
          if FS.IsDir(h.tree, w[run.done]) then "Failed to delete directory." else "Failed to delete file.", "")))
      ensures r.Ok? ==> (
        var root := old(Listed(h)).value;
        root in h.tree && FS.NoChildren(h.tree, root) && h.tree == old(h.tree) - Below(old(h.tree), root))
      ensures old(Listed(h)).Some? && NoLinkedDirs(old(h.tree), w) ==>
        h.tree == old(h.tree) - Items(w[..FirstLocked(old(h.tree), w)])
    {
      var root := Listed(h);
      if root.None? {
        return Err(ListFailure(h));
      }
      if NoLinkedDirs(h.tree, w) {
        ClearStopsAtFirstLocked(h.tree, root.value, w);
      }
      ghost var t0 := h.tree;
      var done, dir := RemoveEach(h, w);
      if done < |w| {
        return Err(Runtime(if dir then "Failed to delete directory." else "Failed to delete file.", ""));
      }
      ClearEmpties(t0, root.value, w);
      r := Ok(());
    }

    /**
     * makeWritableForAll() as written: chmod 0777 on everything below the directory,
     * children first, and then chmod() on the undefined property, which names no file, so
     * the call always ends in an exception.
     */
    method MakeWritableForAll(h: Host, w: seq<Path>) returns (r: Result<()>)
      requires h.Valid() && Lists(h, w, true)
      modifies h
      ensures h.Valid()
      ensures old(Listed(h)).None? ==> r == Err(old(ListFailure(h))) && h.tree == old(h.tree)
      ensures old(Listed(h)).Some? ==>
        var run := ChmodAll(old(h.tree), h.foreign, w);
        h.tree == run.tree &&
        r == Err(Runtime("Failed to change permissions.", if run.done < |w| then Render(w[run.done]) else ""))
      ensures r.Err?
    {
      var root := Listed(h);
      if root.None? {
        return Err(ListFailure(h));
      }
      var done := ChmodEach(h, w);
      if done < |w| {
        return Err(Runtime("Failed to change permissions.", Render(w[done])));
      }
      r := Err(Runtime("Failed to change permissions.", ""));
    }

    /** makeWritableForAll() as evidently intended: the last chmod() is on the directory itself. */
    method MakeWritableForAllIntended(h: Host, w: seq<Path>) returns (r: Result<()>)
      requires h.Valid() && Lists(h, w, true)
      modifies h
      ensures h.Valid()
      ensures old(Listed(h)).None? ==> r == Err(old(ListFailure(h))) && h.tree == old(h.tree)
      ensures old(Listed(h)).Some? ==>
        var run := ChmodAll(old(h.tree), h.foreign, w);
        if run.done < |w| then
          h.tree == run.tree && r == Err(Runtime("Failed to change permissions.", Render(w[run.done])))
        else
          var last := FS.Chmod(run.tree, h.foreign, path, FS.AllAccess);
          h.tree == FS.After(run.tree, last) &&
          r == if last.Some? then Ok(()) else Err(Runtime("Failed to change permissions.", Render(path)))
      ensures r.Ok? ==>
        FS.FileExists(h.tree, path) && FS.Stat(h.tree, path).value.mode == FS.AllAccess &&
        forall i :: 0 <= i < |w| ==> FS.FileExists(h.tree, w[i]) && FS.Stat(h.tree, w[i]).value.mode == FS.AllAccess
    {
      var root := Listed(h);
      if root.None? {
        return Err(ListFailure(h));
      }
      ghost var t0 := h.tree;
      var done := ChmodEach(h, w);
      if done < |w| {
        return Err(Runtime("Failed to change permissions.", Render(w[done])));
      }
      var ok := h.Chmod(path, FS.AllAccess);
      if !ok {
        return Err(Runtime("Failed to change permissions.", Render(path)));
      }
      AllWritable(t0, h.foreign, w, path);
      r := Ok(());
    }

    /** copyTo(): as Directory's, from the directory the iterator lists. */
    method CopyTo(h: Host, dest: Path, w: seq<Path>, dirmode: nat, filemode: nat) returns (r: Result<()>)
      requires h.Valid() && Lists(h, w, false)
      modifies h
      ensures h.Valid()
      ensures !FS.IsDir(old(h.tree), dest) ==>
        r == Err(Runtime("Directory destination is not exist.", Render(dest))) && h.tree == old(h.tree)
      ensures FS.IsDir(old(h.tree), dest) && old(Listed(h)).None? ==>
        r == Err(old(ListFailure(h))) && h.tree == old(h.tree)
      ensures FS.IsDir(old(h.tree), dest) && old(Listed(h)).Some? ==>
        var root, base := old(Listed(h)).value, FS.Resolve(old(h.tree), dest);
        var run := CopyAll(old(h.tree), h.foreign, root, base, w, dirmode, filemode);
        h.tree == run.tree && r == CopyError(root, base, w, run)
      ensures FS.Keeps(old(h.tree), h.tree)
      ensures r.Ok? ==>
        var root, base := old(Listed(h)).value, FS.Resolve(old(h.tree), dest);
        Apart(root, base) && NoLinksAt(old(h.tree), base) ==>
          (forall i :: 0 <= i < |w| ==> Mirrored(old(h.tree), h.tree, w[i], Rebase(w[i], root, base), dirmode, filemode)) &&
          h.tree.Keys <= old(h.tree).Keys + set i | 0 <= i < |w| :: Rebase(w[i], root, base)
    {
      if !FS.IsDir(h.tree, dest) {
        return Err(Runtime("Directory destination is not exist.", Render(dest)));
      }
      var root := Listed(h);
      if root.None? {
        return Err(ListFailure(h));
      }
      var base := FS.Resolve(h.tree, dest);
      ghost var t0 := h.tree;
      var done, failed := CopyEach(h, root.value, base, w, dirmode, filemode);
      r := CopyError(root.value, base, w, Copying(h.tree, done, failed));
      if r.Ok? && Apart(root.value, base) && NoLinksAt(t0, base) {
        CopyAllMirrors(t0, h.foreign, root.value, base, w, dirmode, filemode);
      }
    }
  }
}
