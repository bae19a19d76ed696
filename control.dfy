/**
 * Stalxed\FileSystem\Control: create() and delete() for the file, directory or link at a
 * pathname, as FileInfo::control() hands them out.  Control\File and Control\Directory
 * find their target through getRealPath(), which answers the pathname itself when the vfs
 * stream wrapper is registered and realpath() otherwise; realpath() of a missing path is
 * false, which PHP passes on as the empty pathname, on which every call fails.
 * Control\Link goes through FileInfo::getRealPath() the same way; Control\Symlink
 * through the pathname.
 */
module Controls {
  import opened Paths
  import opened Wrappers
  import opened Errors
  import opened Hosts
  import FS = FileSystems

  /** touch() on what an existing pathname leads to changes nothing, so realpath() stays as it was. */
  lemma TouchExisting(h: Host, p: Path)
    requires FS.FileExists(h.tree, p)
    ensures FS.Touch(h.tree, FS.Resolve(h.tree, p)) == Some(h.tree)
  {
    var q := FS.Resolve(h.tree, p);
    assert q in h.tree && !h.tree[q].Link?;
  }

  /** After chmod() on what `p` leads to, `p` leads to the same entry with the new mode. */
  lemma ChmodThrough(t: FS.Tree, foreign: set<Path>, p: Path, mode: nat)
    requires FS.FileExists(t, p) && FS.Resolve(t, p) !in foreign
    ensures var u := FS.Chmod(t, foreign, FS.Resolve(t, p), mode).value;
      FS.FileExists(u, p) && FS.Stat(u, p).value.mode == mode
  {
    var q := FS.Resolve(t, p);
    assert FS.Resolve(t, q) == q;
    var u := FS.Chmod(t, foreign, q, mode).value;
    assert u == t[q := FS.WithMode(t[q], mode)];
    assert FS.Resolve(u, p) == q;
  }

  /** rmdir() or unlink() of what `p` leads to leaves nothing at `p`. */
  lemma RemovedThrough(t: FS.Tree, p: Path, q: Path)
    requires q == p || (p in t && t[p].Link? && t[p].target == q)
    requires q in t
    ensures !FS.FileExists(t - {q}, p)
  {
    var u := t - {q};
    if q != p {
      assert FS.Resolve(u, p) == q;
    }
  }

  class FileControl {
    const path: Path

    constructor (path: Path)
      ensures this.path == path
    {
      this.path := path;
    }

    /**
     * create() as written: the parent must be a directory; then touch() and chmod() on
     * getRealPath().  Without the vfs wrapper, a file that does not exist yet has no real
     * path, so a new file is never made.
     */
    method Create(h: Host, mode: nat) returns (r: Result<()>)
      requires h.Valid()
      modifies h
      ensures h.Valid()
      ensures !FS.IsDir(old(h.tree), Dirname(path)) ==> r == Err(DirectoryNotFound) && h.tree == old(h.tree)
      ensures FS.IsDir(old(h.tree), Dirname(path)) ==>
        var rp := old(h.RealPath(path));
        if rp.None? then r == Err(PermissionDenied) && h.tree == old(h.tree)
        else
          var touched := FS.Touch(old(h.tree), rp.value);
          if touched.None? then r == Err(PermissionDenied) && h.tree == old(h.tree)
          else
            var changed := FS.Chmod(touched.value, h.foreign, rp.value, mode);
            h.tree == FS.After(touched.value, changed) && r == if changed.Some? then Ok(()) else Err(PermissionDenied)
      ensures r.Ok? ==> FS.FileExists(h.tree, path) && FS.Stat(h.tree, path).value.mode == mode
      ensures !h.vfs && !FS.FileExists(old(h.tree), path) ==> r.Err? && h.tree == old(h.tree)
    {
      if !FS.IsDir(h.tree, Dirname(path)) {
        return Err(DirectoryNotFound);
      }
      var rp := h.RealPath(path);
      if rp.None? {
        return Err(PermissionDenied);
      }
      if !h.vfs {
        TouchExisting(h, path);
      }
      ghost var t0 := h.tree;
      var ok := h.Touch(rp.value);
      if !ok {
        return Err(PermissionDenied);
      }
      // getRealPath() is asked again; the touch() left its answer as it was.
      assert h.RealPath(path) == rp;
      if !h.vfs && FS.Resolve(t0, path) !in h.foreign {
        ChmodThrough(t0, h.foreign, path, mode);
      }
      ok := h.Chmod(rp.value, mode);
      if !ok {
        return Err(PermissionDenied);
      }
      r := Ok(());
    }

    /** create() as evidently intended: touch() and chmod() on the pathname itself. */
    method CreateIntended(h: Host, mode: nat) returns (r: Result<()>)
      requires h.Valid()
      modifies h
      ensures h.Valid()
      ensures !FS.IsDir(old(h.tree), Dirname(path)) ==> r == Err(DirectoryNotFound) && h.tree == old(h.tree)
      ensures FS.IsDir(old(h.tree), Dirname(path)) ==>
        var touched := FS.Touch(old(h.tree), path);
        if touched.None? then r == Err(PermissionDenied) && h.tree == old(h.tree)
        else
          var changed := FS.Chmod(touched.value, h.foreign, path, mode);
          h.tree == FS.After(touched.value, changed) && r == if changed.Some? then Ok(()) else Err(PermissionDenied)
      ensures r.Ok? ==> FS.FileExists(h.tree, path) && FS.Stat(h.tree, path).value.mode == mode
      ensures FS.Keeps(old(h.tree), h.tree) || FS.FileExists(old(h.tree), path)
      ensures path != [] && path !in old(h.tree) && FS.CanEdit(old(h.tree), Parent(path)) && path !in h.foreign ==>
        r == Ok(()) && h.tree == old(h.tree)[path := FS.File("", mode)]
    {
      if !FS.IsDir(h.tree, Dirname(path)) {
        return Err(DirectoryNotFound);
      }
      var ok := h.Touch(path);
      if !ok {
        return Err(PermissionDenied);
      }
      ok := h.Chmod(path, mode);
      if !ok {
        return Err(PermissionDenied);
      }
      r := Ok(());
    }

    /** delete(): not a directory, but a file; unlink() of what getRealPath() names. */
    method Delete(h: Host) returns (r: Result<()>)
      requires h.Valid()
      modifies h
      ensures h.Valid()
      ensures FS.IsDir(old(h.tree), path) ==> r == Err(Logic) && h.tree == old(h.tree)
      ensures !FS.IsDir(old(h.tree), path) && !FS.IsFile(old(h.tree), path) ==>
        r == Err(FileNotFound) && h.tree == old(h.tree)
      ensures FS.IsFile(old(h.tree), path) ==>
        var removed := FS.Unlink(old(h.tree), old(h.RealPath(path)).value);
        h.tree == FS.After(old(h.tree), removed) && r == if removed.Some? then Ok(()) else Err(PermissionDenied)
      ensures r.Ok? ==> FS.IsFile(old(h.tree), path) && !FS.FileExists(h.tree, path)
    {
      if FS.IsDir(h.tree, path) {
        return Err(Logic);
      }
      if !FS.IsFile(h.tree, path) {
        return Err(FileNotFound);
      }
      var target := h.RealPath(path).value;
      ghost var t0 := h.tree;
      var ok := h.Unlink(target);
      if !ok {
        return Err(PermissionDenied);
      }
      RemovedThrough(t0, path, target);
      r := Ok(());
    }
  }

  class DirectoryControl {
    const path: Path

    constructor (path: Path)
      ensures this.path == path
    {
      this.path := path;
    }

    /**
     * create() as written: mkdir -p on getRealPath().  Without the vfs wrapper a missing
     * directory has no real path and an existing one cannot be made again, so it always fails.
     */
    method Create(h: Host, mode: nat) returns (r: Result<()>)
      requires h.Valid()
      modifies h
      ensures h.Valid()
      ensures var rp := old(h.RealPath(path));
        if rp.None? then r == Err(PermissionDenied) && h.tree == old(h.tree)
        else
          var (u, ok) := FS.MkdirRecursive(old(h.tree), rp.value, mode);
          h.tree == u && r == if ok then Ok(()) else Err(PermissionDenied)
      ensures FS.Keeps(old(h.tree), h.tree)
      ensures r.Ok? ==> path in h.tree && h.tree[path] == FS.Dir(mode)
      ensures !h.vfs ==> r == Err(PermissionDenied) && h.tree == old(h.tree)
    {
      var rp := h.RealPath(path);
      if rp.None? {
        return Err(PermissionDenied);
      }
      FS.MkdirRecursiveOutcome(h.tree, rp.value, mode);
      if !h.vfs {
        FS.MkdirRecursiveExisting(h.tree, rp.value, mode);
      }
      var ok := h.MkdirRecursive(rp.value, mode);
      if !ok {
        return Err(PermissionDenied);
      }
      r := Ok(());
    }

    /** create() as evidently intended: mkdir -p on the pathname itself. */
    method CreateIntended(h: Host, mode: nat) returns (r: Result<()>)
      requires h.Valid()
      modifies h
      ensures h.Valid()
      ensures var (u, ok) := FS.MkdirRecursive(old(h.tree), path, mode);
        h.tree == u && r == if ok then Ok(()) else Err(PermissionDenied)
      ensures FS.Keeps(old(h.tree), h.tree)
      ensures r.Ok? ==> path in h.tree && h.tree[path] == FS.Dir(mode)
      ensures path in old(h.tree) ==> r == Err(PermissionDenied) && h.tree == old(h.tree)
      ensures path != [] && path !in old(h.tree) && FS.CanEdit(old(h.tree), Parent(path)) ==>
        r == Ok(()) && h.tree == old(h.tree)[path := FS.Dir(mode)]
    {
      FS.MkdirRecursiveOutcome(h.tree, path, mode);
      if path in h.tree {
        FS.MkdirRecursiveExisting(h.tree, path, mode);
      }
      if path != [] && path !in h.tree && FS.CanEdit(h.tree, Parent(path)) {
        FS.MkdirRecursiveOneLevel(h.tree, path, mode);
      }
      var ok := h.MkdirRecursive(path, mode);
      if !ok {
        return Err(PermissionDenied);
      }
      r := Ok(());
    }

    /** delete(): not a file, but a directory; rmdir() of what getRealPath() names. */
    method Delete(h: Host) returns (r: Result<()>)
      requires h.Valid()
      modifies h
      ensures h.Valid()
      ensures FS.IsFile(old(h.tree), path) ==> r == Err(Logic) && h.tree == old(h.tree)
      ensures !FS.IsFile(old(h.tree), path) && !FS.IsDir(old(h.tree), path) ==>
        r == Err(DirectoryNotFound) && h.tree == old(h.tree)
      ensures FS.IsDir(old(h.tree), path) ==>
        var removed := FS.Rmdir(old(h.tree), old(h.RealPath(path)).value);
        h.tree == FS.After(old(h.tree), removed) && r == if removed.Some? then Ok(()) else Err(PermissionDenied)
      ensures FS.IsDir(old(h.tree), path) && !FS.NoChildren(old(h.tree), FS.Resolve(old(h.tree), path)) ==>
        r == Err(PermissionDenied) && h.tree == old(h.tree)
      ensures r.Ok? ==> FS.IsDir(old(h.tree), path) && !FS.FileExists(h.tree, path)
    {
      if FS.IsFile(h.tree, path) {
        return Err(Logic);
      }
      if !FS.IsDir(h.tree, path) {
        return Err(DirectoryNotFound);
      }
      var target := h.RealPath(path).value;
      ghost var t0 := h.tree;
      var ok := h.Rmdir(target);
      if !ok {
        return Err(PermissionDenied);
      }
      RemovedThrough(t0, path, target);
      r := Ok(());
    }
  }

  class LinkControl {
    const path: Path

    constructor (path: Path)
      ensures this.path == path
    {
      this.path := path;
    }

    /**
     * delete() as written: unlink() of FileInfo::getRealPath().  Without the vfs wrapper
     * that is the file the link leads to, so the file goes and the link stays.
     */
    method Delete(h: Host) returns (r: Result<()>)
      requires h.Valid()
      modifies h
      ensures h.Valid()
      ensures !FS.IsLink(old(h.tree), path) ==> r == Err(FileNotFound) && h.tree == old(h.tree)
      ensures FS.IsLink(old(h.tree), path) ==>
        var rp := old(h.RealPath(path));
        if rp.None? then r == Err(PermissionDenied) && h.tree == old(h.tree)
        else
          var removed := FS.Unlink(old(h.tree), rp.value);
          h.tree == FS.After(old(h.tree), removed) && r == if removed.Some? then Ok(()) else Err(PermissionDenied)
      ensures r.Ok? ==> old(h.RealPath(path)).Some? && h.tree == old(h.tree) - {old(h.RealPath(path)).value}
      ensures !h.vfs && r.Ok? ==>
        FS.IsLink(h.tree, path) && h.tree[path] == old(h.tree)[path] &&
        h.tree == old(h.tree) - {old(h.tree)[path].target}
    {
      if !FS.IsLink(h.tree, path) {
        return Err(FileNotFound);
      }
      var rp := h.RealPath(path);
      if rp.None? {
        return Err(PermissionDenied);
      }
      var ok := h.Unlink(rp.value);
      if !ok {
        return Err(PermissionDenied);
      }
      r := Ok(());
    }
  }

  class SymlinkControl {
    const path: Path

    constructor (path: Path)
      ensures this.path == path
    {
      this.path := path;
    }

    /** delete(): unlink() of the link itself; what it leads to stays. */
    method Delete(h: Host) returns (r: Result<()>)
      requires h.Valid()
      modifies h
      ensures h.Valid()
      ensures !FS.IsLink(old(h.tree), path) ==> r == Err(FileNotFound) && h.tree == old(h.tree)
      ensures FS.IsLink(old(h.tree), path) ==>
        var removed := FS.Unlink(old(h.tree), path);
        h.tree == FS.After(old(h.tree), removed) && r == if removed.Some? then Ok(()) else Err(PermissionDenied)
      ensures r.Ok? ==> h.tree == old(h.tree) - {path}
      ensures FS.IsLink(old(h.tree), path) && path != [] && FS.CanEdit(old(h.tree), Parent(path)) ==> r == Ok(())
    {
      if !FS.IsLink(h.tree, path) {
        return Err(FileNotFound);
      }
      var ok := h.Unlink(path);
      if !ok {
        return Err(PermissionDenied);
      }
      r := Ok(());
    }
  }
}
