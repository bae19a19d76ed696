/**
 * The host the library runs on: the filesystem, changed in place by every native
 * call the library makes.  `foreign` holds the pathnames another user owns, on which
 * chmod() is refused; `vfs` says whether the vfs:// stream wrapper is registered,
 * in which case the library's getRealPath() answers the pathname unresolved.
 */
module Hosts {
  import opened Paths
  import opened Wrappers
  import FS = FileSystems

  class Host {
    var tree: FS.Tree
    const foreign: set<Path>
    const vfs: bool

    ghost predicate Valid()
      reads this
    {
      FS.WellFormed(tree)
    }

    constructor (t: FS.Tree, foreign: set<Path>, vfs: bool)
      requires FS.WellFormed(t)
      ensures Valid() && tree == t && this.foreign == foreign && this.vfs == vfs
    {
      tree := t;
      this.foreign := foreign;
      this.vfs := vfs;
    }

    /** The library's getRealPath(): the pathname itself under vfs, realpath() otherwise. */
    function RealPath(p: Path): (r: Option<Path>)
      reads this
      ensures vfs ==> r == Some(p)
      ensures !vfs ==> (r.Some? <==> FS.FileExists(tree, p))
    {
      if vfs then Some(p) else FS.RealPath(tree, p)
    }

    method Mkdir(p: Path, mode: nat) returns (ok: bool)
      requires Valid()
      modifies this
      ensures Valid()
      ensures ok == FS.Mkdir(old(tree), p, mode).Some? && tree == FS.After(old(tree), FS.Mkdir(old(tree), p, mode))
    {
      var r := FS.Mkdir(tree, p, mode);
      ok := r.Some?;
      if ok { tree := r.value; }
    }

    /** mkdir($p, $mode, true), level by level below the deepest existing ancestor. */
    method MkdirRecursive(p: Path, mode: nat) returns (ok: bool)
      requires Valid()
      modifies this
      ensures Valid()
      ensures (tree, ok) == FS.MkdirRecursive(old(tree), p, mode)
    {
      if p == [] { return false; }
      ghost var t0 := tree;
      var j := |p| - 1;
      while j > 0 && !FS.FileExists(tree, p[..j])
        invariant 0 <= j <= |p| - 1 && tree == t0
        invariant FS.ExistingPrefix(t0, p, |p| - 1) == FS.ExistingPrefix(t0, p, j)
      {
        j := j - 1;
      }
      assert FS.ExistingPrefix(t0, p, j) == j;
      var k := j + 1;
      ok := true;
      while k <= |p|
        invariant j + 1 <= k <= |p| + 1 && Valid()
        invariant FS.MkdirRecursive(t0, p, mode) == FS.MakeChain(tree, p, k, mode)
      {
        ghost var before := tree;
        ok := Mkdir(p[..k], mode);
        if !ok {
          assert FS.MakeChain(before, p, k, mode) == (before, false);
          return;
        }
        assert FS.MakeChain(before, p, k, mode) == FS.MakeChain(tree, p, k + 1, mode);
        k := k + 1;
      }
      ok := true;
    }

    method Rmdir(p: Path) returns (ok: bool)
      requires Valid()
      modifies this
      ensures Valid()
      ensures ok == FS.Rmdir(old(tree), p).Some? && tree == FS.After(old(tree), FS.Rmdir(old(tree), p))
    {
      var r := FS.Rmdir(tree, p);
      ok := r.Some?;
      if ok { tree := r.value; }
    }

    method Unlink(p: Path) returns (ok: bool)
      requires Valid()
      modifies this
      ensures Valid()
      ensures ok == FS.Unlink(old(tree), p).Some? && tree == FS.After(old(tree), FS.Unlink(old(tree), p))
    {
      var r := FS.Unlink(tree, p);
      ok := r.Some?;
      if ok { tree := r.value; }
    }

    method Touch(p: Path) returns (ok: bool)
      requires Valid()
      modifies this
      ensures Valid()
      ensures ok == FS.Touch(old(tree), p).Some? && tree == FS.After(old(tree), FS.Touch(old(tree), p))
    {
      var r := FS.Touch(tree, p);
      ok := r.Some?;
      if ok { tree := r.value; }
    }

    method Chmod(p: Path, mode: nat) returns (ok: bool)
      requires Valid()
      modifies this
      ensures Valid()
      ensures ok == FS.Chmod(old(tree), foreign, p, mode).Some?
      ensures tree == FS.After(old(tree), FS.Chmod(old(tree), foreign, p, mode))
    {
      var r := FS.Chmod(tree, foreign, p, mode);
      ok := r.Some?;
      if ok { tree := r.value; }
    }

    method Copy(from: Path, to: Path) returns (ok: bool)
      requires Valid()
      modifies this
      ensures Valid()
      ensures ok == FS.Copy(old(tree), from, to).Some? && tree == FS.After(old(tree), FS.Copy(old(tree), from, to))
    {
      var r := FS.Copy(tree, from, to);
      ok := r.Some?;
      if ok { tree := r.value; }
    }

    /** fopen($p, 'w') when `truncate`, fopen($p, 'a') otherwise. */
    method Open(p: Path, truncate: bool) returns (ok: bool)
      requires Valid()
      modifies this
      ensures Valid()
      ensures var r := if truncate then FS.OpenTruncate(old(tree), p) else FS.OpenForWrite(old(tree), p);
        ok == r.Some? && tree == FS.After(old(tree), r)
    {
      var r := if truncate then FS.OpenTruncate(tree, p) else FS.OpenForWrite(tree, p);
      ok := r.Some?;
      if ok { tree := r.value; }
    }

    method Write(p: Path, data: string)
      requires Valid()
      modifies this
      ensures Valid() && tree == FS.Write(old(tree), p, data)
    {
      tree := FS.Write(tree, p, data);
    }
  }
}
