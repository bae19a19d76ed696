/**
 * Stalxed\FileSystem\Symlink: an SplFileInfo on a pathname that must lead to a
 * directory when it is made.  It reports size 0, is empty once nothing is there any
 * more, and its copyTo() does nothing.
 */
module Symlinks {
  import opened Paths
  import opened Errors
  import FS = FileSystems

  datatype Symlink = Symlink(path: Path)
  {
    /** getSize(): always 0, whatever the directory holds. */
    function GetSize(t: FS.Tree): (r: nat)
      ensures r == 0
    {
      0
    }

    /** isEmpty(): neither a directory nor a file is there, that is, nothing is. */
    function IsEmpty(t: FS.Tree): (r: bool)
      ensures r <==> !FS.FileExists(t, path)
    {
      !FS.IsDir(t, path) && !FS.IsFile(t, path)
    }

    /** copyTo(): the filesystem stays as it is, whatever the destination and modes. */
    function CopyTo(t: FS.Tree, dest: Path, mode: nat): (u: FS.Tree)
      ensures u == t
    {
      t
    }
  }

  /** The constructor: DirectoryNotFound unless the pathname leads to a directory. */
  function Open(t: FS.Tree, p: Path): (r: Result<Symlink>)
    ensures r.Ok? <==> FS.IsDir(t, p)
    ensures r.Ok? ==> r.value.path == p
    ensures r.Err? ==> r.error == DirectoryNotFound
  {
    if FS.IsDir(t, p) then Ok(Symlink(p)) else Err(DirectoryNotFound)
  }

  /**
   * A Symlink made on a tree is not empty on that tree, and becomes empty exactly when
   * what its pathname leads to is gone.
   */
  lemma OpenedNotEmpty(t: FS.Tree, u: FS.Tree, p: Path)
    requires Open(t, p).Ok?
    ensures !Open(t, p).value.IsEmpty(t)
    ensures Open(t, p).value.IsEmpty(u) <==> !FS.FileExists(u, p)
  {
  }
}
