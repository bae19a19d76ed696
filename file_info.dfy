/**
 * Stalxed\FileSystem\FileInfo: what is at a pathname, and the object that handles it.
 * A directory is measured through a DirectoryObject on its real path, a file through a
 * FileObject opened on it; anything else is PathNotFound.
 */
module FileInfos {
  import opened Paths
  import opened Wrappers
  import opened Errors
  import opened Hosts
  import opened Walks
  import FS = FileSystems

  const TypeDirectory: int := 1
  const TypeFile: int := 2

  /** The control object control() makes: Control\Link, Control\Directory or Control\File. */
  datatype Control = LinkControl | DirectoryControl | FileControl

  /** isExists(): a file, a directory or a link, dangling or not. */
  function IsExists(h: Host, p: Path): (r: bool)
    reads h
    ensures r <==> p in h.tree
  {
    FS.IsFile(h.tree, p) || FS.IsDir(h.tree, p) || FS.IsLink(h.tree, p)
  }

  /** The directory that the iterator of openDirectory(), a DirectoryObject on getRealPath(), lists. */
  function OpenedRoot(h: Host, p: Path): (r: Option<Path>)
    reads h
    requires FS.IsDir(h.tree, p)
    ensures r.Some? ==> r.value in h.tree && h.tree[r.value].Dir?
  {
    match h.RealPath(h.RealPath(p).value)
    case None => None
    case Some(q) => WalkRoot(h.tree, q)
  }

  /** `w` is the order in which that iterator visits what is below the directory at `p`. */
  predicate Walked(h: Host, p: Path, w: seq<Path>)
    reads h
  {
    FS.IsDir(h.tree, p) ==>
      match OpenedRoot(h, p)
      case None => true
      case Some(d) => Enumerates(h.tree, d, w) && ParentFirst(w)
  }

  /** getSize(): the total size of a directory's files, or a file's size. */
  function GetSize(h: Host, p: Path, w: seq<Path>): (r: Result<nat>)
    reads h
    requires Walked(h, p, w)
    ensures FS.IsDir(h.tree, p) ==>
      (r.Ok? <==> OpenedRoot(h, p).Some?) && (r.Err? ==> r.error == UnexpectedValue) &&
      (r.Ok? ==> r.value == SetSize(h.tree, Below(h.tree, OpenedRoot(h, p).value)))
    ensures FS.IsFile(h.tree, p) ==>
      (r.Ok? <==> FS.IsReadable(h.tree, p)) && (r.Err? ==> r.error == SplRuntime) &&
      (r.Ok? ==> r.value == FS.SizeOf(h.tree, p))
    ensures !FS.IsDir(h.tree, p) && !FS.IsFile(h.tree, p) ==> r == Err(PathNotFound)
  {
    if FS.IsDir(h.tree, p) then
      match OpenedRoot(h, p)
      case None => Err(UnexpectedValue)
      case Some(d) => WalkSize(h.tree, d, w); Ok(SumSizes(h.tree, w))
    else if FS.IsFile(h.tree, p) then
      match FS.Read(h.tree, p)
      case None => Err(SplRuntime)
      case Some(c) => Ok(|c|)
    else Err(PathNotFound)
  }

  /** isEmpty(): a directory with nothing in it, or a file of size 0. */
  function IsEmpty(h: Host, p: Path, w: seq<Path>): (r: Result<bool>)
    reads h
    requires h.Valid() && Walked(h, p, w)
    ensures FS.IsDir(h.tree, p) ==>
      (r.Ok? <==> OpenedRoot(h, p).Some?) && (r.Err? ==> r.error == UnexpectedValue) &&
      (r.Ok? ==> (r.value <==> FS.NoChildren(h.tree, OpenedRoot(h, p).value)))
    ensures FS.IsFile(h.tree, p) ==>
      (r.Ok? <==> FS.IsReadable(h.tree, p)) && (r.Err? ==> r.error == SplRuntime) &&
      (r.Ok? ==> (r.value <==> FS.Stat(h.tree, p).value.content == ""))
    ensures !FS.IsDir(h.tree, p) && !FS.IsFile(h.tree, p) ==> r == Err(PathNotFound)
  {
    if FS.IsDir(h.tree, p) then
      match OpenedRoot(h, p)
      case None => Err(UnexpectedValue)
      case Some(d) => EmptyWalk(h.tree, d, w); Ok(|w| == 0)
    else if FS.IsFile(h.tree, p) then
      match FS.Read(h.tree, p)
      case None => Err(SplRuntime)
      case Some(c) => Ok(|c| == 0)
    else Err(PathNotFound)
  }

  /**
   * control(): a link gets a link control, whatever it leads to; then a directory, then a
   * file; only where nothing exists does the requested type decide.
   */
  function ControlOf(h: Host, p: Path, requested: Option<int>): (r: Result<Control>)
    reads h
    ensures FS.IsLink(h.tree, p) ==> r == Ok(LinkControl)
    ensures p in h.tree && !h.tree[p].Link? ==> r == Ok(if h.tree[p].Dir? then DirectoryControl else FileControl)
    ensures p !in h.tree ==>
      r == if requested == Some(TypeDirectory) then Ok(DirectoryControl)
           else if requested == Some(TypeFile) then Ok(FileControl)
           else Err(PathNotFound)
  {
    if FS.IsLink(h.tree, p) then Ok(LinkControl)
    else if FS.IsDir(h.tree, p) then Ok(DirectoryControl)
    else if FS.IsFile(h.tree, p) then Ok(FileControl)
    else if requested == Some(TypeDirectory) then Ok(DirectoryControl)
    else if requested == Some(TypeFile) then Ok(FileControl)
    else Err(PathNotFound)
  }

  /** The requested type matters only where nothing exists. */
  lemma ControlIgnoresType(h: Host, p: Path, a: Option<int>, b: Option<int>)
    requires IsExists(h, p)
    ensures ControlOf(h, p, a) == ControlOf(h, p, b) && ControlOf(h, p, a).Ok?
  {
  }

  /** PathNotFound comes exactly from a missing path with no usable type. */
  lemma ControlFails(h: Host, p: Path, requested: Option<int>)
    ensures ControlOf(h, p, requested).Err? <==>
      !IsExists(h, p) && requested != Some(TypeDirectory) && requested != Some(TypeFile)
  {
  }
}
