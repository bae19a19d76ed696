/**
 * Stalxed\FileSystem\File: operations on the file at a pathname.  Each read goes through
 * a fresh SplFileObject with DROP_NEW_LINE, whose loops are those of FileObject; each
 * failure of the runtime becomes a RuntimeException naming the file.
 */
module Files {
  import opened Paths
  import opened Wrappers
  import opened Errors
  import opened Lines
  import opened Hosts
  import opened FileCopies
  import opened FileObjects
  import FS = FileSystems

  class File {
    var path: Path

    constructor (path: Path)
      ensures this.path == path
    {
      this.path := path;
    }

    method SetPath(path: Path)
      modifies this
      ensures this.path == path
    {
      this.path := path;
    }

    /** isExists(): a regular file is there (a link to one counts). */
    function IsExists(h: Host): (r: bool)
      reads this, h
      ensures r <==> FS.FileExists(h.tree, path) && !FS.IsDir(h.tree, path)
      ensures FS.IsDir(h.tree, path) || !FS.FileExists(h.tree, path) ==> !r
    {
      FS.IsFile(h.tree, path)
    }

    function IsReadable(h: Host): (r: bool)
      reads this, h
      ensures r ==> IsExists(h)
      ensures r <==> FS.Read(h.tree, path).Some?
      ensures FS.IsDir(h.tree, path) || !FS.FileExists(h.tree, path) ==> !r
    {
      FS.IsFile(h.tree, path) && FS.IsReadable(h.tree, path)
    }

    function IsWritable(h: Host): (r: bool)
      reads this, h
      ensures r ==> IsExists(h)
      ensures r ==> FS.OpenForWrite(h.tree, path).Some?
      ensures FS.IsDir(h.tree, path) || !FS.FileExists(h.tree, path) ==> !r
    {
      FS.IsFile(h.tree, path) && FS.IsWritable(h.tree, path)
    }

    /** getSize(): opening the file for reading must succeed first. */
    function GetSize(h: Host): (r: Result<nat>)
      reads this, h
      ensures r.Ok? <==> IsReadable(h)
      ensures r.Ok? ==> r.value == FS.SizeOf(h.tree, path)
      ensures r.Err? ==> r.error == if FS.IsDir(h.tree, path) then Logic else SplRuntime
    {
      match OpenedContent(h.tree, path)
      case Err(e) => Err(e)
      case Ok(c) => Ok(|c|)
    }

    function IsEmpty(h: Host): (r: Result<bool>)
      reads this, h
      ensures r.Ok? <==> IsReadable(h)
      ensures r.Ok? ==> (r.value <==> FS.Read(h.tree, path).value == "")
      ensures r.Err? ==> r.error == if FS.IsDir(h.tree, path) then Logic else SplRuntime
    {
      match GetSize(h)
      case Err(e) => Err(e)
      case Ok(n) => Ok(n == 0)
    }

    /** create(): touch, then chmod to `mode`; an existing entry is kept and only gets the mode. */
    method Create(h: Host, mode: nat) returns (r: Result<()>)
      requires h.Valid()
      modifies h
      ensures h.Valid()
      ensures var touched := FS.Touch(old(h.tree), path);
        if touched.None? then r == Err(Runtime("Failed to create file.", Render(path))) && h.tree == old(h.tree)
        else var changed := FS.Chmod(touched.value, h.foreign, path, mode);
          h.tree == FS.After(touched.value, changed) &&
          r == if changed.Some? then Ok(()) else Err(Runtime("Failed to change permissions.", Render(path)))
      ensures r.Ok? ==> FS.FileExists(h.tree, path) && FS.Stat(h.tree, path).value.mode == mode
      ensures FS.Keeps(old(h.tree), h.tree) || FS.FileExists(old(h.tree), path)
    {
      var ok := h.Touch(path);
      if !ok {
        return Err(Runtime("Failed to create file.", Render(path)));
      }
      ok := h.Chmod(path, mode);
      if !ok {
        return Err(Runtime("Failed to change permissions.", Render(path)));
      }
      r := Ok(());
    }

    /** delete(): unlink. */
    method Delete(h: Host) returns (r: Result<()>)
      requires h.Valid()
      modifies h
      ensures h.Valid()
      ensures var removed := FS.Unlink(old(h.tree), path);
        h.tree == FS.After(old(h.tree), removed) &&
        r == if removed.Some? then Ok(()) else Err(Runtime("Failed to delete file.", Render(path)))
      ensures r.Ok? ==> path !in h.tree
    {
      var ok := h.Unlink(path);
      if !ok {
        return Err(Runtime("Failed to delete file.", Render(path)));
      }
      r := Ok(());
    }

    /** getLineCount(): the lines a foreach over the file visits. */
    method GetLineCount(h: Host) returns (r: Result<nat>)
      ensures r == match OpenedContent(h.tree, path)
        case Err(e) => Err(e)
        case Ok(c) => Ok(|DroppedLines(c)|)
    {
      var reader := Open(h, path);
      if reader.Err? {
        return Err(reader.error);
      }
      var dropped := new FileObject(path, DroppedLines(FS.Read(h.tree, path).value));
      var count := dropped.GetLineCount();
      r := Ok(count);
    }

    /** getContents(): file_get_contents(). */
    function GetContents(h: Host): (r: Result<string>)
      reads this, h
      ensures r.Ok? <==> IsReadable(h) || (!h.vfs && FS.IsDir(h.tree, path) && FS.IsReadable(h.tree, path))
      ensures r.Err? ==> r.error == Runtime("Failed to read file.", Render(path))
      ensures IsReadable(h) ==> r == Ok(FS.Read(h.tree, path).value)
      ensures FS.IsDir(h.tree, path) && r.Ok? ==> r.value == ""
    {
      match NativeRead(h, path)
      case None => Err(Runtime("Failed to read file.", Render(path)))
      case Some(c) => Ok(c)
    }

    /** getLines(): file(), each element then trimmed in place. */
    method GetLines(h: Host) returns (r: Result<seq<string>>)
      ensures r == match NativeRead(h, path)
        case None => Err(Runtime("Failed to read file.", Render(path)))
        case Some(c) => Ok(TrimAll(FileLines(c)))
      ensures FS.IsDir(h.tree, path) && r.Ok? ==> r.value == []
    {
      var content := NativeRead(h, path);
      if content.None? {
        return Err(Runtime("Failed to read file.", Render(path)));
      }
      var lines := FileLines(content.value);
      ghost var read := lines;
      var k := 0;
      while k < |lines|
        invariant k <= |lines| == |read|
        invariant forall j :: 0 <= j < k ==> lines[j] == Trim(read[j])
        invariant forall j :: k <= j < |lines| ==> lines[j] == read[j]
      {
        lines := lines[k := Trim(lines[k])];
        k := k + 1;
      }
      assert lines == TrimAll(read);
      r := Ok(lines);
    }

    /**
     * putContents(): opening with 'w' truncates; when the lock is refused (`locked` false)
     * the file stays truncated and the call throws.
     */
    method PutContents(h: Host, data: string, locked: bool) returns (r: Result<()>)
      requires h.Valid()
      modifies h
      ensures h.Valid()
      ensures var handle := FS.OpenTruncate(old(h.tree), path);
        if handle.None? then r == Err(if FS.IsDir(old(h.tree), path) then Logic else SplRuntime) && h.tree == old(h.tree)
        else if !locked then r == Err(Runtime("Failed to lock file.", Render(path))) && h.tree == handle.value
        else r == Ok(()) && h.tree == FS.Write(handle.value, path, data)
      ensures r.Ok? ==> FS.IsFile(h.tree, path) && FS.Stat(h.tree, path).value.content == data
    {
      if FS.IsDir(h.tree, path) {
        // SplFileObject refuses a directory before opening anything
        return Err(Logic);
      }
      var ok := h.Open(path, true);
      if !ok {
        return Err(SplRuntime);
      }
      if !locked {
        return Err(Runtime("Failed to lock file.", Render(path)));
      }
      h.Write(path, data);
      r := Ok(());
    }

    /** appendContents(): as putContents(), opening with 'a', so the data goes after what is there. */
    method AppendContents(h: Host, data: string, locked: bool) returns (r: Result<()>)
      requires h.Valid()
      modifies h
      ensures h.Valid()
      ensures var handle := FS.OpenForWrite(old(h.tree), path);
        if handle.None? then r == Err(if FS.IsDir(old(h.tree), path) then Logic else SplRuntime) && h.tree == old(h.tree)
        else if !locked then r == Err(Runtime("Failed to lock file.", Render(path))) && h.tree == handle.value
        else r == Ok(()) && h.tree == FS.Write(handle.value, path, data)
      ensures r.Ok? && FS.IsFile(old(h.tree), path) ==>
        FS.IsFile(h.tree, path) && FS.Stat(h.tree, path).value.content == FS.Stat(old(h.tree), path).value.content + data
    {
      if FS.IsDir(h.tree, path) {
        // SplFileObject refuses a directory before opening anything
        return Err(Logic);
      }
      var ok := h.Open(path, false);
      if !ok {
        return Err(SplRuntime);
      }
      if !locked {
        return Err(Runtime("Failed to lock file.", Render(path)));
      }
      h.Write(path, data);
      r := Ok(());
    }

    /** findLineByNumber(): the `n`-th line without its line ending, null past the end. */
    method FindLineByNumber(h: Host, n: int) returns (r: Result<Option<string>>)
      ensures r == match OpenedContent(h.tree, path)
        case Err(e) => Err(e)
        case Ok(c) =>
          var ls := DroppedLines(c);
          Ok(if n < |ls| then Some(ls[if n < 0 then 0 else n]) else None)
    {
      var reader := Open(h, path);
      if reader.Err? {
        return Err(reader.error);
      }
      var dropped := new FileObject(path, DroppedLines(FS.Read(h.tree, path).value));
      var line := dropped.FindLineByNumber(n);
      r := Ok(line);
    }

    method FindLineByPart(h: Host, delimiter: string, k: int, value: string) returns (r: Result<Option<string>>)
      ensures r == match OpenedContent(h.tree, path)
        case Err(e) => Err(e)
        case Ok(c) => Ok(Find(DroppedLines(c), ByPart(delimiter, k, value)))
    {
      var reader := Open(h, path);
      if reader.Err? {
        return Err(reader.error);
      }
      var dropped := new FileObject(path, DroppedLines(FS.Read(h.tree, path).value));
      var line := dropped.FindLineByPart(delimiter, k, value);
      r := Ok(line);
    }

    method FindLineByString(h: Host, needle: string, position: Option<int>) returns (r: Result<Option<string>>)
      ensures r == match OpenedContent(h.tree, path)
        case Err(e) => Err(e)
        case Ok(c) => Ok(Find(DroppedLines(c), ByString(needle, position)))
    {
      var reader := Open(h, path);
      if reader.Err? {
        return Err(reader.error);
      }
      var dropped := new FileObject(path, DroppedLines(FS.Read(h.tree, path).value));
      var line := dropped.FindLineByString(needle, position);
      r := Ok(line);
    }

    /** findRandomLine(): `draws` are the numbers Random::getDigit(0, i) returns, one per line. */
    method FindRandomLine(h: Host, draws: seq<int>) returns (r: Result<Option<string>>)
      requires FS.Read(h.tree, path).Some? ==> |draws| >= |DroppedLines(FS.Read(h.tree, path).value)|
      ensures r == match OpenedContent(h.tree, path)
        case Err(e) => Err(e)
        case Ok(c) =>
          var ls := DroppedLines(c);
          Ok(RandomPick(ls, draws[..|ls|]))
    {
      var reader := Open(h, path);
      if reader.Err? {
        return Err(reader.error);
      }
      var dropped := new FileObject(path, DroppedLines(FS.Read(h.tree, path).value));
      var line := dropped.FindRandomLine(draws);
      assert dropped.lines[0..] == dropped.lines;
      r := Ok(line);
    }

    method MakeWritableForAll(h: Host) returns (r: Result<()>)
      requires h.Valid()
      modifies h
      ensures h.Valid()
      ensures var changed := FS.Chmod(old(h.tree), h.foreign, path, FS.AllAccess);
        h.tree == FS.After(old(h.tree), changed) &&
        r == if changed.Some? then Ok(()) else Err(Runtime("Failed to change permissions.", Render(path)))
    {
      var ok := h.Chmod(path, FS.AllAccess);
      if !ok {
        return Err(Runtime("Failed to change permissions.", Render(path)));
      }
      r := Ok(());
    }

    /** The exception copyTo() raises for each way a copy can fail; `chmodded` is the pathname chmod() was given. */
    function CopyFailure(dir: Path, filename: string, outcome: CopyOutcome, chmodded: Path): Result<()>
      reads this
    {
      var target := TargetIn(path, dir, filename);
      match outcome
      case Done => Ok(())
      case NoDestination => Err(Runtime("Destination directory is not exist.", Render(dir)))
      case CopyFailed => Err(Runtime("Failed to copy the file to " + Render(target) + ".", Render(path)))
      case ChmodFailed => Err(Runtime("Failed to change permissions.", Render(chmodded)))
    }

    /**
     * copyTo() as written: copies the file into `dir`, leaving an existing destination as
     * it is, and then gives the mode to the source file, naming it when that fails.
     */
    method CopyTo(h: Host, dir: Path, filename: string, mode: nat) returns (r: Result<()>)
      requires h.Valid()
      modifies h
      ensures h.Valid()
      ensures var (u, outcome) := CopyIntoAsWritten(old(h.tree), h.foreign, path, Some(path), dir, filename, mode);
        h.tree == u && r == CopyFailure(dir, filename, outcome, path)
    {
      var target := TargetIn(path, dir, filename);
      if !FS.IsDir(h.tree, dir) {
        return CopyFailure(dir, filename, NoDestination, path);
      }
      if FS.FileExists(h.tree, target) {
        return Ok(());
      }
      var ok := h.Copy(path, target);
      if !ok {
        return CopyFailure(dir, filename, CopyFailed, path);
      }
      ok := h.Chmod(path, mode);
      if !ok {
        return CopyFailure(dir, filename, ChmodFailed, path);
      }
      r := Ok(());
    }

    /** copyTo() as evidently intended: the mode goes to the new copy. */
    method CopyToIntended(h: Host, dir: Path, filename: string, mode: nat) returns (r: Result<()>)
      requires h.Valid()
      modifies h
      ensures h.Valid()
      ensures var (u, outcome) := CopyInto(old(h.tree), h.foreign, path, Some(path), dir, filename, mode);
        h.tree == u && r == CopyFailure(dir, filename, outcome, TargetIn(path, dir, filename))
    {
      var target := TargetIn(path, dir, filename);
      if !FS.IsDir(h.tree, dir) {
        return CopyFailure(dir, filename, NoDestination, target);
      }
      if FS.FileExists(h.tree, target) {
        return Ok(());
      }
      var ok := h.Copy(path, target);
      if !ok {
        return CopyFailure(dir, filename, CopyFailed, target);
      }
      ok := h.Chmod(target, mode);
      if !ok {
        return CopyFailure(dir, filename, ChmodFailed, target);
      }
      r := Ok(());
    }
  }

  /**
   * What file_get_contents() and file() read: the content of a readable file.  Without the
   * vfs wrapper a readable directory opens too, and reading it fails at once, so it reads
   * as the empty text; the vfs wrapper refuses to open a directory.
   */
  function NativeRead(h: Host, p: Path): (r: Option<string>)
    reads h
    ensures FS.IsFile(h.tree, p) ==> r == FS.Read(h.tree, p)
    ensures FS.IsDir(h.tree, p) ==> r == if !h.vfs && FS.IsReadable(h.tree, p) then Some("") else None
    ensures !FS.FileExists(h.tree, p) ==> r.None?
  {
    match FS.Read(h.tree, p)
    case Some(c) => Some(c)
    case None => if !h.vfs && FS.IsDir(h.tree, p) && FS.IsReadable(h.tree, p) then Some("") else None
  }
}
