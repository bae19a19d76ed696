/**
 * Stalxed\FileSystem\FileObject: an SplFileObject open for reading, with the library's
 * line queries.  The object holds the file's line stream and the cursor SplFileObject
 * keeps over it; a foreach starts by rewinding and ends with the cursor past the last
 * line, or just past the line where it broke off, which it has already read.
 */
module FileObjects {
  import opened Paths
  import opened Wrappers
  import opened Errors
  import opened Lines
  import opened Hosts
  import opened FileCopies
  import FS = FileSystems

  class FileObject {
    const path: Path
    const lines: seq<string>
    var pos: nat

    ghost predicate Valid()
      reads this
    {
      |lines| > 0 && pos <= |lines|
    }

    /** An object over the stream read from `path` when it was opened. */
    constructor (path: Path, lines: seq<string>)
      requires |lines| > 0
      ensures Valid() && this.path == path && this.lines == lines && pos == 0
    {
      this.path := path;
      this.lines := lines;
      pos := 0;
    }

    predicate Eof()
      reads this
    {
      pos >= |lines|
    }

    /** fgets(): the line under the cursor; reading past the end throws. */
    method Fgets() returns (r: Result<string>)
      requires Valid()
      modifies this
      ensures Valid()
      ensures old(pos) < |lines| ==> r == Ok(lines[old(pos)]) && pos == old(pos) + 1
      ensures old(pos) == |lines| ==> r == Err(SplRuntime) && pos == old(pos)
    {
      if pos < |lines| {
        r := Ok(lines[pos]);
        pos := pos + 1;
      } else {
        r := Err(SplRuntime);
      }
    }

    /** getLineCount(): one per line the foreach visits. */
    method GetLineCount() returns (count: nat)
      requires Valid()
      modifies this
      ensures Valid() && count == |lines| && pos == |lines|
    {
      count := 0;
      pos := 0;
      while pos < |lines|
        invariant pos <= |lines| && count == pos
      {
        count := count + 1;
        pos := pos + 1;
      }
    }

    /** getContents(): everything from the cursor to the end of the file. */
    method GetContents() returns (content: string)
      requires Valid()
      modifies this
      ensures Valid() && content == Concat(lines[old(pos)..]) && pos == |lines|
    {
      content := "";
      ghost var start := pos;
      while !Eof()
        invariant start <= pos <= |lines| && content == Concat(lines[start..pos])
        decreases |lines| - pos
      {
        ConcatDrop(lines[start..pos + 1]);
        assert lines[start..pos + 1][..pos - start] == lines[start..pos];
        var line := Fgets();
        content := content + line.value;
      }
      assert lines[start..pos] == lines[start..];
    }

    /** getLines(): every line, in order, under its line number. */
    method GetLines() returns (result: seq<string>)
      requires Valid()
      modifies this
      ensures Valid() && result == lines && pos == |lines|
    {
      result := [];
      pos := 0;
      while pos < |lines|
        invariant pos <= |lines| && result == lines[..pos]
      {
        result := result + [lines[pos]];
        pos := pos + 1;
      }
    }

    /**
     * findLineByNumber(): rewinds, skips `n` lines, reads one.  Running off the end gives
     * null; a negative number skips nothing and answers the first line.
     */
    method FindLineByNumber(n: int) returns (r: Option<string>)
      requires Valid()
      modifies this
      ensures Valid()
      ensures r == if n < |lines| then Some(lines[if n < 0 then 0 else n]) else None
      ensures pos == if n < |lines| then (if n < 0 then 0 else n) + 1 else |lines|
    {
      pos := 0;
      var i := 0;
      while i < n
        invariant 0 <= i && (n >= 0 ==> i <= n) && (n < 0 ==> i == 0) && pos == i <= |lines|
      {
        var skipped := Fgets();
        if skipped.Err? { return None; }
        i := i + 1;
      }
      var line := Fgets();
      if line.Err? { return None; }
      r := Some(line.value);
    }

    /**
     * The foreach both searches run: the first matching line.  The foreach has read that
     * line when it breaks, so the cursor is left just past it; with no match it is at the end.
     */
    method Search(q: Query) returns (r: Option<string>)
      requires Valid()
      modifies this
      ensures Valid() && r == Find(lines, q)
      ensures pos == if FirstMatch(lines, q) < |lines| then FirstMatch(lines, q) + 1 else |lines|
    {
      pos := 0;
      while pos < |lines|
        invariant pos <= FirstMatch(lines, q)
      {
        if Matches(q, lines[pos]) {
          pos := pos + 1;
          return Some(lines[pos - 1]);
        }
        pos := pos + 1;
      }
      r := None;
    }

    /** findLineByPart(): the first line whose `k`-th part between delimiters is `value`. */
    method FindLineByPart(delimiter: string, k: int, value: string) returns (r: Option<string>)
      requires Valid()
      modifies this
      ensures Valid() && r == Find(lines, ByPart(delimiter, k, value))
      ensures var m := FirstMatch(lines, ByPart(delimiter, k, value)); pos == if m < |lines| then m + 1 else |lines|
    {
      r := Search(ByPart(delimiter, k, value));
    }

    /** findLineByString(): the first line holding `needle`, at `position` when one is given. */
    method FindLineByString(needle: string, position: Option<int>) returns (r: Option<string>)
      requires Valid()
      modifies this
      ensures Valid() && r == Find(lines, ByString(needle, position))
      ensures var m := FirstMatch(lines, ByString(needle, position)); pos == if m < |lines| then m + 1 else |lines|
    {
      r := Search(ByString(needle, position));
    }

    /**
     * findRandomLine(): reads from the cursor to the end, keeping line i when the i-th
     * number the random source gives (from 0..i) is below 1.  `draws` are those numbers.
     */
    method FindRandomLine(draws: seq<int>) returns (r: Option<string>)
      requires Valid() && |draws| >= |lines| - pos
      modifies this
      ensures Valid() && pos == |lines|
      ensures r == RandomPick(lines[old(pos)..], draws[..|lines| - old(pos)])
    {
      ghost var start := pos;
      r := None;
      var i := 0;
      while !Eof()
        invariant start <= pos <= |lines| && i == pos - start
        invariant r == RandomPick(lines[start..pos], draws[..i])
        decreases |lines| - pos
      {
        RandomPickStep(lines[start..pos], draws[..i], lines[pos], draws[i]);
        assert lines[start..pos + 1] == lines[start..pos] + [lines[pos]];
        assert draws[..i + 1] == draws[..i] + [draws[i]];
        var line := Fgets();
        if draws[i] < 1 {
          r := Some(line.value);
        }
        i := i + 1;
      }
    }

    /** isEmpty(): the file's size, read now, is 0; a file that is gone throws. */
    function IsEmpty(h: Host): (r: Result<bool>)
      reads this, h
      ensures r.Ok? <==> FS.FileExists(h.tree, path)
      ensures r.Ok? ==> (r.value <==> FS.SizeOf(h.tree, path) == 0)
    {
      if FS.FileExists(h.tree, path) then Ok(FS.SizeOf(h.tree, path) == 0) else Err(SplRuntime)
    }

    /** makeWritableForAll(): chmod 0777 on the resolved path. */
    method MakeWritableForAll(h: Host) returns (r: Result<()>)
      requires h.Valid()
      modifies h
      ensures h.Valid()
      ensures var resolved := old(h.RealPath(path));
        r.Ok? <==> resolved.Some? && FS.Chmod(old(h.tree), h.foreign, resolved.value, FS.AllAccess).Some?
      ensures var resolved := old(h.RealPath(path));
        h.tree == (if resolved.Some? then FS.After(old(h.tree), FS.Chmod(old(h.tree), h.foreign, resolved.value, FS.AllAccess))
                   else old(h.tree))
      ensures r.Err? ==> r.error.Runtime? && r.error.message == "Failed to change permissions."
    {
      var resolved := h.RealPath(path);
      if resolved.None? {
        // chmod(false, 0777) cannot succeed
        return Err(Runtime("Failed to change permissions.", ""));
      }
      var ok := h.Chmod(resolved.value, FS.AllAccess);
      if !ok {
        return Err(Runtime("Failed to change permissions.", Render(resolved.value)));
      }
      r := Ok(());
    }

    /**
     * copyTo() as written: copies the file into `dir` under its own name or `filename`
     * plus its extension, unless something is there already, and then gives the mode to
     * getRealPath(), the source; every failure is a RuntimeException without message.
     */
    method CopyTo(h: Host, dir: Path, filename: string, mode: nat) returns (r: Result<()>)
      requires h.Valid()
      modifies h
      ensures h.Valid()
      ensures var (u, outcome) := CopyIntoAsWritten(old(h.tree), h.foreign, path, old(h.RealPath(path)), dir, filename, mode);
        h.tree == u && (r.Ok? <==> outcome == Done) && (r.Err? ==> r.error == Runtime("", ""))
    {
      var target := TargetIn(path, dir, filename);
      if !FS.IsDir(h.tree, dir) {
        return Err(Runtime("", ""));
      }
      if FS.FileExists(h.tree, target) {
        return Ok(());
      }
      var resolved := h.RealPath(path);
      if resolved.None? {
        // copy(false, …) cannot succeed
        return Err(Runtime("", ""));
      }
      var ok := h.Copy(resolved.value, target);
      if !ok {
        return Err(Runtime("", ""));
      }
      ok := h.Chmod(resolved.value, mode);
      if !ok {
        return Err(Runtime("", ""));
      }
      r := Ok(());
    }

    /** copyTo() as evidently intended: the mode goes to the new copy. */
    method CopyToIntended(h: Host, dir: Path, filename: string, mode: nat) returns (r: Result<()>)
      requires h.Valid()
      modifies h
      ensures h.Valid()
      ensures var (u, outcome) := CopyInto(old(h.tree), h.foreign, path, old(h.RealPath(path)), dir, filename, mode);
        h.tree == u && (r.Ok? <==> outcome == Done) && (r.Err? ==> r.error == Runtime("", ""))
    {
      var target := TargetIn(path, dir, filename);
      if !FS.IsDir(h.tree, dir) {
        return Err(Runtime("", ""));
      }
      if FS.FileExists(h.tree, target) {
        return Ok(());
      }
      var resolved := h.RealPath(path);
      if resolved.None? {
        return Err(Runtime("", ""));
      }
      var ok := h.Copy(resolved.value, target);
      if !ok {
        return Err(Runtime("", ""));
      }
      ok := h.Chmod(target, mode);
      if !ok {
        return Err(Runtime("", ""));
      }
      r := Ok(());
    }
  }

  /**
   * What new SplFileObject($path) reads: a pathname that leads to a directory is refused
   * with a LogicException, one that leads to no readable file with a RuntimeException.
   */
  function OpenedContent(t: FS.Tree, path: Path): (r: Result<string>)
    ensures r.Ok? <==> FS.Read(t, path).Some?
    ensures r.Ok? ==> FS.IsFile(t, path) && r.value == FS.Stat(t, path).value.content
    ensures r.Err? ==> r.error == if FS.IsDir(t, path) then Logic else SplRuntime
  {
    if FS.IsDir(t, path) then Err(Logic)
    else match FS.Read(t, path)
      case None => Err(SplRuntime)
      case Some(c) => Ok(c)
  }

  /** new FileObject($path): the plain line stream of the file, the cursor on its first line. */
  method Open(h: Host, path: Path) returns (r: Result<FileObject>)
    ensures r.Ok? <==> FS.Read(h.tree, path).Some?
    ensures r.Ok? ==>
      (fresh(r.value) && r.value.Valid() && r.value.path == path && r.value.pos == 0 &&
       r.value.lines == SplitLines(FS.Read(h.tree, path).value))
    ensures r.Err? ==> r.error == if FS.IsDir(h.tree, path) then Logic else SplRuntime
  {
    var content := OpenedContent(h.tree, path);
    if content.Err? {
      return Err(content.error);
    }
    var f := new FileObject(path, SplitLines(content.value));
    r := Ok(f);
  }
}
