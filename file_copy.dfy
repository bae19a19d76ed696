/**
 * Copying one file into a directory, the step FileObject::copyTo and File::copyTo share:
 * the destination directory must exist, the copy is named after the source (or gets a
 * new name and keeps the source's extension), an existing destination is left alone,
 * and a fresh copy gets the requested mode.
 */
module FileCopies {
  import opened Paths
  import opened Wrappers
  import opened FileSystems

  /** How a copy ended: done (or skipped), or the step that failed. */
  datatype CopyOutcome = Done | NoDestination | CopyFailed | ChmodFailed

  /** Where the copy of the file named `named` goes inside `dir`. */
  function TargetIn(named: Path, dir: Path, filename: string): Path
  {
    dir + [TargetName(Basename(named), filename)]
  }

  /**
   * The copy as the code is meant to work: `source` is the pathname copy() reads
   * (None when the runtime resolved nothing), `named` the pathname the copy is named after.
   */
  function CopyInto(t: Tree, foreign: set<Path>, named: Path, source: Option<Path>,
                    dir: Path, filename: string, mode: nat): (r: (Tree, CopyOutcome))
    ensures WellFormed(t) ==> WellFormed(r.0)
  {
    var target := TargetIn(named, dir, filename);
    if !IsDir(t, dir) then (t, NoDestination)
    else if FileExists(t, target) then (t, Done)
    else if source.None? then (t, CopyFailed)
    else match Copy(t, source.value, target)
      case None => (t, CopyFailed)
      case Some(u) =>
        match Chmod(u, foreign, target, mode)
        case None => (u, ChmodFailed)
        case Some(v) => (v, Done)
  }

  /** The copy as written: the mode is applied to the source (File.php:366, FileObject.php:250). */
  function CopyIntoAsWritten(t: Tree, foreign: set<Path>, named: Path, source: Option<Path>,
                             dir: Path, filename: string, mode: nat): (r: (Tree, CopyOutcome))
    ensures WellFormed(t) ==> WellFormed(r.0)
  {
    var target := TargetIn(named, dir, filename);
    if !IsDir(t, dir) then (t, NoDestination)
    else if FileExists(t, target) then (t, Done)
    else if source.None? then (t, CopyFailed)
    else match Copy(t, source.value, target)
      case None => (t, CopyFailed)
      case Some(u) =>
        match Chmod(u, foreign, source.value, mode)
        case None => (u, ChmodFailed)
        case Some(v) => (v, Done)
  }

  /**
   * A copy never alters what already exists and adds no entry but the target: an existing
   * destination is skipped, and a fresh one holds the source's content with the requested mode.
   */
  lemma CopyIntoSpec(t: Tree, foreign: set<Path>, named: Path, source: Option<Path>,
                     dir: Path, filename: string, mode: nat)
    requires WellFormed(t)
    ensures var (u, outcome) := CopyInto(t, foreign, named, source, dir, filename, mode);
      var target := TargetIn(named, dir, filename);
      Keeps(t, u) && u.Keys <= t.Keys + {Resolve(t, target)} &&
      (outcome == Done <==>
        (IsDir(t, dir) && (FileExists(t, target) ||
          (source.Some? && Copy(t, source.value, target).Some? &&
           Chmod(After(t, Copy(t, source.value, target)), foreign, target, mode).Some?)))) &&
      (outcome == Done && !FileExists(t, target) ==>
         IsFile(u, target) && Stat(u, target).value.content == Stat(t, source.value).value.content &&
         Stat(u, target).value.mode == mode)
  {
    var target := TargetIn(named, dir, filename);
    if IsDir(t, dir) && !FileExists(t, target) && source.Some? {
      var d := Resolve(t, target);
      match Copy(t, source.value, target)
      case None =>
      case Some(u) =>
        assert d !in t;
        assert u.Keys == t.Keys + {d};
        assert Resolve(u, target) == d;
    }
  }

  /**
   * The copy as written, for every input: the destination gets the source's content at
   * the runtime's mode 0666, the requested mode lands on what the source leads to, no
   * other entry changes and none but the target is added.  It fails at chmod() exactly when another user owns the source.
   */
  lemma CopyIntoAsWrittenSpec(t: Tree, foreign: set<Path>, named: Path, source: Option<Path>,
                              dir: Path, filename: string, mode: nat)
    requires WellFormed(t)
    ensures var (u, outcome) := CopyIntoAsWritten(t, foreign, named, source, dir, filename, mode);
      var target := TargetIn(named, dir, filename);
      (forall q :: q in t && (source.None? || q != Resolve(t, source.value)) ==> q in u && u[q] == t[q]) &&
      u.Keys <= t.Keys + {Resolve(t, target)} &&
      (outcome == Done <==>
        (IsDir(t, dir) && (FileExists(t, target) ||
          (source.Some? && Copy(t, source.value, target).Some? && Resolve(t, source.value) !in foreign)))) &&
      (outcome == Done && !FileExists(t, target) ==>
         IsFile(u, target) && Stat(u, target).value == File(Stat(t, source.value).value.content, CreateMode) &&
         IsFile(u, source.value) && Stat(u, source.value).value.mode == mode)
  {
    var target := TargetIn(named, dir, filename);
    if IsDir(t, dir) && !FileExists(t, target) && source.Some? && Copy(t, source.value, target).Some? {
      FreshCopy(t, source.value, target);
      var u := Copy(t, source.value, target).value;
      ChmodSource(t, u, foreign, source.value, target, mode);
    }
  }

  /** copy() to a pathname where nothing exists adds one file at mode 0666 and nothing else. */
  lemma FreshCopy(t: Tree, from: Path, to: Path)
    requires Copy(t, from, to).Some? && !FileExists(t, to)
    ensures var s, d := Resolve(t, from), Resolve(t, to);
      s in t && t[s].File? && d !in t && s != d &&
      Copy(t, from, to).value == t[d := File(t[s].content, CreateMode)]
  {
  }

  /** chmod() of the source after a fresh copy touches the source alone. */
  lemma ChmodSource(t: Tree, u: Tree, foreign: set<Path>, from: Path, to: Path, mode: nat)
    requires var s, d := Resolve(t, from), Resolve(t, to);
      s in t && t[s].File? && d !in t && s != d && u == t[d := File(t[s].content, CreateMode)]
    ensures Resolve(u, from) == Resolve(t, from) && Resolve(u, to) == Resolve(t, to)
    ensures Chmod(u, foreign, from, mode).Some? <==> Resolve(t, from) !in foreign
    ensures Chmod(u, foreign, from, mode).Some? ==>
      var v := Chmod(u, foreign, from, mode).value;
      v == u[Resolve(t, from) := File(t[Resolve(t, from)].content, mode)] &&
      IsFile(v, to) && Stat(v, to).value == File(t[Resolve(t, from)].content, CreateMode) &&
      IsFile(v, from) && Stat(v, from).value.mode == mode
  {
  }

  /**
   * What the code as written does instead: copying /a/x.txt (mode 0600) into /b with mode
   * 0644 leaves the copy at the runtime's 0666 and switches the source to 0644.
   */
  lemma CopyIntoAsWrittenChangesSource()
    ensures var t := map[[] := Dir(AllAccess), ["a"] := Dir(AllAccess), ["a", "x.txt"] := File("abc", 384),
                         ["b"] := Dir(AllAccess)];
      var (u, outcome) := CopyIntoAsWritten(t, {}, ["a", "x.txt"], Some(["a", "x.txt"]), ["b"], "", 420);
      outcome == Done && ["b", "x.txt"] in u && u[["b", "x.txt"]] == File("abc", CreateMode) && u[["a", "x.txt"]] == File("abc", 420)
  {
    var t := map[[] := Dir(AllAccess), ["a"] := Dir(AllAccess), ["a", "x.txt"] := File("abc", 384),
                 ["b"] := Dir(AllAccess)];
    assert ["b"] + ["x.txt"] == ["b", "x.txt"];
    assert TargetIn(["a", "x.txt"], ["b"], "") == ["b", "x.txt"];
    assert ["b", "x.txt"] !in t;
    assert Parent(["b", "x.txt"]) == ["b"];
    assert HasBit(384, ReadBit) && HasBit(AllAccess, WriteBit);
  }
}
