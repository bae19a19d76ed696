/**
 * The part of the host's filesystem the library touches, as a value: every existing
 * pathname mapped to what is there.  The runtime's native calls (mkdir, rmdir, unlink,
 * touch, chmod, copy, fopen for writing) are functions from one tree to the next; a
 * call that fails answers None and leaves the tree as it was.
 */
module FileSystems {
  import opened Paths
  import opened Wrappers

  const ReadBit: nat := 256     // 0400, the owner may read
  const WriteBit: nat := 128    // 0200, the owner may write
  const CreateMode: nat := 438  // 0666, the mode of a file the runtime creates (umask 0)
  const AllAccess: nat := 511   // 0777

  datatype Entry = File(content: string, mode: nat) | Dir(mode: nat) | Link(target: Path)

  type Tree = map<Path, Entry>

  predicate HasBit(mode: nat, bit: nat)
    requires bit > 0
  {
    (mode / bit) % 2 == 1
  }

  /** The root is a directory and every other entry sits in a directory. */
  predicate WellFormed(t: Tree)
  {
    [] in t && t[[]].Dir? &&
    forall p :: p in t && p != [] ==> Parent(p) in t && t[Parent(p)].Dir?
  }

  /** Every ancestor of an entry of a well-formed tree is a directory of it. */
  lemma {:induction false} AncestorsAreDirs(t: Tree, p: Path, k: nat)
    requires WellFormed(t) && p in t && k < |p|
    ensures p[..k] in t && t[p[..k]].Dir?
    decreases |p| - k
  {
    if k + 1 < |p| {
      AncestorsAreDirs(t, p, k + 1);
      assert Parent(p[..k + 1]) == p[..k];
    } else {
      assert Parent(p) == p[..k];
    }
  }

  lemma AncestorIsDir(t: Tree, a: Path, p: Path)
    requires WellFormed(t) && p in t && Above(a, p)
    ensures a in t && t[a].Dir?
  {
    AncestorsAreDirs(t, p, |a|);
  }

  /** Symbolic links are followed one step, at the last component only. */
  function Resolve(t: Tree, p: Path): Path
  {
    if p in t && t[p].Link? then t[p].target else p
  }

  /** stat(): what the pathname leads to, None when nothing (or a dangling link) is there. */
  function Stat(t: Tree, p: Path): (r: Option<Entry>)
    ensures r.Some? ==> !r.value.Link? && Resolve(t, p) in t && t[Resolve(t, p)] == r.value
    ensures r.None? ==> Resolve(t, p) !in t || t[Resolve(t, p)].Link?
  {
    var q := Resolve(t, p);
    if q in t && !t[q].Link? then Some(t[q]) else None
  }

  predicate FileExists(t: Tree, p: Path) { Stat(t, p).Some? }
  predicate IsFile(t: Tree, p: Path) { Stat(t, p).Some? && Stat(t, p).value.File? }
  predicate IsDir(t: Tree, p: Path) { Stat(t, p).Some? && Stat(t, p).value.Dir? }
  predicate IsLink(t: Tree, p: Path) { p in t && t[p].Link? }

  predicate IsReadable(t: Tree, p: Path) { Stat(t, p).Some? && HasBit(Stat(t, p).value.mode, ReadBit) }
  predicate IsWritable(t: Tree, p: Path) { Stat(t, p).Some? && HasBit(Stat(t, p).value.mode, WriteBit) }

  /** The directory `d` itself (not a link to it) lets entries be added to and removed from it. */
  predicate CanEdit(t: Tree, d: Path) { d in t && t[d].Dir? && HasBit(t[d].mode, WriteBit) }

  /** The directory `d` itself can be opened and listed. */
  predicate Listable(t: Tree, d: Path) { d in t && t[d].Dir? && HasBit(t[d].mode, ReadBit) }

  /** Nothing lies below `d`. */
  predicate NoChildren(t: Tree, d: Path) { forall q :: q in t ==> !Above(d, q) }

  /** filesize() of a file; the model gives any other pathname size 0. */
  function SizeOf(t: Tree, p: Path): nat
  {
    if IsFile(t, p) then |Stat(t, p).value.content| else 0
  }

  /** realpath(): the pathname a link leads to, None for a path where nothing exists. */
  function RealPath(t: Tree, p: Path): (r: Option<Path>)
    ensures r.Some? <==> FileExists(t, p)
    ensures r.Some? ==> Stat(t, r.value) == Stat(t, p)
  {
    if FileExists(t, p) then Some(Resolve(t, p)) else None
  }

  function WithMode(e: Entry, mode: nat): (r: Entry)
    requires !e.Link?
    ensures r.File? == e.File? && r.Dir? == e.Dir? && r.mode == mode
    ensures r.File? ==> r.content == e.content
  {
    if e.File? then File(e.content, mode) else Dir(mode)
  }

  /** The tree after a call that answers an optional new tree. */
  function After(t: Tree, r: Option<Tree>): Tree
  {
    if r.Some? then r.value else t
  }

  /** Every entry of `t` is still there, unchanged, in `u`. */
  predicate Keeps(t: Tree, u: Tree)
  {
    forall q :: q in t ==> q in u && u[q] == t[q]
  }

  /** What a pathname leads to stays as it was when no entry is changed or removed. */
  lemma KeepsStat(t: Tree, u: Tree, p: Path)
    requires Keeps(t, u) && FileExists(t, p)
    ensures Stat(u, p) == Stat(t, p)
  {
  }

  /** mkdir($p, $mode) without recursion: only a missing entry in a writable directory. */
  function Mkdir(t: Tree, p: Path, mode: nat): (r: Option<Tree>)
    ensures WellFormed(t) && r.Some? ==> WellFormed(r.value)
    ensures r.Some? ==> p !in t && Keeps(t, r.value) && r.value.Keys == t.Keys + {p} && r.value[p] == Dir(mode)
  {
    if p != [] && p !in t && CanEdit(t, Parent(p)) then Some(t[p := Dir(mode)]) else None
  }

  /** rmdir(): only an empty directory, never the root, never through a link. */
  function Rmdir(t: Tree, p: Path): (r: Option<Tree>)
    ensures WellFormed(t) && r.Some? ==> WellFormed(r.value)
    ensures r.Some? ==> p in t && t[p].Dir? && NoChildren(t, p) && r.value == t - {p}
  {
    if p != [] && p in t && t[p].Dir? && NoChildren(t, p) && CanEdit(t, Parent(p)) then Some(t - {p}) else None
  }

  /** unlink(): a file or a link itself, never a directory. */
  function Unlink(t: Tree, p: Path): (r: Option<Tree>)
    ensures WellFormed(t) && r.Some? ==> WellFormed(r.value)
    ensures r.Some? ==> p in t && !t[p].Dir? && r.value == t - {p}
  {
    if p != [] && p in t && !t[p].Dir? && CanEdit(t, Parent(p)) then Some(t - {p}) else None
  }

  /** touch(): an existing entry is left as it is (times are not modelled); a missing one becomes an empty file. */
  function Touch(t: Tree, p: Path): (r: Option<Tree>)
    ensures WellFormed(t) && r.Some? ==> WellFormed(r.value)
    ensures r.Some? ==> Keeps(t, r.value) && FileExists(r.value, p)
  {
    var q := Resolve(t, p);
    if q in t then (if t[q].Link? then None else Some(t))
    else if q != [] && CanEdit(t, Parent(q)) then Some(t[q := File("", CreateMode)])
    else None
  }

  /** chmod(): changes the mode of what the pathname leads to, unless another user owns it. */
  function Chmod(t: Tree, foreign: set<Path>, p: Path, mode: nat): (r: Option<Tree>)
    ensures WellFormed(t) && r.Some? ==> WellFormed(r.value)
    ensures r.Some? <==> FileExists(t, p) && Resolve(t, p) !in foreign
    ensures r.Some? ==> r.value.Keys == t.Keys && FileExists(r.value, p) && Stat(r.value, p).value.mode == mode
  {
    var q := Resolve(t, p);
    if q in t && !t[q].Link? && q !in foreign then Some(t[q := WithMode(t[q], mode)]) else None
  }

  /**
   * The target file that opening `p` for writing leads to: an existing writable file,
   * or a new one in a writable directory.
   */
  function OpenForWrite(t: Tree, p: Path): (r: Option<Tree>)
    ensures WellFormed(t) && r.Some? ==> WellFormed(r.value)
    ensures r.Some? ==> Keeps(t, r.value) && IsFile(r.value, p)
  {
    var q := Resolve(t, p);
    if q in t then (if t[q].File? && HasBit(t[q].mode, WriteBit) then Some(t) else None)
    else if q != [] && CanEdit(t, Parent(q)) then Some(t[q := File("", CreateMode)])
    else None
  }

  /** fopen($p, 'w'): opening truncates the file. */
  function OpenTruncate(t: Tree, p: Path): (r: Option<Tree>)
    ensures WellFormed(t) && r.Some? ==> WellFormed(r.value)
    ensures r.Some? ==> IsFile(r.value, p) && Stat(r.value, p).value.content == ""
    ensures r.Some? ==> r.value.Keys == After(t, OpenForWrite(t, p)).Keys
  {
    match OpenForWrite(t, p)
    case None => None
    case Some(u) =>
      var q := Resolve(u, p);
      Some(u[q := File("", u[q].mode)])
  }

  /** fwrite() on a handle open on `p`: the data goes to the end of the file. */
  function Write(t: Tree, p: Path, data: string): (r: Tree)
    ensures WellFormed(t) ==> WellFormed(r)
    ensures IsFile(t, p) ==> IsFile(r, p) && Stat(r, p).value.content == Stat(t, p).value.content + data
  {
    var q := Resolve(t, p);
    if q in t && t[q].File? then t[q := File(t[q].content + data, t[q].mode)] else t
  }

  /** file_get_contents(), file() and SplFileObject opening for reading: a readable file. */
  function Read(t: Tree, p: Path): (r: Option<string>)
    ensures r.Some? <==> IsFile(t, p) && IsReadable(t, p)
  {
    if IsFile(t, p) && IsReadable(t, p) then Some(Stat(t, p).value.content) else None
  }

  /**
   * copy($from, $to): the source must be a readable file and not the destination itself;
   * an existing writable destination file is overwritten and keeps its mode, a missing one
   * is created.
   */
  function Copy(t: Tree, from: Path, to: Path): (r: Option<Tree>)
    ensures WellFormed(t) && r.Some? ==> WellFormed(r.value)
    ensures r.Some? ==> IsFile(t, from) && IsFile(r.value, to) && Stat(r.value, to).value.content == Stat(t, from).value.content
    ensures r.Some? ==> r.value.Keys == t.Keys + {Resolve(t, to)}
  {
    var s, d := Resolve(t, from), Resolve(t, to);
    if s in t && t[s].File? && HasBit(t[s].mode, ReadBit) && s != d then
      if d in t then
        if t[d].File? && HasBit(t[d].mode, WriteBit) then Some(t[d := File(t[s].content, t[d].mode)]) else None
      else if d != [] && CanEdit(t, Parent(d)) then Some(t[d := File(t[s].content, CreateMode)])
      else None
    else None
  }

  /** The length of the longest prefix of `p`, at most `k` long, where something exists. */
  function ExistingPrefix(t: Tree, p: Path, k: nat): (r: nat)
    requires k <= |p|
    ensures r <= k && (r == 0 || FileExists(t, p[..r]))
    ensures forall j :: r < j <= k ==> !FileExists(t, p[..j])
  {
    if k == 0 || FileExists(t, p[..k]) then k else ExistingPrefix(t, p, k - 1)
  }

  /** Creates p[..k], p[..k+1], …, p itself, one mkdir after the other, stopping at the first failure. */
  function MakeChain(t: Tree, p: Path, k: nat, mode: nat): (r: (Tree, bool))
    requires 0 < k
    ensures WellFormed(t) ==> WellFormed(r.0)
    ensures Keeps(t, r.0)
    ensures r.1 && k <= |p| ==> p in r.0 && r.0[p] == Dir(mode)
    ensures forall q :: q in r.0 && q !in t ==> (exists j :: k <= j <= |p| && q == p[..j]) && r.0[q] == Dir(mode)
    decreases |p| + 1 - k
  {
    if k > |p| then (t, true)
    else match Mkdir(t, p[..k], mode)
      case None => (t, false)
      case Some(u) => assert p[..|p|] == p; MakeChain(u, p, k + 1, mode)
  }

  /**
   * mkdir($p, $mode, true): finds the deepest existing ancestor and creates every level
   * below it.  It fails when `p` itself exists, and then changes nothing; a failure half
   * way leaves the levels already made.
   */
  function MkdirRecursive(t: Tree, p: Path, mode: nat): (Tree, bool)
  {
    if p == [] then (t, false) else MakeChain(t, p, ExistingPrefix(t, p, |p| - 1) + 1, mode)
  }

  /**
   * mkdir -p keeps every existing entry, and each entry it adds is `p` or one of its
   * ancestors, made with `mode`.
   */
  lemma MkdirRecursiveOutcome(t: Tree, p: Path, mode: nat)
    requires WellFormed(t)
    ensures WellFormed(MkdirRecursive(t, p, mode).0)
    ensures Keeps(t, MkdirRecursive(t, p, mode).0)
    ensures MkdirRecursive(t, p, mode).1 ==> p in MkdirRecursive(t, p, mode).0 && MkdirRecursive(t, p, mode).0[p] == Dir(mode)
    ensures forall q :: q in MkdirRecursive(t, p, mode).0 && q !in t ==>
      (exists k :: 0 < k <= |p| && q == p[..k]) && MkdirRecursive(t, p, mode).0[q] == Dir(mode)
  {
  }

  /** A path that already exists is refused, and nothing changes. */
  lemma {:induction false} MkdirRecursiveExisting(t: Tree, p: Path, mode: nat)
    requires WellFormed(t) && p in t
    ensures MkdirRecursive(t, p, mode) == (t, false)
  {
    if p != [] {
      AncestorsAreDirs(t, p, |p| - 1);
      assert p[..|p| - 1] == Parent(p);
      assert ExistingPrefix(t, p, |p| - 1) == |p| - 1;
      assert p[..|p|] == p;
    }
  }

  /** A missing path in an editable directory is made in one step, with nothing else added. */
  lemma MkdirRecursiveOneLevel(t: Tree, p: Path, mode: nat)
    requires p != [] && p !in t && CanEdit(t, Parent(p))
    ensures MkdirRecursive(t, p, mode) == (t[p := Dir(mode)], true)
  {
    assert p[..|p| - 1] == Parent(p);
    assert ExistingPrefix(t, p, |p| - 1) == |p| - 1;
    assert p[..|p|] == p;
    assert Mkdir(t, p[..|p|], mode) == Some(t[p := Dir(mode)]);
    assert MakeChain(t[p := Dir(mode)], p, |p| + 1, mode) == (t[p := Dir(mode)], true);
    assert MakeChain(t, p, |p|, mode) == MakeChain(t[p := Dir(mode)], p, |p| + 1, mode);
  }
}
