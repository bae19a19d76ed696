/**
 * The recursive walks of Directory and DirectoryObject.  Which entries a
 * RecursiveIteratorIterator visits, and in what order, is decided by the operating
 * system; the model takes the visit order as a sequence of pathnames `w` and says what
 * it must be: every entry below the walked directory exactly once, each entry after
 * everything below it (CHILD_FIRST) or before it (SELF_FIRST).  Each loop of the
 * library is a function over that sequence, a method that runs the loop on the host,
 * and lemmas that say what the loop achieves whatever the order.
 */
module Walks {
  import opened Paths
  import opened Wrappers
  import opened FileSystems
  import opened Hosts
  import opened Errors

  predicate Distinct(w: seq<Path>)
  {
    forall i, j :: 0 <= i < j < |w| ==> w[i] != w[j]
  }

  function Items(w: seq<Path>): set<Path>
  {
    set i | 0 <= i < |w| :: w[i]
  }

  /** The entries of `t` strictly below `root`. */
  function Below(t: Tree, root: Path): set<Path>
  {
    set q | q in t && Above(root, q)
  }

  /** `w` visits every entry below `root` exactly once. */
  predicate Enumerates(t: Tree, root: Path, w: seq<Path>)
  {
    Distinct(w) && (forall i :: 0 <= i < |w| ==> w[i] in t && Above(root, w[i])) && Items(w) == Below(t, root)
  }

  /** CHILD_FIRST: nothing below an entry is visited after it. */
  predicate ChildFirst(w: seq<Path>)
  {
    forall i, j :: 0 <= i < j < |w| ==> !Above(w[i], w[j])
  }

  /** SELF_FIRST: nothing below an entry is visited before it. */
  predicate ParentFirst(w: seq<Path>)
  {
    forall i, j :: 0 <= i < j < |w| ==> !Above(w[j], w[i])
  }

  /**
   * The directory a RecursiveDirectoryIterator on `p` lists: the one `p` leads to, which
   * it must be able to read; None when the constructor throws UnexpectedValueException.
   */
  function WalkRoot(t: Tree, p: Path): (r: Option<Path>)
    ensures r.Some? <==> IsDir(t, p) && Listable(t, Resolve(t, p))
    ensures r.Some? ==> r.value == Resolve(t, p) && r.value in t && t[r.value].Dir?
  {
    var d := Resolve(t, p);
    if Listable(t, d) then Some(d) else None
  }

  /** `w` is an order in which the iterator on `p` may visit the entries below it. */
  predicate Yields(t: Tree, p: Path, w: seq<Path>, childFirst: bool)
  {
    match WalkRoot(t, p)
    case None => true
    case Some(d) => Enumerates(t, d, w) && (if childFirst then ChildFirst(w) else ParentFirst(w))
  }

  lemma ItemsTail(w: seq<Path>)
    requires Distinct(w) && w != []
    ensures Distinct(w[1..]) && Items(w[1..]) == Items(w) - {w[0]}
  {
    forall q | q in Items(w) - {w[0]}
      ensures q in Items(w[1..])
    {
      var i :| 0 <= i < |w| && w[i] == q;
      assert w[1..][i - 1] == q;
    }
  }

  lemma ItemsCons(q: Path, w: seq<Path>)
    ensures Items([q] + w) == {q} + Items(w)
  {
    assert ([q] + w)[0] == q;
    forall p | p in Items(w)
      ensures p in Items([q] + w)
    {
      var i :| 0 <= i < |w| && w[i] == p;
      assert ([q] + w)[i + 1] == p;
    }
    forall p | p in Items([q] + w)
      ensures p == q || p in Items(w)
    {
      var i :| 0 <= i < |[q] + w| && ([q] + w)[i] == p;
      if i > 0 {
        assert w[i - 1] == p;
      }
    }
  }

  lemma PrefixHas(w: seq<Path>, i: nat, j: nat)
    requires i <= |w| && j < |w|
    ensures j < i ==> w[j] in Items(w[..i])
  {
    if j < i {
      assert w[..i][j] == w[j];
    }
  }

  lemma ItemsPrefix(w: seq<Path>, i: nat)
    requires i < |w|
    ensures Items(w[..i + 1]) == Items(w[..i]) + {w[i]}
  {
    assert w[..i + 1] == w[..i] + [w[i]];
  }

  // ---------------------------------------------------------------- getSize

  /** getSize(): what the foreach adds up, the size of every entry that is a file. */
  function SumSizes(t: Tree, w: seq<Path>): nat
  {
    if w == [] then 0 else SizeOf(t, w[0]) + SumSizes(t, w[1..])
  }

  /** The reference: the sizes of a set of entries added up, in no particular order. */
  ghost function SetSize(t: Tree, s: set<Path>): nat
    decreases s
  {
    if s == {} then 0 else var q :| q in s; SizeOf(t, q) + SetSize(t, s - {q})
  }

  lemma {:induction false} SetSizeRemove(t: Tree, s: set<Path>, q: Path)
    requires q in s
    ensures SetSize(t, s) == SizeOf(t, q) + SetSize(t, s - {q})
    decreases s
  {
    var p :| p in s && SetSize(t, s) == SizeOf(t, p) + SetSize(t, s - {p});
    if p != q {
      SetSizeRemove(t, s - {p}, q);
      SetSizeRemove(t, s - {q}, p);
      assert s - {p} - {q} == s - {q} - {p};
    }
  }

  lemma {:induction false} SumSizesIsSetSize(t: Tree, w: seq<Path>)
    requires Distinct(w)
    ensures SumSizes(t, w) == SetSize(t, Items(w))
  {
    if w == [] {
      assert Items(w) == {};
    } else {
      ItemsTail(w);
      SumSizesIsSetSize(t, w[1..]);
      SetSizeRemove(t, Items(w), w[0]);
    }
  }

  /** Whatever the order of the walk, getSize() is the total size of the files below the directory. */
  lemma WalkSize(t: Tree, root: Path, w: seq<Path>)
    requires Enumerates(t, root, w)
    ensures SumSizes(t, w) == SetSize(t, Below(t, root))
  {
    SumSizesIsSetSize(t, w);
  }

  lemma WalkSizeOrderFree(t: Tree, root: Path, w1: seq<Path>, w2: seq<Path>)
    requires Enumerates(t, root, w1) && Enumerates(t, root, w2)
    ensures SumSizes(t, w1) == SumSizes(t, w2)
  {
    WalkSize(t, root, w1);
    WalkSize(t, root, w2);
  }

  /** An empty directory has size 0, and so does one holding only directories. */
  lemma {:induction false} SumSizesNoFiles(t: Tree, w: seq<Path>)
    requires forall i :: 0 <= i < |w| ==> !IsFile(t, w[i])
    ensures SumSizes(t, w) == 0
  {
    if w != [] {
      SumSizesNoFiles(t, w[1..]);
    }
  }

  /** The size counts a file's content exactly once, at any depth. */
  lemma {:induction false} SumSizesAppend(t: Tree, w1: seq<Path>, w2: seq<Path>)
    ensures SumSizes(t, w1 + w2) == SumSizes(t, w1) + SumSizes(t, w2)
  {
    if w1 == [] {
      assert w1 + w2 == w2;
    } else {
      assert (w1 + w2)[1..] == w1[1..] + w2;
      SumSizesAppend(t, w1[1..], w2);
    }
  }

  // ---------------------------------------------------------------- isEmpty

  /**
   * isEmpty() stops at the first entry it sees, so it answers whether the walk has one;
   * that is the case when the directory has a child at all.
   */
  lemma EmptyWalk(t: Tree, root: Path, w: seq<Path>)
    requires WellFormed(t) && Enumerates(t, root, w)
    ensures |w| == 0 <==> NoChildren(t, root)
    ensures |w| == 0 <==> forall name :: root + [name] !in t
  {
    if |w| > 0 {
      assert w[0] in Items(w);
      var q := w[0];
      var k := |root| + 1;
      if k < |q| {
        AncestorsAreDirs(t, q, k);
      } else {
        assert q[..k] == q;
      }
      assert q[..k] == root + [q[|root|]];
    }
    if !NoChildren(t, root) {
      var q :| q in t && Above(root, q);
      assert q in Below(t, root);
    }
    if exists name :: root + [name] in t {
      var name :| root + [name] in t;
      assert Above(root, root + [name]);
      assert root + [name] in Below(t, root);
    }
  }

  // ---------------------------------------------------------------- clear

  /** What clear() does to one entry: rmdir() for what is a directory, unlink() for the rest. */
  function Remove(t: Tree, q: Path): Option<Tree>
  {
    if IsDir(t, q) then Rmdir(t, q) else Unlink(t, q)
  }

  /** The tree after a loop over a walk, and how many entries it dealt with before it stopped. */
  datatype Run = Run(tree: Tree, done: nat)

  function Shifted(r: Run, n: nat): Run
  {
    Run(r.tree, r.done + n)
  }

  /** clear(): the entries of the walk removed one after the other, up to the first that will not go. */
  function Clear(t: Tree, w: seq<Path>): (r: Run)
    ensures r.done <= |w|
    ensures WellFormed(t) ==> WellFormed(r.tree)
    ensures r.tree == t - Items(w[..r.done])
    ensures r.done < |w| ==> Remove(r.tree, w[r.done]).None?
  {
    if w == [] then Run(t, 0)
    else match Remove(t, w[0])
      case None => assert w[..0] == []; Run(t, 0)
      case Some(u) =>
        var r := Clear(u, w[1..]);
        assert w[..r.done + 1] == [w[0]] + w[1..][..r.done];
        ItemsCons(w[0], w[1..][..r.done]);
        Run(r.tree, r.done + 1)
  }

  /** No entry of the walk is a symbolic link to a directory, which rmdir() would refuse. */
  predicate NoLinkedDirs(t: Tree, w: seq<Path>)
  {
    forall i :: 0 <= i < |w| && w[i] in t && t[w[i]].Link? ==> !IsDir(t, w[i])
  }

  /** The first entry of the walk whose directory does not let it be removed; |w| when there is none. */
  function FirstLocked(t: Tree, w: seq<Path>): (r: nat)
    ensures r <= |w|
    ensures forall i :: 0 <= i < r ==> w[i] != [] && CanEdit(t, Parent(w[i]))
    ensures r < |w| ==> w[r] == [] || !CanEdit(t, Parent(w[r]))
  {
    if w == [] then 0
    else if w[0] != [] && CanEdit(t, Parent(w[0])) then 1 + FirstLocked(t, w[1..])
    else 0
  }

  /** The directory of a walked entry is the root or an entry visited after it, so it is still there. */
  lemma ParentStays(t: Tree, root: Path, w: seq<Path>, i: nat)
    requires WellFormed(t) && root in t && Enumerates(t, root, w) && ChildFirst(w)
    requires i < |w|
    ensures w[i] != [] && Parent(w[i]) in t && Parent(w[i]) !in Items(w[..i])
  {
    var q := w[i];
    assert q in Items(w);
    var p := Parent(q);
    AncestorIsDir(t, p, q);
  }

  /** Child-first, what lies below entry `i` is gone by the time it is visited. */
  lemma ChildrenGone(t: Tree, root: Path, w: seq<Path>, i: nat)
    requires Enumerates(t, root, w) && ChildFirst(w)
    requires i < |w|
    ensures NoChildren(t - Items(w[..i]), w[i])
  {
    var q := w[i];
    assert q in Items(w);
    forall c | c in t - Items(w[..i])
      ensures !Above(q, c)
    {
      if c in Below(t, root) {
        var j :| 0 <= j < |w| && w[j] == c;
        PrefixHas(w, i, j);
      }
    }
  }

  /** One removal, on a tree `cur` that `t` extends. */
  lemma RemoveOne(t: Tree, cur: Tree, q: Path)
    requires Keeps(cur, t) && q in cur && q != [] && Parent(q) in cur
    requires t[q].Dir? ==> NoChildren(cur, q)
    requires t[q].Link? ==> !IsDir(t, q)
    ensures Remove(cur, q).Some? <==> CanEdit(cur, Parent(q))
    ensures Remove(cur, q).Some? ==> Remove(cur, q).value == cur - {q}
  {
    if cur[q].Link? {
      assert !IsDir(cur, q);
    }
  }

  /**
   * Child-first, entry `i` is removed exactly when its directory is writable: everything
   * below it is already gone, and its directory is not.
   */
  lemma RemoveStep(t: Tree, root: Path, w: seq<Path>, i: nat)
    requires WellFormed(t) && root in t && Enumerates(t, root, w) && ChildFirst(w) && NoLinkedDirs(t, w)
    requires i < |w|
    ensures var cur := t - Items(w[..i]);
      w[i] != [] &&
      (Remove(cur, w[i]).Some? <==> CanEdit(t, Parent(w[i]))) &&
      (Remove(cur, w[i]).Some? ==> Remove(cur, w[i]).value == t - Items(w[..i + 1]))
  {
    var cur := t - Items(w[..i]);
    var q := w[i];
    assert q in Items(w);
    assert q !in Items(w[..i]);
    ParentStays(t, root, w, i);
    ChildrenGone(t, root, w, i);
    RemoveOne(t, cur, q);
    ItemsPrefix(w, i);
    assert cur - {q} == t - Items(w[..i + 1]);
  }

  lemma {:induction false} ClearFrom(t: Tree, root: Path, w: seq<Path>, i: nat)
    requires WellFormed(t) && root in t && Enumerates(t, root, w) && ChildFirst(w) && NoLinkedDirs(t, w)
    requires i <= |w|
    ensures Clear(t - Items(w[..i]), w[i..]).done == FirstLocked(t, w[i..])
    decreases |w| - i
  {
    if i < |w| {
      RemoveStep(t, root, w, i);
      assert w[i..][1..] == w[i + 1..];
      assert Items(w) == Below(t, root) && w[i] in Items(w);
      if CanEdit(t, Parent(w[i])) {
        ClearFrom(t, root, w, i + 1);
      }
    }
  }

  /**
   * clear() stops at the first entry, in child-first order, whose directory is read-only,
   * having removed everything before it; it gets through exactly when every directory
   * below the root, and the root, is writable.
   */
  lemma ClearStopsAtFirstLocked(t: Tree, root: Path, w: seq<Path>)
    requires WellFormed(t) && root in t && Enumerates(t, root, w) && ChildFirst(w) && NoLinkedDirs(t, w)
    ensures Clear(t, w).done == FirstLocked(t, w)
    ensures Clear(t, w).tree == t - Items(w[..FirstLocked(t, w)])
  {
    assert w[..0] == [] && w[0..] == w;
    assert Items(w[..0]) == {};
    assert t - Items(w[..0]) == t;
    ClearFrom(t, root, w, 0);
  }

  /** After a clear() that gets through, the root is still there and has nothing below it. */
  lemma ClearEmpties(t: Tree, root: Path, w: seq<Path>)
    requires WellFormed(t) && root in t && Enumerates(t, root, w)
    requires Clear(t, w).done == |w|
    ensures Clear(t, w).tree == t - Below(t, root)
    ensures root in Clear(t, w).tree && NoChildren(Clear(t, w).tree, root)
  {
    assert w[..|w|] == w;
  }

  lemma RemoveFile(t: Tree, q: Path)
    requires q in t && t[q].File? && q != [] && CanEdit(t, Parent(q))
    ensures Remove(t, q) == Some(t - {q})
  {
  }

  /** The tree of the read-only tests of clear(): /directory/sub holding three files. */
  function SubTree(rootMode: nat, subMode: nat): Tree
  {
    map[
      [] := Dir(AllAccess),
      ["directory"] := Dir(rootMode),
      ["directory", "sub"] := Dir(subMode),
      ["directory", "sub", "some1.file"] := File("", 420),
      ["directory", "sub", "some2.file"] := File("", 420),
      ["directory", "sub", "some3.file"] := File("", 420)]
  }

  /** The child-first order in which the files come before their directory. */
  const SubWalk: seq<Path> := [
    ["directory", "sub", "some1.file"], ["directory", "sub", "some2.file"], ["directory", "sub", "some3.file"],
    ["directory", "sub"]]

  /** An entry clear() removes counts one, and the walk goes on from the smaller tree. */
  lemma ClearCons(t: Tree, w: seq<Path>, u: Tree)
    requires w != [] && Remove(t, w[0]) == Some(u)
    ensures Clear(t, w) == Shifted(Clear(u, w[1..]), 1)
  {
  }

  /** The tree of those tests once its three files are gone. */
  function SubDirsOnly(rootMode: nat, subMode: nat): Tree
  {
    map[[] := Dir(AllAccess), ["directory"] := Dir(rootMode), ["directory", "sub"] := Dir(subMode)]
  }

  /** What is left of the tree of those tests once its three files are gone. */
  lemma SubTreeWithoutFiles(rootMode: nat, subMode: nat)
    ensures SubTree(rootMode, subMode) - {SubWalk[0]} - {SubWalk[1]} - {SubWalk[2]} == SubDirsOnly(rootMode, subMode)
  {
  }

  /** 0555 lacks the owner's write bit. */
  lemma ReadOnlyMode()
    ensures !HasBit(365, WriteBit)
  {
    assert 365 / 128 == 2;
  }

  /** Under a writable subdirectory the three files of those tests go one after the other. */
  lemma ClearSubFiles(rootMode: nat)
    ensures Clear(SubTree(rootMode, 493), SubWalk) == Shifted(Clear(SubDirsOnly(rootMode, 493), SubWalk[3..]), 3)
  {
    var w := SubWalk;
    var t0 := SubTree(rootMode, 493);
    var t1 := t0 - {w[0]};
    var t2 := t1 - {w[1]};
    SubTreeWithoutFiles(rootMode, 493);
    assert Parent(w[0]) == ["directory", "sub"];
    RemoveFile(t0, w[0]);
    ClearCons(t0, w, t1);
    assert Parent(w[1]) == ["directory", "sub"];
    RemoveFile(t1, w[1]);
    ClearCons(t1, w[1..], t2);
    assert Parent(w[2]) == ["directory", "sub"];
    RemoveFile(t2, w[2]);
    assert w[1..][1..] == w[2..] && w[2..][1..] == w[3..];
    ClearCons(t2, w[2..], SubDirsOnly(rootMode, 493));
  }

  /** A read-only root (0555): the files go, the subdirectory stays, and clear() throws there. */
  lemma ClearReadOnlyRoot()
    ensures var r := Clear(SubTree(365, 493), SubWalk);
      r.done == 3 && r.tree == map[[] := Dir(AllAccess), ["directory"] := Dir(365), ["directory", "sub"] := Dir(493)]
  {
    ClearSubFiles(365);
    var t3 := SubDirsOnly(365, 493);
    var w := SubWalk[3..];
    assert w == [["directory", "sub"]];
    assert Remove(t3, w[0]).None? by {
      assert Parent(w[0]) == ["directory"];
      ReadOnlyMode();
      assert IsDir(t3, w[0]) && !CanEdit(t3, Parent(w[0]));
    }
    assert Clear(t3, w) == Run(t3, 0);
  }

  /** A read-only subdirectory (0555): clear() throws at the first file and nothing is removed. */
  lemma ClearReadOnlySub()
    ensures Clear(SubTree(493, 365), SubWalk) == Run(SubTree(493, 365), 0)
  {
    var t := SubTree(493, 365);
    assert Remove(t, SubWalk[0]).None? by {
      assert !CanEdit(t, ["directory", "sub"]);
    }
  }

  // ---------------------------------------------------------------- makeWritableForAll

  /** makeWritableForAll(): chmod(0777) on the entries of the walk, up to the first refusal. */
  function ChmodAll(t: Tree, foreign: set<Path>, w: seq<Path>): (r: Run)
    ensures r.done <= |w|
    ensures WellFormed(t) ==> WellFormed(r.tree)
    ensures r.done < |w| ==> Chmod(r.tree, foreign, w[r.done], AllAccess).None?
  {
    if w == [] then Run(t, 0)
    else match Chmod(t, foreign, w[0], AllAccess)
      case None => Run(t, 0)
      case Some(u) => Shifted(ChmodAll(u, foreign, w[1..]), 1)
  }

  /** Two trees with the same pathnames, the same links and the same kinds of entry. */
  predicate SameShape(t: Tree, u: Tree)
  {
    t.Keys == u.Keys &&
    forall q :: q in t ==> (u[q].Dir? <==> t[q].Dir?) && (u[q].Link? <==> t[q].Link?) && (t[q].Link? ==> u[q] == t[q])
  }

  lemma SameShapeResolves(t: Tree, u: Tree, p: Path)
    requires SameShape(t, u)
    ensures Resolve(u, p) == Resolve(t, p)
    ensures FileExists(u, p) == FileExists(t, p) && IsDir(u, p) == IsDir(t, p)
  {
  }

  /** The entry a chmod() changes; that is also what it changes. */
  lemma ChmodChanges(t: Tree, foreign: set<Path>, p: Path, mode: nat)
    requires Chmod(t, foreign, p, mode).Some?
    ensures var u := Chmod(t, foreign, p, mode).value;
      SameShape(t, u) && u[Resolve(t, p)].mode == mode &&
      forall q :: q in t && q != Resolve(t, p) ==> u[q] == t[q]
  {
  }

  /** The first entry of the walk that chmod() refuses: nothing there, or another user's. */
  function FirstRefused(t: Tree, foreign: set<Path>, w: seq<Path>): (r: nat)
    ensures r <= |w|
    ensures forall i :: 0 <= i < r ==> FileExists(t, w[i]) && Resolve(t, w[i]) !in foreign
    ensures r < |w| ==> !FileExists(t, w[r]) || Resolve(t, w[r]) in foreign
  {
    if w == [] then 0
    else if FileExists(t, w[0]) && Resolve(t, w[0]) !in foreign then 1 + FirstRefused(t, foreign, w[1..])
    else 0
  }

  /** chmod() along the walk keeps the shape of the tree and stops at the first refusal. */
  lemma {:induction false} ChmodAllShape(t: Tree, foreign: set<Path>, w: seq<Path>)
    ensures var r := ChmodAll(t, foreign, w);
      SameShape(t, r.tree) && r.done == FirstRefused(t, foreign, w)
  {
    if w != [] && Chmod(t, foreign, w[0], AllAccess).Some? {
      var u := Chmod(t, foreign, w[0], AllAccess).value;
      ChmodChanges(t, foreign, w[0], AllAccess);
      ChmodAllShape(u, foreign, w[1..]);
      FirstRefusedShape(t, u, foreign, w[1..]);
    }
  }

  /** An entry that no chmod() of the walk reached is as it was. */
  lemma {:induction false} ChmodAllUntouched(t: Tree, foreign: set<Path>, w: seq<Path>)
    ensures var r := ChmodAll(t, foreign, w);
      forall q :: q in t && (forall i :: 0 <= i < r.done ==> Resolve(t, w[i]) != q) ==> q in r.tree && r.tree[q] == t[q]
  {
    if w != [] && Chmod(t, foreign, w[0], AllAccess).Some? {
      var u := Chmod(t, foreign, w[0], AllAccess).value;
      ChmodChanges(t, foreign, w[0], AllAccess);
      ChmodAllUntouched(u, foreign, w[1..]);
      var r' := ChmodAll(u, foreign, w[1..]);
      var r := ChmodAll(t, foreign, w);
      assert r.tree == r'.tree && r.done == r'.done + 1;
      forall q | q in t && (forall i :: 0 <= i < r.done ==> Resolve(t, w[i]) != q)
        ensures q in r.tree && r.tree[q] == t[q]
      {
        assert Resolve(t, w[0]) != q;
        forall i | 0 <= i < r'.done
          ensures Resolve(u, w[1..][i]) != q
        {
          assert w[1..][i] == w[i + 1];
          SameShapeResolves(t, u, w[i + 1]);
          assert Resolve(t, w[i + 1]) != q;
        }
      }
    }
  }

  /** Every entry before the first refusal leads to mode 0777. */
  lemma {:induction false} ChmodAllModes(t: Tree, foreign: set<Path>, w: seq<Path>)
    ensures var r := ChmodAll(t, foreign, w);
      forall i :: 0 <= i < r.done ==>
        FileExists(r.tree, w[i]) && Resolve(t, w[i]) in r.tree && !r.tree[Resolve(t, w[i])].Link? &&
        r.tree[Resolve(t, w[i])].mode == AllAccess
  {
    if w != [] && Chmod(t, foreign, w[0], AllAccess).Some? {
      var u := Chmod(t, foreign, w[0], AllAccess).value;
      ChmodChanges(t, foreign, w[0], AllAccess);
      ChmodAllModes(u, foreign, w[1..]);
      ChmodAllShape(u, foreign, w[1..]);
      ChmodAllUntouched(u, foreign, w[1..]);
      var r' := ChmodAll(u, foreign, w[1..]);
      var r := ChmodAll(t, foreign, w);
      assert r.tree == r'.tree && r.done == r'.done + 1;
      var d := Resolve(t, w[0]);
      assert d in r'.tree && !r'.tree[d].Link? && r'.tree[d].mode == AllAccess by {
        if forall i :: 0 <= i < r'.done ==> Resolve(u, w[1..][i]) != d {
        } else {
          var i :| 0 <= i < r'.done && Resolve(u, w[1..][i]) == d;
          assert r'.tree[Resolve(u, w[1..][i])].mode == AllAccess;
        }
      }
      forall i | 0 <= i < r.done
        ensures FileExists(r.tree, w[i]) && Resolve(t, w[i]) in r.tree && !r.tree[Resolve(t, w[i])].Link? &&
        r.tree[Resolve(t, w[i])].mode == AllAccess
      {
        SameShapeResolves(u, r.tree, w[i]);
        SameShapeResolves(t, u, w[i]);
        if i > 0 {
          assert w[1..][i - 1] == w[i];
        }
      }
    }
  }

  /**
   * The walk stops at the first entry chmod() refuses.  Before it, every entry leads to
   * mode 0777; nothing else changes mode, and no entry changes kind.
   */
  lemma ChmodAllOutcome(t: Tree, foreign: set<Path>, w: seq<Path>)
    ensures var r := ChmodAll(t, foreign, w);
      SameShape(t, r.tree) && r.done == FirstRefused(t, foreign, w) &&
      (forall i :: 0 <= i < r.done ==> FileExists(r.tree, w[i]) && r.tree[Resolve(t, w[i])].mode == AllAccess) &&
      (forall q :: q in t && (forall i :: 0 <= i < r.done ==> Resolve(t, w[i]) != q) ==> r.tree[q] == t[q])
  {
    ChmodAllShape(t, foreign, w);
    ChmodAllUntouched(t, foreign, w);
    ChmodAllModes(t, foreign, w);
  }

  /**
   * When every chmod() of the walk and the last one, on the root, go through, the root and
   * every entry of the walk lead to mode 0777.
   */
  lemma AllWritable(t: Tree, foreign: set<Path>, w: seq<Path>, p: Path)
    requires ChmodAll(t, foreign, w).done == |w|
    requires Chmod(ChmodAll(t, foreign, w).tree, foreign, p, AllAccess).Some?
    ensures var u := Chmod(ChmodAll(t, foreign, w).tree, foreign, p, AllAccess).value;
      FileExists(u, p) && Stat(u, p).value.mode == AllAccess &&
      forall i :: 0 <= i < |w| ==> FileExists(u, w[i]) && Stat(u, w[i]).value.mode == AllAccess
  {
    var r := ChmodAll(t, foreign, w);
    ChmodAllOutcome(t, foreign, w);
    ChmodChanges(r.tree, foreign, p, AllAccess);
    var u := Chmod(r.tree, foreign, p, AllAccess).value;
    forall i | 0 <= i < |w|
      ensures FileExists(u, w[i]) && Stat(u, w[i]).value.mode == AllAccess
    {
      SameShapeResolves(t, r.tree, w[i]);
      SameShapeResolves(r.tree, u, w[i]);
    }
  }

  lemma {:induction false} FirstRefusedShape(t: Tree, u: Tree, foreign: set<Path>, w: seq<Path>)
    requires SameShape(t, u)
    ensures FirstRefused(u, foreign, w) == FirstRefused(t, foreign, w)
  {
    if w != [] {
      SameShapeResolves(t, u, w[0]);
      FirstRefusedShape(t, u, foreign, w[1..]);
    }
  }

  // ---------------------------------------------------------------- copyTo / coping

  /** Where coping() stopped: the mkdir, the copy or the chmod of one entry. */
  datatype Stage = MkdirFailed | CopyFailed | ChmodFailed

  datatype Copying = Copying(tree: Tree, done: nat, failed: Option<Stage>)

  /**
   * One entry of coping(), with `m` its place in the destination.  A directory (not a
   * link to one) gets a directory made there unless one is there already; anything else
   * is copied there and given `filemode`, unless something exists there already.
   */
  function CopyOne(t: Tree, foreign: set<Path>, q: Path, m: Path, dirmode: nat, filemode: nat): (r: (Tree, Option<Stage>))
    ensures Keeps(t, r.0)
    ensures WellFormed(t) ==> WellFormed(r.0)
  {
    if q in t && t[q].Dir? then
      if IsDir(t, m) then (t, None)
      else match Mkdir(t, m, dirmode)
        case None => (t, Some(MkdirFailed))
        case Some(u) => (u, None)
    else if FileExists(t, m) then (t, None)
    else match Copy(t, q, m)
      case None => (t, Some(CopyFailed))
      case Some(u) =>
        assert Resolve(t, m) !in t && Resolve(u, m) == Resolve(t, m);
        match Chmod(u, foreign, m, filemode)
        case None => (u, Some(ChmodFailed))
        case Some(v) => (v, None)
  }

  /** coping() over a parent-first walk of `root`, mirrored below `dest`, up to the first failure. */
  function CopyAll(t: Tree, foreign: set<Path>, root: Path, dest: Path, w: seq<Path>, dirmode: nat, filemode: nat): (r: Copying)
    requires forall i :: 0 <= i < |w| ==> Above(root, w[i])
    ensures r.done <= |w| && (r.failed.None? <==> r.done == |w|)
    ensures Keeps(t, r.tree)
    ensures WellFormed(t) ==> WellFormed(r.tree)
    decreases |w|
  {
    if w == [] then Copying(t, 0, None)
    else
      var s := CopyOne(t, foreign, w[0], Rebase(w[0], root, dest), dirmode, filemode);
      if s.1.Some? then Copying(s.0, 0, s.1)
      else
        var r := CopyAll(s.0, foreign, root, dest, w[1..], dirmode, filemode);
        Copying(r.tree, r.done + 1, r.failed)
  }

  /**
   * The exception coping() raises where it stopped: about the directory it could not
   * make, the file it could not copy, or the copy whose mode it could not set.
   */
  function CopyError(root: Path, dest: Path, w: seq<Path>, run: Copying): (r: Result<()>)
    requires forall i :: 0 <= i < |w| ==> Above(root, w[i])
    requires run.done <= |w| && (run.failed.None? <==> run.done == |w|)
    ensures r.Ok? <==> run.failed.None?
    ensures r.Err? ==> r.error.Runtime? && r.error.message != ""
  {
    match run.failed
    case None => Ok(())
    case Some(stage) =>
      var target := Render(Rebase(w[run.done], root, dest));
      match stage
      case MkdirFailed => Err(Runtime("Failed to create directory.", target))
      case CopyFailed => Err(Runtime("Failed to copy the file to " + target + ".", Render(w[run.done])))
      case ChmodFailed => Err(Runtime("Failed to change permissions.", target))
  }

  /** Neither of two directories lies within the other. */
  predicate Apart(a: Path, b: Path)
  {
    a != b && !Above(a, b) && !Above(b, a)
  }

  /** No symbolic link lies at or below `base`. */
  predicate NoLinksAt(t: Tree, base: Path)
  {
    forall p :: p in t && (p == base || Above(base, p)) ==> !t[p].Link?
  }

  /** What a copy that got through leaves at the place of entry `q`. */
  predicate Mirrored(t: Tree, r: Tree, q: Path, m: Path, dirmode: nat, filemode: nat)
    requires q in t
  {
    (t[q].Dir? ==> IsDir(r, m) && (m !in t ==> r[m] == Dir(dirmode))) &&
    (!t[q].Dir? ==> FileExists(r, m)) &&
    (t[q].File? && m !in t ==> r[m] == File(t[q].content, filemode))
  }

  lemma CopyOneMirrors(t: Tree, foreign: set<Path>, q: Path, m: Path, dirmode: nat, filemode: nat)
    requires q in t && !Above(q, m) && q != m && NoLinksAt(t, m)
    requires CopyOne(t, foreign, q, m, dirmode, filemode).1.None?
    ensures var u := CopyOne(t, foreign, q, m, dirmode, filemode).0;
      Mirrored(t, u, q, m, dirmode, filemode) && u.Keys <= t.Keys + {m} && (m in u ==> !u[m].Link?)
  {
    var u := CopyOne(t, foreign, q, m, dirmode, filemode).0;
    if !t[q].Dir? && !FileExists(t, m) {
      assert m !in t;
      var c := Copy(t, q, m).value;
      assert c == t[m := File(Stat(t, q).value.content, CreateMode)];
      assert u == c[m := File(Stat(t, q).value.content, filemode)];
    }
  }

  /**
   * On a copy that gets through, every entry below the source has its counterpart below
   * the destination: a directory for a directory, something for anything else.  What was
   * made fresh is a directory with `dirmode`, or a file with the source's content and
   * `filemode`; and (by CopyAll's contract) nothing that was there before is changed.
   * Nothing appears outside the mirrors.
   */
  lemma {:induction false} CopyAllMirrors(t: Tree, foreign: set<Path>, root: Path, dest: Path, w: seq<Path>, dirmode: nat, filemode: nat)
    requires Distinct(w) && forall i :: 0 <= i < |w| ==> Above(root, w[i]) && w[i] in t
    requires Apart(root, dest) && NoLinksAt(t, dest)
    requires CopyAll(t, foreign, root, dest, w, dirmode, filemode).failed.None?
    ensures var r := CopyAll(t, foreign, root, dest, w, dirmode, filemode).tree;
      forall i :: 0 <= i < |w| ==> Mirrored(t, r, w[i], Rebase(w[i], root, dest), dirmode, filemode)
    ensures CopyAll(t, foreign, root, dest, w, dirmode, filemode).tree.Keys <=
      t.Keys + set i | 0 <= i < |w| :: Rebase(w[i], root, dest)
    decreases |w|
  {
    if w != [] {
      var m := Rebase(w[0], root, dest);
      var s := CopyOne(t, foreign, w[0], m, dirmode, filemode);
      assert !Above(w[0], m) && w[0] != m by {
        SeparateTrees(root, dest, w[0], m);
      }
      CopyOneMirrors(t, foreign, w[0], m, dirmode, filemode);
      var u := s.0;
      var r := CopyAll(u, foreign, root, dest, w[1..], dirmode, filemode);
      assert r.tree == CopyAll(t, foreign, root, dest, w, dirmode, filemode).tree;
      assert NoLinksAt(u, dest);
      forall i | 0 <= i < |w[1..]|
        ensures Above(root, w[1..][i]) && w[1..][i] in u
      {
        assert w[1..][i] == w[i + 1];
      }
      ItemsTail(w);
      CopyAllMirrors(u, foreign, root, dest, w[1..], dirmode, filemode);
      forall i | 0 <= i < |w|
        ensures Mirrored(t, r.tree, w[i], Rebase(w[i], root, dest), dirmode, filemode)
      {
        var mi := Rebase(w[i], root, dest);
        if i == 0 {
          MirroredKept(t, u, r.tree, w[0], m, dirmode, filemode);
        } else {
          assert w[1..][i - 1] == w[i];
          assert mi != m by {
            RebaseInjective(w[i], w[0], root, dest);
          }
          assert Mirrored(u, r.tree, w[i], mi, dirmode, filemode);
          assert mi in t <==> mi in u;
        }
      }
    }
    CopyAllKeys(t, foreign, root, dest, w, dirmode, filemode);
  }

  /** A copy walk that gets through adds entries only at the mirrors of the walk. */
  lemma {:induction false} CopyAllKeys(t: Tree, foreign: set<Path>, root: Path, dest: Path, w: seq<Path>, dirmode: nat, filemode: nat)
    requires forall i :: 0 <= i < |w| ==> Above(root, w[i]) && w[i] in t
    requires Apart(root, dest) && NoLinksAt(t, dest)
    requires CopyAll(t, foreign, root, dest, w, dirmode, filemode).failed.None?
    ensures CopyAll(t, foreign, root, dest, w, dirmode, filemode).tree.Keys <=
      t.Keys + set i | 0 <= i < |w| :: Rebase(w[i], root, dest)
    decreases |w|
  {
    if w != [] {
      var m := Rebase(w[0], root, dest);
      assert !Above(w[0], m) && w[0] != m by {
        SeparateTrees(root, dest, w[0], m);
      }
      CopyOneMirrors(t, foreign, w[0], m, dirmode, filemode);
      var u := CopyOne(t, foreign, w[0], m, dirmode, filemode).0;
      var r := CopyAll(u, foreign, root, dest, w[1..], dirmode, filemode);
      assert r.tree == CopyAll(t, foreign, root, dest, w, dirmode, filemode).tree;
      assert NoLinksAt(u, dest);
      forall i | 0 <= i < |w[1..]|
        ensures Above(root, w[1..][i]) && w[1..][i] in u
      {
        assert w[1..][i] == w[i + 1];
      }
      CopyAllKeys(u, foreign, root, dest, w[1..], dirmode, filemode);
      forall q | q in r.tree
        ensures q in t.Keys + set i | 0 <= i < |w| :: Rebase(w[i], root, dest)
      {
        if q !in u && q !in t {
          var i :| 0 <= i < |w[1..]| && q == Rebase(w[1..][i], root, dest);
          assert w[1..][i] == w[i + 1];
        } else if q !in t {
          assert q == m;
        }
      }
    }
  }

  /** What a later step keeps, a counterpart stays. */
  lemma MirroredKept(t: Tree, u: Tree, v: Tree, q: Path, m: Path, dirmode: nat, filemode: nat)
    requires q in t && Mirrored(t, u, q, m, dirmode, filemode) && Keeps(u, v)
    ensures Mirrored(t, v, q, m, dirmode, filemode)
  {
    if t[q].Dir? {
      KeepsStat(u, v, m);
    } else {
      KeepsStat(u, v, m);
    }
  }

  /** An entry below the source is never at or above its place in a destination outside the source. */
  lemma SeparateTrees(root: Path, dest: Path, q: Path, m: Path)
    requires Above(root, q) && m == Rebase(q, root, dest)
    requires Apart(root, dest)
    ensures !Above(q, m) && q != m
  {
  }

  // ---------------------------------------------------------------- the loops, on the host

  method SumFileSizes(h: Host, w: seq<Path>) returns (size: nat)
    ensures size == SumSizes(h.tree, w)
  {
    size := 0;
    var i := 0;
    while i < |w|
      invariant i <= |w| && size + SumSizes(h.tree, w[i..]) == SumSizes(h.tree, w)
    {
      assert w[i..][1..] == w[i + 1..];
      if IsFile(h.tree, w[i]) {
        size := size + SizeOf(h.tree, w[i]);
      }
      i := i + 1;
    }
  }

  /** The foreach of isEmpty(), which breaks out at the first entry. */
  method HasEntry(w: seq<Path>) returns (found: bool)
    ensures found <==> |w| > 0
  {
    found := false;
    for i := 0 to |w|
      invariant found <==> i > 0
    {
      found := true;
      break;
    }
  }

  /** The foreach of clear(); `dir` says whether the entry it stopped at was taken for a directory. */
  method RemoveEach(h: Host, w: seq<Path>) returns (done: nat, dir: bool)
    requires h.Valid()
    modifies h
    ensures h.Valid()
    ensures Run(h.tree, done) == Clear(old(h.tree), w)
    ensures dir <==> done < |w| && IsDir(h.tree, w[done])
  {
    ghost var t0 := h.tree;
    var i := 0;
    while i < |w|
      invariant i <= |w| && h.Valid()
      invariant Clear(t0, w) == Shifted(Clear(h.tree, w[i..]), i)
    {
      assert w[i..][1..] == w[i + 1..];
      var ok;
      if IsDir(h.tree, w[i]) {
        ok := h.Rmdir(w[i]);
      } else {
        ok := h.Unlink(w[i]);
      }
      if !ok {
        return i, IsDir(h.tree, w[i]);
      }
      i := i + 1;
    }
    return |w|, false;
  }

  /** The foreach of makeWritableForAll(). */
  method ChmodEach(h: Host, w: seq<Path>) returns (done: nat)
    requires h.Valid()
    modifies h
    ensures h.Valid()
    ensures Run(h.tree, done) == ChmodAll(old(h.tree), h.foreign, w)
  {
    ghost var t0 := h.tree;
    var i := 0;
    while i < |w|
      invariant i <= |w| && h.Valid()
      invariant ChmodAll(t0, h.foreign, w) == Shifted(ChmodAll(h.tree, h.foreign, w[i..]), i)
    {
      assert w[i..][1..] == w[i + 1..];
      var ok := h.Chmod(w[i], AllAccess);
      if !ok {
        return i;
      }
      i := i + 1;
    }
    return |w|;
  }

  /** The recursion of coping(), run as one loop over its parent-first visit order. */
  method CopyEach(h: Host, root: Path, dest: Path, w: seq<Path>, dirmode: nat, filemode: nat)
    returns (done: nat, failed: Option<Stage>)
    requires h.Valid() && forall i :: 0 <= i < |w| ==> Above(root, w[i])
    modifies h
    ensures h.Valid()
    ensures Copying(h.tree, done, failed) == CopyAll(old(h.tree), h.foreign, root, dest, w, dirmode, filemode)
  {
    ghost var t0 := h.tree;
    var i := 0;
    while i < |w|
      invariant i <= |w| && h.Valid()
      invariant var r := CopyAll(h.tree, h.foreign, root, dest, w[i..], dirmode, filemode);
        CopyAll(t0, h.foreign, root, dest, w, dirmode, filemode) == Copying(r.tree, r.done + i, r.failed)
    {
      assert w[i..][1..] == w[i + 1..];
      var q := w[i];
      var m := Rebase(q, root, dest);
      ghost var before := h.tree;
      ghost var step := CopyOne(before, h.foreign, q, m, dirmode, filemode);
      if q in h.tree && h.tree[q].Dir? {
        if !IsDir(h.tree, m) {
          var ok := h.Mkdir(m, dirmode);
          if !ok {
            return i, Some(MkdirFailed);
          }
        }
      } else if !FileExists(h.tree, m) {
        var ok := h.Copy(q, m);
        if !ok {
          return i, Some(CopyFailed);
        }
        ok := h.Chmod(m, filemode);
        if !ok {
          return i, Some(ChmodFailed);
        }
      }
      assert step == (h.tree, None);
      i := i + 1;
    }
    return |w|, None;
  }
}
