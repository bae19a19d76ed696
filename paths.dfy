/**
 * Paths as sequences of names below the root: `[]` is "/", `["tmp", "a.txt"]` is "/tmp/a.txt".
 * Components are never empty and never "." or "..": the model works on normalised paths.
 */
module Paths {
  type Path = seq<string>

  /** `a` is a proper ancestor of `b`. */
  predicate Above(a: Path, b: Path)
  {
    |a| < |b| && b[..|a|] == a
  }

  function Parent(p: Path): (r: Path)
    requires p != []
    ensures Above(r, p) && |r| == |p| - 1
  {
    p[..|p| - 1]
  }

  /** The directory a pathname lies in; the root is its own. */
  function Dirname(p: Path): (r: Path)
    ensures p != [] ==> Above(r, p) && |r| + 1 == |p|
    ensures p == [] ==> r == []
  {
    if p == [] then [] else Parent(p)
  }

  /** The last component, as PHP's basename(); empty for the root. */
  function Basename(p: Path): string
  {
    if p == [] then "" else p[|p| - 1]
  }

  /** The path `q`, which lies below `from`, moved to lie below `to` instead. */
  function Rebase(q: Path, from: Path, to: Path): (r: Path)
    requires Above(from, q)
    ensures Above(to, r) && |r| - |to| == |q| - |from|
    ensures r[|to|..] == q[|from|..]
  {
    to + q[|from|..]
  }

  lemma RebaseInjective(q1: Path, q2: Path, from: Path, to: Path)
    requires Above(from, q1) && Above(from, q2) && q1 != q2
    ensures Rebase(q1, from, to) != Rebase(q2, from, to)
  {
    if |q1| == |q2| {
      var k :| 0 <= k < |q1| && q1[k] != q2[k];
      assert q1[..|from|] == q2[..|from|];
      assert k >= |from|;
      assert Rebase(q1, from, to)[|to| + (k - |from|)] != Rebase(q2, from, to)[|to| + (k - |from|)];
    }
  }

  /** Ancestry is preserved by moving both paths to the same new place. */
  lemma RebaseAbove(q1: Path, q2: Path, from: Path, to: Path)
    requires Above(from, q1) && Above(from, q2)
    ensures Above(q1, q2) <==> Above(Rebase(q1, from, to), Rebase(q2, from, to))
  {
    var r1, r2 := Rebase(q1, from, to), Rebase(q2, from, to);
    if Above(q1, q2) {
      assert r2[..|r1|] == to + q2[|from|..|q1|];
      assert q2[|from|..|q1|] == q1[|from|..];
    }
    if Above(r1, r2) {
      assert q2[..|q1|] == q2[..|from|] + q2[|from|..|q1|];
      assert r2[|to|..|r1|] == q2[|from|..|q1|];
      assert r1[|to|..] == q1[|from|..];
      assert q1 == q1[..|from|] + q1[|from|..];
    }
  }

  /** The pathname as a string: components joined by "/", the root as "/" itself. */
  function Render(p: Path): (r: string)
    ensures r != []
  {
    if p == [] then "/" else Joined(p)
  }

  function Joined(p: Path): string
  {
    if p == [] then "" else Joined(p[..|p| - 1]) + "/" + p[|p| - 1]
  }

  /** Appending a name to a directory's pathname, as the sources' `dir . '/' . name`. */
  lemma RenderChild(dir: Path, name: string)
    ensures Render(dir + [name]) == (if dir == [] then "" else Render(dir)) + "/" + name
  {
    var p := dir + [name];
    assert p[..|p| - 1] == dir && p[|p| - 1] == name;
    assert Joined(p) == Joined(dir) + "/" + name;
  }

  /** The position of the last '.' in a name, if there is one. */
  function LastDot(name: string): (r: int)
    ensures -1 <= r < |name|
    ensures r >= 0 ==> name[r] == '.'
    ensures forall k :: r < k < |name| ==> name[k] != '.'
  {
    if name == [] then -1
    else if name[|name| - 1] == '.' then |name| - 1
    else LastDot(name[..|name| - 1])
  }

  /** pathinfo()'s extension: what follows the last '.' of the base name, "" when there is no '.'. */
  function Extension(name: string): (r: string)
    ensures '.' !in r
    ensures '.' in name ==> |r| < |name| && name == name[..|name| - |r| - 1] + "." + r
    ensures '.' !in name ==> r == ""
  {
    var d := LastDot(name);
    if d < 0 then "" else name[d + 1..]
  }

  /**
   * The name a copied file gets: the source's own base name, or the given name
   * followed by the source's extension ("test.file" copied as "new_test" becomes "new_test.file").
   */
  function TargetName(basename: string, filename: string): string
  {
    if filename == "" then basename else filename + "." + Extension(basename)
  }

  lemma TargetNameKeepsExtension(basename: string, filename: string)
    requires filename != ""
    ensures Extension(TargetName(basename, filename)) == Extension(basename)
  {
    var e := Extension(basename);
    var t := TargetName(basename, filename);
    assert t == filename + "." + e;
    assert t[|filename|] == '.';
    assert LastDot(t) == |filename|;
  }

  lemma TargetNameExample()
    ensures TargetName("test.file", "new_test") == "new_test.file"
    ensures TargetName("test.file", "") == "test.file"
  {
    var n := "test.file";
    assert n[4] == '.' && n[5..] == "file";
    assert forall k :: 0 <= k < |n| && k != 4 ==> n[k] != '.';
  }
}
