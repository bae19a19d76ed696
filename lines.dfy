/**
 * Text as the runtime reads it: the line stream an SplFileObject walks (the text cut
 * after every newline, the last piece possibly empty), the same stream with line
 * endings dropped, the array PHP's file() returns, and the string functions the
 * line searches use (trim, explode, strpos).
 */
module Lines {
  import opened Wrappers

  /** A piece of the stream that ends with its newline and holds no other. */
  predicate Terminated(l: string)
  {
    |l| > 0 && l[|l| - 1] == '\n' && '\n' !in l[..|l| - 1]
  }

  /** The shape of every line stream: terminated lines, then one last piece without a newline. */
  predicate IsStream(r: seq<string>)
  {
    |r| > 0 && (forall i :: 0 <= i < |r| - 1 ==> Terminated(r[i])) && '\n' !in r[|r| - 1]
  }

  /** The lines an SplFileObject yields for a text; an empty text is one empty line. */
  function SplitLines(s: string): (r: seq<string>)
    ensures |r| > 0
  {
    if s == [] then [""]
    else if s[0] == '\n' then ["\n"] + SplitLines(s[1..])
    else var rest := SplitLines(s[1..]); [[s[0]] + rest[0]] + rest[1..]
  }

  function Concat(ls: seq<string>): string
  {
    if ls == [] then "" else ls[0] + Concat(ls[1..])
  }

  function Count(s: string, c: char): nat
  {
    if s == [] then 0 else (if s[0] == c then 1 else 0) + Count(s[1..], c)
  }

  /** Reading the whole stream gives the text back. */
  lemma {:induction false} ConcatSplit(s: string)
    ensures Concat(SplitLines(s)) == s
  {
    if s != [] {
      ConcatSplit(s[1..]);
      var rest := SplitLines(s[1..]);
      if s[0] != '\n' {
        assert Concat(rest) == rest[0] + Concat(rest[1..]);
        assert s == [s[0]] + s[1..];
      }
    }
  }

  /** There is one line more than there are newlines. */
  lemma {:induction false} SplitCount(s: string)
    ensures |SplitLines(s)| == Count(s, '\n') + 1
  {
    if s != [] {
      SplitCount(s[1..]);
    }
  }

  lemma {:induction false} SplitShape(s: string)
    ensures IsStream(SplitLines(s))
  {
    if s != [] {
      SplitShape(s[1..]);
      var rest := SplitLines(s[1..]);
      var r := SplitLines(s);
      if s[0] == '\n' {
        assert r[1..] == rest;
        assert Terminated(r[0]) by { assert r[0] == "\n"; }
      } else {
        var h := [s[0]] + rest[0];
        assert r == [h] + rest[1..];
        if |rest| > 1 {
          assert Terminated(rest[0]);
          assert h[..|h| - 1] == [s[0]] + rest[0][..|rest[0]| - 1];
        }
        forall i | 1 <= i < |r| - 1 ensures Terminated(r[i]) {
          assert r[i] == rest[i];
        }
      }
    }
  }

  /** A text without newline is one line, and what follows a newline starts a fresh line. */
  lemma {:induction false} SplitAfterLine(l: string, x: string)
    requires '\n' !in l
    ensures SplitLines(l + x) == [l + SplitLines(x)[0]] + SplitLines(x)[1..]
  {
    if l != [] {
      SplitAfterLine(l[1..], x);
      assert (l + x)[1..] == l[1..] + x;
      assert l + SplitLines(x)[0] == [l[0]] + (l[1..] + SplitLines(x)[0]);
    } else {
      assert l + x == x;
      assert l + SplitLines(x)[0] == SplitLines(x)[0];
      assert SplitLines(x) == [SplitLines(x)[0]] + SplitLines(x)[1..];
    }
  }

  lemma StreamTail(r: seq<string>)
    requires IsStream(r) && |r| > 1
    ensures IsStream(r[1..]) && Terminated(r[0])
  {
    forall i | 0 <= i < |r[1..]| - 1 ensures Terminated(r[1..][i]) {
      assert r[1..][i] == r[i + 1];
    }
  }

  lemma SplitNewline(c: string)
    ensures SplitLines("\n" + c) == ["\n"] + SplitLines(c)
  {
    assert ("\n" + c)[1..] == c;
  }

  /** Any stream-shaped sequence is the stream of its own concatenation: the cut is unique. */
  lemma {:induction false} SplitConcat(r: seq<string>)
    requires IsStream(r)
    ensures SplitLines(Concat(r)) == r
  {
    if |r| == 1 {
      assert Concat(r) == r[0] + "" == r[0];
      SplitAfterLine(r[0], "");
      assert SplitLines("") == [""];
    } else {
      SplitConcat(r[1..]);
      SplitConcatStep(r);
    }
  }

  /** A terminated line in front of a text is one line more in front of its stream. */
  lemma SplitTerminated(x: string, c: string)
    requires Terminated(x)
    ensures SplitLines(x + c) == [x] + SplitLines(c)
  {
    var l := x[..|x| - 1];
    assert x == l + "\n";
    assert x + c == l + ("\n" + c);
    SplitNewline(c);
    SplitAfterLine(l, "\n" + c);
  }

  /** One line more in front of a stream that is already its own split. */
  lemma SplitConcatStep(r: seq<string>)
    requires IsStream(r) && |r| > 1 && SplitLines(Concat(r[1..])) == r[1..]
    ensures SplitLines(Concat(r)) == r
  {
    StreamTail(r);
    SplitTerminated(r[0], Concat(r[1..]));
    assert [r[0]] + r[1..] == r;
  }

  /** Line ending as SplFileObject::DROP_NEW_LINE removes it: "\n", or "\r\n". */
  function DropNewline(l: string): (r: string)
    ensures r == l || r + "\n" == l || r + "\r\n" == l
    ensures l == "" ==> r == ""
    ensures l != "" && '\n' !in l[..|l| - 1] ==> '\n' !in r
  {
    if |l| > 0 && l[|l| - 1] == '\n' then
      var u := l[..|l| - 1];
      if |u| > 0 && u[|u| - 1] == '\r' then u[..|u| - 1] else u
    else l
  }

  function DropAll(ls: seq<string>): (r: seq<string>)
    ensures |r| == |ls|
    ensures forall i :: 0 <= i < |ls| ==> r[i] == DropNewline(ls[i])
  {
    if ls == [] then [] else [DropNewline(ls[0])] + DropAll(ls[1..])
  }

  /** The lines an SplFileObject with DROP_NEW_LINE yields. */
  function DroppedLines(s: string): seq<string>
  {
    DropAll(SplitLines(s))
  }

  /** Lines joined back with newlines. */
  function JoinLines(ls: seq<string>): string
  {
    if ls == [] then "" else if |ls| == 1 then ls[0] else ls[0] + "\n" + JoinLines(ls[1..])
  }

  /** The dropped stream has as many lines as the plain one, none holding a newline. */
  lemma DroppedShape(s: string)
    ensures |DroppedLines(s)| == Count(s, '\n') + 1
    ensures forall i :: 0 <= i < |DroppedLines(s)| ==> '\n' !in DroppedLines(s)[i]
  {
    SplitCount(s);
    SplitShape(s);
    var r := SplitLines(s);
    forall i | 0 <= i < |r| ensures '\n' !in DropNewline(r[i]) {
      if i < |r| - 1 {
        assert Terminated(r[i]);
      } else {
        assert DropNewline(r[i]) == r[i];
      }
    }
  }

  lemma {:induction false} JoinDropped(r: seq<string>)
    requires IsStream(r)
    requires forall i :: 0 <= i < |r| - 1 ==> (|r[i]| < 2 || r[i][|r[i]| - 2] != '\r')
    ensures JoinLines(DropAll(r)) == Concat(r)
  {
    if |r| == 1 {
      assert Concat(r) == r[0];
    } else {
      assert r[0] == DropNewline(r[0]) + "\n";
      assert IsStream(r[1..]) by {
        forall i | 0 <= i < |r[1..]| - 1 ensures Terminated(r[1..][i]) {
          assert r[1..][i] == r[i + 1];
        }
      }
      forall i | 0 <= i < |r[1..]| - 1 ensures |r[1..][i]| < 2 || r[1..][i][|r[1..][i]| - 2] != '\r' {
        assert r[1..][i] == r[i + 1];
      }
      JoinDropped(r[1..]);
      assert DropAll(r)[1..] == DropAll(r[1..]);
    }
  }

  /** Without "\r\n" line endings, joining the dropped lines with newlines restores the text. */
  lemma NoCarriageReturnJoin(s: string)
    requires '\r' !in s
    ensures JoinLines(DroppedLines(s)) == s
  {
    SplitShape(s);
    ConcatSplit(s);
    var r := SplitLines(s);
    forall i | 0 <= i < |r| - 1 ensures |r[i]| < 2 || r[i][|r[i]| - 2] != '\r' {
      if |r[i]| >= 2 {
        PieceOfText(r, i, |r[i]| - 2);
      }
    }
    JoinDropped(r);
  }

  /** Every character of a piece is a character of the whole text. */
  lemma {:induction false} PieceOfText(r: seq<string>, i: nat, k: nat)
    requires i < |r| && k < |r[i]|
    ensures r[i][k] in Concat(r)
  {
    if i == 0 {
      assert Concat(r) == r[0] + Concat(r[1..]);
      assert Concat(r)[k] == r[0][k];
    } else {
      PieceOfText(r[1..], i - 1, k);
      assert Concat(r) == r[0] + Concat(r[1..]);
    }
  }

  /** What PHP's file() returns: the stream without its final piece when that piece is empty. */
  function FileLines(s: string): (r: seq<string>)
    ensures Concat(r) == s
    ensures s == "" ==> r == []
    ensures s != "" ==> |r| > 0 && r[|r| - 1] != ""
  {
    var l := SplitLines(s);
    ConcatSplit(s);
    SplitShape(s);
    assert |l| == 1 ==> Concat(l) == l[0];
    if l[|l| - 1] == "" then
      assert s != "" ==> |l| > 1 && Terminated(l[|l| - 2]);
      assert Concat(l) == Concat(l[..|l| - 1]) + "" by { ConcatDrop(l); }
      l[..|l| - 1]
    else l
  }

  lemma {:induction false} ConcatDrop(l: seq<string>)
    requires |l| > 0
    ensures Concat(l) == Concat(l[..|l| - 1]) + l[|l| - 1]
  {
    if |l| > 1 {
      ConcatDrop(l[1..]);
      assert l[1..][..|l| - 2] == l[..|l| - 1][1..];
    }
  }

  /** The characters PHP's trim() removes by default. */
  predicate IsBlank(c: char)
  {
    c == ' ' || c == '\t' || c == '\n' || c == '\r' || c == '\0' || c == '\U{000B}'
  }

  function TrimLeft(s: string): (r: string)
    ensures |r| <= |s| && r == s[|s| - |r|..]
    ensures forall k :: 0 <= k < |s| - |r| ==> IsBlank(s[k])
    ensures r != [] ==> !IsBlank(r[0])
  {
    if s != [] && IsBlank(s[0]) then TrimLeft(s[1..]) else s
  }

  function TrimRight(s: string): (r: string)
    ensures |r| <= |s| && r == s[..|r|]
    ensures forall k :: |r| <= k < |s| ==> IsBlank(s[k])
    ensures r != [] ==> !IsBlank(r[|r| - 1])
  {
    if s != [] && IsBlank(s[|s| - 1]) then TrimRight(s[..|s| - 1]) else s
  }

  /** trim(): the text between the leading and the trailing blanks. */
  function Trim(s: string): string
  {
    TrimRight(TrimLeft(s))
  }

  /** trim() keeps a slice of the text. */
  lemma TrimSlice(s: string)
    ensures var i := |s| - |TrimLeft(s)|; i + |Trim(s)| <= |s| && Trim(s) == s[i..i + |Trim(s)|]
  {
    var l := TrimLeft(s);
    var t := TrimRight(l);
    var i := |s| - |l|;
    assert Trim(s) == t;
    assert l == s[i..];
    assert t == l[..|t|];
    assert s[i..][..|t|] == s[i..i + |t|];
  }

  /** What trim() cuts from the end of the text is blank. */
  lemma TrimTailBlank(s: string)
    ensures var i := |s| - |TrimLeft(s)|; forall k :: i + |Trim(s)| <= k < |s| ==> IsBlank(s[k])
  {
    var l := TrimLeft(s);
    var t := TrimRight(l);
    var i := |s| - |l|;
    assert l == s[i..];
    forall k | i + |t| <= k < |s|
      ensures IsBlank(s[k])
    {
      assert s[k] == l[k - i];
    }
  }

  /** trim() cuts only blanks, from the two ends of the text. */
  lemma TrimIsInner(s: string)
    ensures var i := |s| - |TrimLeft(s)|; var j := i + |Trim(s)|;
      0 <= i <= j <= |s| && Trim(s) == s[i..j] &&
      (forall k :: 0 <= k < i ==> IsBlank(s[k])) && (forall k :: j <= k < |s| ==> IsBlank(s[k]))
  {
    TrimSlice(s);
    TrimTailBlank(s);
  }

  /** A trimmed text neither starts nor ends with a blank. */
  lemma TrimEnds(s: string)
    ensures Trim(s) != [] ==> !IsBlank(Trim(s)[0]) && !IsBlank(Trim(s)[|Trim(s)| - 1])
  {
    var l := TrimLeft(s);
    var t := TrimRight(l);
    if t != [] {
      assert t[0] == l[0];
    }
  }

  /** A text that neither starts nor ends with a blank is its own trim. */
  lemma TrimIdempotent(s: string)
    ensures Trim(Trim(s)) == Trim(s)
  {
    TrimEnds(s);
  }

  function TrimAll(ls: seq<string>): (r: seq<string>)
    ensures |r| == |ls|
    ensures forall i :: 0 <= i < |ls| ==> r[i] == Trim(ls[i])
  {
    seq(|ls|, i requires 0 <= i < |ls| => Trim(ls[i]))
  }

  /** `n` occurs in `h` starting at position `j`. */
  predicate OccursAt(h: string, n: string, j: int)
  {
    0 <= j && j + |n| <= |h| && h[j..j + |n|] == n
  }

  function StrPosFrom(h: string, n: string, i: nat): (r: Option<nat>)
    requires i <= |h|
    ensures r.Some? ==> i <= r.value && OccursAt(h, n, r.value)
    ensures r.Some? ==> forall j :: i <= j < r.value ==> !OccursAt(h, n, j)
    ensures r.None? ==> forall j :: i <= j ==> !OccursAt(h, n, j)
    decreases |h| - i
  {
    if OccursAt(h, n, i) then Some(i) else if i == |h| then None else StrPosFrom(h, n, i + 1)
  }

  /** strpos(): the first position where the needle occurs, None when it does not occur. */
  function StrPos(h: string, n: string): (r: Option<nat>)
    ensures r.Some? ==> OccursAt(h, n, r.value) && forall j :: 0 <= j < r.value ==> !OccursAt(h, n, j)
    ensures r.None? ==> forall j :: !OccursAt(h, n, j)
  {
    StrPosFrom(h, n, 0)
  }

  /** explode(): the parts between the delimiters; an empty delimiter yields no parts. */
  function Explode(d: string, s: string): (r: seq<string>)
    ensures d != [] ==> |r| > 0
    decreases |s|
  {
    if d == [] then []
    else match StrPos(s, d)
      case None => [s]
      case Some(i) => [s[..i]] + Explode(d, s[i + |d|..])
  }

  /** Parts joined back with the delimiter, as implode(). */
  function Implode(d: string, parts: seq<string>): string
  {
    if parts == [] then "" else if |parts| == 1 then parts[0] else parts[0] + d + Implode(d, parts[1..])
  }

  /** explode() loses nothing: joining its parts with the delimiter restores the text, and no part holds the delimiter. */
  lemma {:induction false} ExplodeImplode(d: string, s: string)
    requires d != []
    ensures Implode(d, Explode(d, s)) == s
    ensures forall p, j :: p in Explode(d, s) ==> !OccursAt(p, d, j)
    decreases |s|
  {
    match StrPos(s, d)
    case None =>
    case Some(i) =>
      var rest := s[i + |d|..];
      ExplodeImplode(d, rest);
      assert s == s[..i] + d + rest;
      forall p, j | p in Explode(d, s) ensures !OccursAt(p, d, j) {
        if p != s[..i] {
          assert p in Explode(d, rest);
        } else if OccursAt(p, d, j) {
          assert s[..i][j..j + |d|] == s[j..j + |d|];
          assert OccursAt(s, d, j);
        }
      }
  }

  /** The two ways the library searches a line. */
  datatype Query =
    | ByPart(delimiter: string, index: int, value: string)    // findLineByPart
    | ByString(needle: string, position: Option<int>)          // findLineByString

  predicate Matches(q: Query, line: string)
  {
    match q
    case ByPart(d, k, v) => var parts := Explode(d, line); 0 <= k < |parts| && parts[k] == v
    case ByString(n, pos) => var at := StrPos(line, n); at.Some? && (pos.None? || at.value == pos.value)
  }

  /** The index of the first matching line, |ls| when none matches. */
  function FirstMatch(ls: seq<string>, q: Query): (r: nat)
    ensures r <= |ls|
    ensures r < |ls| ==> Matches(q, ls[r])
    ensures forall j :: 0 <= j < r ==> !Matches(q, ls[j])
  {
    if ls == [] then 0 else if Matches(q, ls[0]) then 0 else 1 + FirstMatch(ls[1..], q)
  }

  /** The line a search answers: the first match, None when there is none. */
  function Find(ls: seq<string>, q: Query): Option<string>
  {
    var k := FirstMatch(ls, q);
    if k < |ls| then Some(ls[k]) else None
  }

  /** A search finds a line exactly when some line matches, and it is the earliest one. */
  lemma FindSpec(ls: seq<string>, q: Query)
    ensures Find(ls, q).Some? <==> exists k :: 0 <= k < |ls| && Matches(q, ls[k])
    ensures Find(ls, q).Some? ==> Matches(q, Find(ls, q).value) && Find(ls, q).value in ls
  {
  }

  /** The last index whose draw came out below 1, -1 when none did. */
  function LastLow(draws: seq<int>): (r: int)
    ensures -1 <= r < |draws|
    ensures r >= 0 ==> draws[r] < 1
    ensures forall j :: r < j < |draws| ==> draws[j] >= 1
  {
    if draws == [] then -1 else if draws[|draws| - 1] < 1 then |draws| - 1 else LastLow(draws[..|draws| - 1])
  }

  /**
   * findRandomLine(): line i is kept when the i-th draw (from 0..i) comes out below 1,
   * so the answer is the line of the last such draw.
   */
  function RandomPick(ls: seq<string>, draws: seq<int>): Option<string>
    requires |draws| == |ls|
  {
    var k := LastLow(draws);
    if k < 0 then None else Some(ls[k])
  }

  /** One more line read: its draw decides whether it replaces the line kept so far. */
  lemma RandomPickStep(ls: seq<string>, ds: seq<int>, l: string, d: int)
    requires |ds| == |ls|
    ensures RandomPick(ls + [l], ds + [d]) == if d < 1 then Some(l) else RandomPick(ls, ds)
  {
    assert (ds + [d])[..|ds|] == ds;
    if d >= 1 && LastLow(ds) >= 0 {
      assert (ls + [l])[LastLow(ds)] == ls[LastLow(ds)];
    }
  }

  /** Draws within their ranges always keep some line: the first draw is from 0..0. */
  lemma RandomPickFound(ls: seq<string>, draws: seq<int>)
    requires |draws| == |ls| > 0
    requires forall i :: 0 <= i < |draws| ==> 0 <= draws[i] <= i
    ensures RandomPick(ls, draws).Some? && RandomPick(ls, draws).value in ls
  {
    assert draws[0] < 1;
  }

  /** The stream of a text written line by line. */
  lemma StreamOf(r: seq<string>)
    requires IsStream(r)
    ensures SplitLines(Concat(r)) == r
  {
    SplitConcat(r);
  }

  lemma RandomPickThreeLines()
    ensures var ls := SplitLines("one\ntwo\nthree"); |ls| == 3 && RandomPick(ls, [0, 0, 1]) == Some("two\n")
  {
    var r := ["one\n", "two\n", "three"];
    assert Terminated(r[0]) && Terminated(r[1]);
    assert Concat(r) == "one\ntwo\nthree" by {
      assert Concat(r[2..]) == "three";
      assert Concat(r[1..]) == "two\n" + "three";
    }
    StreamOf(r);
    assert LastLow([0, 0, 1]) == 1 by { assert [0, 0, 1][..2] == [0, 0]; }
  }

  lemma RandomPickEmptyLines()
    ensures var ls := SplitLines("first\n\n\nlast\n\n\n");
      |ls| == 7 && RandomPick(ls, [0, 0, 1, 1, 1, 1, 1]) == Some("\n")
  {
    var r := ["first\n", "\n", "\n", "last\n", "\n", "\n", ""];
    assert Terminated("\n") && Terminated("first\n") && Terminated("last\n");
    assert IsStream(r) by {
      forall i | 0 <= i < 6 ensures Terminated(r[i]) {
        assert r[i] == "\n" || r[i] == "first\n" || r[i] == "last\n";
      }
    }
    assert Concat(r) == "first\n\n\nlast\n\n\n" by {
      assert Concat(r[6..]) == "";
      assert Concat(r[5..]) == "\n";
      assert Concat(r[4..]) == "\n\n";
      assert Concat(r[3..]) == "last\n\n\n";
      assert Concat(r[2..]) == "\nlast\n\n\n";
      assert Concat(r[1..]) == "\n\nlast\n\n\n";
    }
    StreamOf(r);
    var d := [0, 0, 1, 1, 1, 1, 1];
    var k := LastLow(d);
    assert d[0] == 0 && d[1] == 0 && forall j :: 2 <= j < 7 ==> d[j] == 1;
    assert k == 1;
  }
}
