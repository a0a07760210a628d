/** The string operations of Python that the modelled code relies on: `split` and `join` on one
    separator character, `strip`, and `os.path.dirname` / `os.path.basename`. */
module PyStrings {

  /** One more character in front either closes an empty piece or lengthens the first piece. */
  function Prepend(c: char, parts: seq<string>, sep: char): seq<string>
    requires |parts| >= 1
  {
    if c == sep then [""] + parts else [[c] + parts[0]] + parts[1..]
  }

  /** `s.split(sep)`: always at least one piece. */
  function Split(s: string, sep: char): (r: seq<string>)
    ensures |r| >= 1
  {
    if s == "" then [""] else Prepend(s[0], Split(s[1..], sep), sep)
  }

  /** `sep.join(parts)`. */
  function Join(parts: seq<string>, sep: char): string {
    if |parts| == 0 then ""
    else if |parts| == 1 then parts[0]
    else parts[0] + [sep] + Join(parts[1..], sep)
  }

  /** The pieces hold no separator and joining them gives the text back. */
  lemma {:induction false} SplitPieces(s: string, sep: char)
    ensures forall x | x in Split(s, sep) :: sep !in x
    ensures Join(Split(s, sep), sep) == s
  {
    if s != "" {
      SplitPieces(s[1..], sep);
      var rest := Split(s[1..], sep);
      var r := Split(s, sep);
      if s[0] == sep {
        assert r[1..] == rest;
      } else {
        assert rest[0] in rest && r[0] == [s[0]] + rest[0] && r[1..] == rest[1..];
        forall x | x in r ensures sep !in x {
          if x != r[0] { assert x in rest; }
        }
      }
    }
  }

  lemma SplitCons(c: char, s: string, sep: char)
    ensures Split([c] + s, sep) == Prepend(c, Split(s, sep), sep)
  {
    assert ([c] + s)[1..] == s;
  }

  lemma PrependAppend(c: char, parts: seq<string>, more: seq<string>, sep: char)
    requires |parts| >= 1
    ensures Prepend(c, parts + more, sep) == Prepend(c, parts, sep) + more
  {
  }

  /** Cutting at one separator cuts the list of pieces at the same place. */
  lemma {:induction false} SplitAppend(a: string, b: string, sep: char)
    ensures Split(a + [sep] + b, sep) == Split(a, sep) + Split(b, sep)
  {
    if a == "" {
      assert a + [sep] + b == [sep] + b;
      SplitCons(sep, b, sep);
    } else {
      var tail := a[1..] + [sep] + b;
      assert a + [sep] + b == [a[0]] + tail;
      assert a == [a[0]] + a[1..];
      SplitAppend(a[1..], b, sep);
      SplitCons(a[0], tail, sep);
      SplitCons(a[0], a[1..], sep);
      PrependAppend(a[0], Split(a[1..], sep), Split(b, sep), sep);
    }
  }

  lemma {:induction false} SplitWhole(s: string, sep: char)
    requires sep !in s
    ensures Split(s, sep) == [s]
  {
    if s != "" {
      SplitWhole(s[1..], sep);
      assert s == [s[0]] + s[1..];
    }
  }

  /** `split` undoes `join` on separator-free pieces. */
  lemma {:induction false} SplitJoin(parts: seq<string>, sep: char)
    requires |parts| >= 1
    requires forall x | x in parts :: sep !in x
    ensures Split(Join(parts, sep), sep) == parts
  {
    SplitWhole(parts[0], sep);
    if |parts| > 1 {
      SplitJoin(parts[1..], sep);
      SplitAppend(parts[0], Join(parts[1..], sep), sep);
      assert parts == [parts[0]] + parts[1..];
    }
  }

  /** `[x for x in parts if len(x)]`. */
  function NonEmpty(parts: seq<string>): seq<string> {
    if |parts| == 0 then []
    else if |parts[0]| == 0 then NonEmpty(parts[1..])
    else [parts[0]] + NonEmpty(parts[1..])
  }

  lemma {:induction false} NonEmptyMembers(parts: seq<string>)
    ensures forall x | x in NonEmpty(parts) :: x != "" && x in parts
  {
    if parts != [] {
      NonEmptyMembers(parts[1..]);
    }
  }

  lemma {:induction false} NonEmptyAppend(a: seq<string>, b: seq<string>)
    ensures NonEmpty(a + b) == NonEmpty(a) + NonEmpty(b)
  {
    if |a| > 0 {
      NonEmptyAppend(a[1..], b);
      assert (a + b)[1..] == a[1..] + b;
    } else {
      assert a + b == b;
    }
  }

  lemma {:induction false} NonEmptyAll(a: seq<string>)
    requires "" !in a
    ensures NonEmpty(a) == a
  {
    if a != [] {
      assert a[0] in a;
      NonEmptyAll(a[1..]);
    }
  }

  /** `s.rstrip(c)`. */
  function RStrip(s: string, c: char): (r: string)
    ensures r <= s
    ensures r == "" || r[|r| - 1] != c
    ensures forall i | |r| <= i < |s| :: s[i] == c
  {
    if s != "" && s[|s| - 1] == c then RStrip(s[..|s| - 1], c) else s
  }

  function LStrip(s: string, c: char): (r: string)
    ensures r == "" || r[0] != c
    ensures |r| <= |s| && r == s[|s| - |r|..]
    ensures forall i | 0 <= i < |s| - |r| :: s[i] == c
  {
    if s != "" && s[0] == c then LStrip(s[1..], c) else s
  }

  /** `s.strip(c)`. */
  function Strip(s: string, c: char): string {
    RStrip(LStrip(s, c), c)
  }

  /** One past the last '/' of the path, 0 when there is none (`rfind('/') + 1`). */
  function Cut(path: string): (i: nat)
    ensures i <= |path|
    ensures '/' !in path[i..]
    ensures i > 0 ==> path[i - 1] == '/'
  {
    if path == "" then 0
    else if path[|path| - 1] == '/' then |path|
    else
      var i := Cut(path[..|path| - 1]);
      assert path[i..] == path[..|path| - 1][i..] + [path[|path| - 1]];
      i
  }

  function Basename(path: string): (r: string)
    ensures '/' !in r
  {
    path[Cut(path)..]
  }

  /** posixpath.dirname: the head keeps its slashes only when it is made of slashes. */
  function Dirname(path: string): string {
    var head := path[..Cut(path)];
    if forall c | c in head :: c == '/' then head else RStrip(head, '/')
  }

  /** The pieces of a path that `get_path` looks at. */
  function Pieces(path: string): seq<string> {
    NonEmpty(Split(path, '/'))
  }

  predicate SlashFree(k: seq<string>) {
    forall x | x in k :: '/' !in x
  }

  /** Proper names of entries: not empty, and without a slash. */
  predicate AllNames(k: seq<string>) {
    SlashFree(k) && "" !in k
  }

  lemma PiecesMembers(path: string)
    ensures AllNames(Pieces(path))
  {
    SplitPieces(path, '/');
    NonEmptyMembers(Split(path, '/'));
  }

  lemma {:induction false} PiecesAppend(a: string, b: string)
    ensures Pieces(a + "/" + b) == Pieces(a) + Pieces(b)
  {
    SplitAppend(a, b, '/');
    NonEmptyAppend(Split(a, '/'), Split(b, '/'));
  }

  lemma {:induction false} PiecesRStrip(path: string)
    ensures Pieces(RStrip(path, '/')) == Pieces(path)
  {
    if path != "" && path[|path| - 1] == '/' {
      var p := path[..|path| - 1];
      PiecesRStrip(p);
      assert path == p + "/" + "";
      PiecesAppend(p, "");
      assert Pieces("") == [];
    }
  }

  lemma {:induction false} PiecesLStrip(path: string)
    ensures Pieces(LStrip(path, '/')) == Pieces(path)
  {
    if path != "" && path[0] == '/' {
      var t := path[1..];
      calc {
        Pieces(path);
        { assert path == "" + "/" + t; }
        Pieces("" + "/" + t);
        { PiecesAppend("", t); }
        Pieces("") + Pieces(t);
        { assert Pieces("") == []; }
        Pieces(t);
        { PiecesLStrip(t); }
        Pieces(LStrip(t, '/'));
      }
    }
  }

  lemma PiecesStrip(path: string)
    ensures Pieces(Strip(path, '/')) == Pieces(path)
  {
    PiecesLStrip(path);
    PiecesRStrip(LStrip(path, '/'));
  }

  lemma PiecesSlashFree(name: string)
    requires '/' !in name
    ensures Pieces(name) == if name == "" then [] else [name]
  {
    SplitWhole(name, '/');
    assert [name][1..] == [];
    assert NonEmpty([name]) == (if name == "" then NonEmpty([name][1..]) else [name] + NonEmpty([name][1..]));
  }

  /** A path is its directory's pieces followed by its base name, when that is not empty. */
  lemma PiecesDirBase(path: string)
    ensures Pieces(path) == Pieces(Dirname(path)) + (if Basename(path) == "" then [] else [Basename(path)])
  {
    var i := Cut(path);
    var head := path[..i];
    PiecesRStrip(head);
    PiecesSlashFree(Basename(path));
    if i > 0 {
      var h := path[..i - 1];
      assert head == h + "/" + "";
      assert path == h + "/" + Basename(path);
      PiecesAppend(h, "");
      PiecesAppend(h, Basename(path));
      assert Pieces("") == [];
    } else {
      assert path == Basename(path);
      assert head == "";
    }
  }

  /** The base name is empty exactly for the empty path and paths that end in a slash. */
  lemma BasenameEmpty(path: string)
    ensures Basename(path) == "" <==> path == "" || path[|path| - 1] == '/'
  {
    if path != "" && path[|path| - 1] != '/' {
      assert Cut(path) <= |path| - 1;
    }
  }

  /** The text of an absolute path with the given components. */
  function AbsPath(comps: seq<string>): string {
    "/" + Join(comps, '/')
  }

  /** The pieces of joined slash-free names: the empty ones are lost. */
  lemma JoinPieces(comps: seq<string>)
    requires SlashFree(comps)
    ensures Pieces(Join(comps, '/')) == NonEmpty(comps)
  {
    if comps == [] {
      assert Pieces("") == [];
    } else {
      SplitJoin(comps, '/');
    }
  }

  lemma AbsPathPieces(comps: seq<string>)
    requires AllNames(comps)
    ensures Pieces(AbsPath(comps)) == comps
    ensures Pieces(Join(comps, '/')) == comps
  {
    assert AbsPath(comps) == "" + "/" + Join(comps, '/');
    PiecesAppend("", Join(comps, '/'));
    assert Pieces("") == [];
    JoinPieces(comps);
    NonEmptyAll(comps);
  }

  /** Two absolute paths with as many slash-free components are the same text only if their components
      are the same. */
  lemma AbsPathInjective(a: seq<string>, b: seq<string>)
    requires SlashFree(a) && SlashFree(b) && |a| == |b|
    ensures AbsPath(a) == AbsPath(b) ==> a == b
  {
    assert AbsPath(a)[1..] == Join(a, '/') && AbsPath(b)[1..] == Join(b, '/');
    if |a| > 0 {
      SplitJoin(a, '/');
      SplitJoin(b, '/');
    }
  }

  lemma {:induction false} JoinEnds(comps: seq<string>)
    requires |comps| > 0 && AllNames(comps)
    ensures var s := Join(comps, '/'); s != "" && s[0] != '/' && s[|s| - 1] != '/'
  {
    assert comps[0] in comps;
    var c := comps[0];
    assert c[0] in c && c[|c| - 1] in c;
    if |comps| > 1 {
      forall x | x in comps[1..] ensures x in comps {
      }
      JoinEnds(comps[1..]);
    }
  }

  lemma StripSlashed(s: string)
    requires s != "" && s[0] != '/' && s[|s| - 1] != '/'
    ensures Strip("/" + s, '/') == s
  {
    assert ("/" + s)[1..] == s;
  }

  /** A path is its directory, a slash and its base name. */
  lemma DirnameOf(head: string, name: string)
    requires '/' !in name && |head| > 0 && head[|head| - 1] != '/'
    ensures Dirname(head + "/" + name) == head && Basename(head + "/" + name) == name
    ensures Dirname("/" + name) == "/" && Basename("/" + name) == name
    ensures Dirname(name) == "" && Basename(name) == name
  {
    var path := head + "/" + name;
    CutIs(path, |head| + 1);
    assert path[..|head| + 1] == head + "/" && path[|head| + 1..] == name;
    assert head[|head| - 1] in head + "/";
    RStripOne(head);
    var top := "/" + name;
    CutIs(top, 1);
    assert top[..1] == "/" && top[1..] == name;
    CutIs(name, 0);
    assert name[..0] == "" && name[0..] == name;
  }

  lemma CutIs(path: string, i: nat)
    requires i <= |path| && '/' !in path[i..] && (i > 0 ==> path[i - 1] == '/')
    ensures Cut(path) == i
  {
    SlashBehind(path);
  }

  lemma SlashBehind(path: string)
    ensures forall i, k | 0 <= i <= k < |path| && path[k] == '/' :: '/' in path[i..]
  {
    forall i, k | 0 <= i <= k < |path| && path[k] == '/' ensures '/' in path[i..] {
      assert path[i..][k - i] == path[k];
    }
  }

  lemma RStripOne(head: string)
    requires |head| > 0 && head[|head| - 1] != '/'
    ensures RStrip(head + "/", '/') == head
  {
    assert (head + "/")[..|head|] == head;
    assert RStrip(head, '/') == head;
  }

  /** `strip` takes away the separators at both ends and nothing else. */
  lemma StripIs(s: string, c: char)
    ensures var t, i := Strip(s, c), |s| - |LStrip(s, c)|;
      && i + |t| <= |s| && t == s[i..i + |t|]
      && (forall k | 0 <= k < i :: s[k] == c) && (forall k | i + |t| <= k < |s| :: s[k] == c)
      && (|t| > 0 ==> t[0] != c && t[|t| - 1] != c)
  {
    hide LStrip, RStrip;
    var l, t := LStrip(s, c), Strip(s, c);
    var i := |s| - |l|;
    assert t == l[..|t|];
    forall k | i + |t| <= k < |s| ensures s[k] == c {
      assert s[k] == l[k - i];
    }
  }
}
