/** The path normaliser `resolve_path` and the glob `resolve_path_wc` of `cowrie/shell/fs.py`. */
module Paths {
  import opened Options
  import opened PyStrings
  import opened FsTree
  import opened Filesystem

  // resolve_path ----------------------------------------------------------------------------------

  /** The effect of one piece on the list of components. */
  function Step(cwd: Key, piece: string): Key {
    if piece == ".." then (if cwd == [] then [] else Parent(cwd))
    else if piece == "." || piece == "" then cwd
    else Ext(cwd, piece)
  }

  function Walk(cwd: Key, pieces: seq<string>): Key
    decreases |pieces|
  {
    if |pieces| == 0 then cwd else Walk(Step(cwd, pieces[0]), pieces[1..])
  }

  /** What the result denotes, for a non-empty path. */
  function Resolved(path: string, cwd: string): Key
    requires path != ""
  {
    Walk(if path[0] == '/' then [] else Pieces(cwd), Pieces(path))
  }

  lemma {:induction false} WalkAppend(cwd: Key, a: seq<string>, b: seq<string>)
    ensures Walk(cwd, a + b) == Walk(Walk(cwd, a), b)
    decreases |a|
  {
    if |a| == 0 {
      assert a + b == b;
    } else {
      assert (a + b)[1..] == a[1..] + b;
      WalkAppend(Step(cwd, a[0]), a[1..], b);
    }
  }

  lemma {:induction false} WalkNonEmpty(cwd: Key, pieces: seq<string>)
    ensures Walk(cwd, NonEmpty(pieces)) == Walk(cwd, pieces)
    decreases |pieces|
  {
    if |pieces| > 0 {
      WalkNonEmpty(Step(cwd, pieces[0]), pieces[1..]);
      if |pieces[0]| > 0 {
        assert NonEmpty(pieces)[1..] == NonEmpty(pieces[1..]);
      }
    }
  }

  /** None is the IndexError that `path[0]` raises on the empty path. */
  method ResolvePath(path: string, cwd: string) returns (r: Option<string>)
    ensures r == if path == "" then None else Some(AbsPath(Resolved(path, cwd)))
  {
    var pieces := Split(RStrip(path, '/'), '/');
    if |path| == 0 {
      return None;
    }
    var stack := if path[0] == '/' then [] else Pieces(cwd);
    WalkNonEmpty(stack, pieces);
    PiecesRStrip(path);
    while |pieces| > 0
      invariant Walk(stack, pieces) == Resolved(path, cwd)
      decreases |pieces|
    {
      var piece := pieces[0];
      pieces := pieces[1..];
      if piece == ".." {
        if |stack| > 0 {
          stack := stack[..|stack| - 1];
        }
      } else if piece != "." && piece != "" {
        stack := stack + [piece];
      }
    }
    return Some(AbsPath(stack));
  }

  /** Components of a normalised path. */
  predicate Clean(k: Key) {
    AllNames(k) && "." !in k && ".." !in k
  }

  lemma {:induction false} WalkClean(cwd: Key, pieces: seq<string>)
    requires Clean(cwd) && SlashFree(pieces)
    ensures Clean(Walk(cwd, pieces))
    decreases |pieces|
  {
    if |pieces| > 0 {
      assert pieces[0] in pieces;
      forall x | x in pieces[1..] ensures x in pieces {
      }
      WalkClean(Step(cwd, pieces[0]), pieces[1..]);
    }
  }

  lemma {:induction false} WalkOverClean(cwd: Key, k: Key)
    requires Clean(k)
    ensures Walk(cwd, k) == cwd + k
    decreases |k|
  {
    if |k| > 0 {
      assert k[0] in k;
      forall x | x in k[1..] ensures x in k {
      }
      WalkOverClean(Ext(cwd, k[0]), k[1..]);
      assert Ext(cwd, k[0]) + k[1..] == cwd + k;
    }
  }

  /** The result is absolute and has no empty, "." or ".." component, if the path is absolute or the
      working directory is already normalised. */
  lemma ResolvedClean(path: string, cwd: string)
    requires path != "" && (path[0] == '/' || Clean(Pieces(cwd)))
    ensures Clean(Resolved(path, cwd)) && Pieces(AbsPath(Resolved(path, cwd))) == Resolved(path, cwd)
  {
    PiecesMembers(path);
    WalkClean(if path[0] == '/' then [] else Pieces(cwd), Pieces(path));
    AbsPathPieces(Resolved(path, cwd));
  }

  /** Resolving a resolved path again changes nothing, from any working directory. */
  lemma ResolveIdempotent(path: string, cwd: string, elsewhere: string)
    requires path != "" && (path[0] == '/' || Clean(Pieces(cwd)))
    ensures AbsPath(Resolved(AbsPath(Resolved(path, cwd)), elsewhere)) == AbsPath(Resolved(path, cwd))
  {
    var k := Resolved(path, cwd);
    ResolvedClean(path, cwd);
    WalkOverClean([], k);
    assert [] + k == k;
  }

  /** Resolving `p/q` is resolving the relative path `q` from where `p` leads. */
  lemma ResolveComposes(p: string, q: string, cwd: string)
    requires p != "" && q != "" && q[0] != '/'
    ensures Resolved(p + "/" + q, cwd) == Resolved(q, AbsPath(Resolved(p, cwd)))
  {
    var start := if p[0] == '/' then [] else Pieces(cwd);
    calc {
      Resolved(p + "/" + q, cwd);
      { assert (p + "/" + q)[0] == p[0]; PiecesAppend(p, q); }
      Walk(start, Pieces(p) + Pieces(q));
      { WalkAppend(start, Pieces(p), Pieces(q)); }
      Walk(Resolved(p, cwd), Pieces(q));
      { WalkNames(start, p, cwd); AbsPathPieces(Resolved(p, cwd)); }
      Walk(Pieces(AbsPath(Resolved(p, cwd))), Pieces(q));
    }
  }

  lemma WalkNames(start: Key, p: string, cwd: string)
    requires p != "" && start == if p[0] == '/' then [] else Pieces(cwd)
    ensures AllNames(Resolved(p, cwd))
  {
    PiecesMembers(p);
    PiecesMembers(cwd);
    WalkProper(start, Pieces(p));
  }

  lemma {:induction false} WalkProper(cwd: Key, pieces: seq<string>)
    requires AllNames(cwd) && AllNames(pieces)
    ensures AllNames(Walk(cwd, pieces))
    decreases |pieces|
  {
    if |pieces| > 0 {
      assert pieces[0] in pieces;
      forall x | x in pieces[1..] ensures x in pieces {
      }
      WalkProper(Step(cwd, pieces[0]), pieces[1..]);
    }
  }

  /** What one more piece does to a resolved path: a name goes behind it, ".." takes its last name away,
      if there is one, and "." and the empty piece change nothing. */
  lemma ResolveByPiece(p: string, x: string, cwd: string)
    requires p != "" && '/' !in x
    ensures var k := Resolved(p, cwd);
      Resolved(p + "/" + x, cwd) ==
        if x == "" || x == "." then k
        else if x != ".." then k + [x]
        else if |k| == 0 then [] else k[..|k| - 1]
  {
    var start := if p[0] == '/' then [] else Pieces(cwd);
    assert (p + "/" + x)[0] == p[0];
    PiecesAppend(p, x);
    PiecesSlashFree(x);
    WalkAppend(start, Pieces(p), Pieces(x));
    WalkOne(Resolved(p, cwd), x);
  }

  lemma WalkOne(k: Key, x: string)
    ensures Walk(k, [x]) == Step(k, x)
    ensures Walk(k, []) == k
  {
    assert [x][1..] == [];
  }

  /** ...and with these the answer is known for every path: one piece from the working directory or, for
      an absolute path, from the root. */
  lemma ResolveStart(x: string, cwd: string)
    requires x != "" && '/' !in x
    ensures var k := Pieces(cwd);
      Resolved(x, cwd) == if x == "." then k else if x != ".." then k + [x] else if |k| == 0 then [] else k[..|k| - 1]
    ensures Resolved("/", cwd) == []
  {
    PiecesSlashFree(x);
    WalkOne(Pieces(cwd), x);
    PiecesRoot();
  }

  lemma PiecesRoot()
    ensures Pieces("/") == []
  {
    PiecesAppend("", "");
    assert "" + "/" + "" == "/";
    assert Pieces("") == [];
  }

  function Ups(n: nat): seq<string> {
    if n == 0 then [] else [".."] + Ups(n - 1)
  }

  /** Names and then `n` times "..": the last `n` names are taken away again, as far as there are any,
      first those of the path and then those of the working directory. */
  lemma ResolveUps(k: Key, n: nat, cwd: string)
    requires Clean(k) && Clean(Pieces(cwd)) && |k| + n > 0
    ensures var path, all := Join(k + Ups(n), '/'), Pieces(cwd) + k;
      path != "" && Resolved(path, cwd) == all[..if n < |all| then |all| - n else 0]
    ensures Resolved(AbsPath(k + Ups(n)), cwd) == k[..if n < |k| then |k| - n else 0]
  {
    var parts := k + Ups(n);
    UpsNames(n);
    JoinEnds(parts);
    AbsPathPieces(parts);
    ManyUps(Pieces(cwd), k, n);
    ManyUps([], k, n);
    assert [] + k == k;
  }

  lemma {:induction false} UpsNames(n: nat)
    ensures |Ups(n)| == n && AllNames(Ups(n))
  {
    if n > 0 {
      UpsNames(n - 1);
    }
  }

  lemma ManyUps(start: Key, k: Key, n: nat)
    requires Clean(k)
    ensures var all := start + k; Walk(start, k + Ups(n)) == all[..if n < |all| then |all| - n else 0]
  {
    WalkAppend(start, k, Ups(n));
    WalkOverClean(start, k);
    WalkUps(start + k, n);
  }

  lemma {:induction false} WalkUps(k: Key, n: nat)
    ensures Walk(k, Ups(n)) == k[..if n < |k| then |k| - n else 0]
  {
    if n > 0 {
      assert Ups(n)[1..] == Ups(n - 1);
      WalkUps(Step(k, ".."), n - 1);
    }
  }

  // resolve_path_wc -------------------------------------------------------------------------------

  /** `fnmatch.fnmatchcase(name, pattern)`, left open. */
  type Matcher = (string, string) -> bool

  ghost function NamesAt(st: Store, at: Index, k: Key): seq<string>
    requires Closed(st, at) && k in at
  {
    Names(st, st[at[k]].contents)
  }

  /** The calls of the inner `foo`, in order; None when a directory on the way does not exist.  The
      directory is looked up by its text, where empty names leave no trace. */
  ghost function Expand(st: Store, at: Index, m: Matcher, p: seq<string>, cwd: Key): Option<seq<Key>>
    requires Closed(st, at)
    decreases |p|, 0
  {
    if |p| == 0 then Some([cwd])
    else if p[0] == "." || p[0] == ".." then Expand(st, at, m, p[1..], Step(cwd, p[0]))
    else if NonEmpty(cwd) !in at then None
    else ExpandAll(st, at, m, p, cwd, NamesAt(st, at, NonEmpty(cwd)))
  }

  ghost function ExpandAll(st: Store, at: Index, m: Matcher, p: seq<string>, cwd: Key, names: seq<string>)
    : Option<seq<Key>>
    requires Closed(st, at) && |p| > 0
    decreases |p| - 1, |names| + 1
  {
    if |names| == 0 then Some([])
    else
      var rest := ExpandAll(st, at, m, p, cwd, names[1..]);
      if !m(names[0], p[0]) then rest
      else
        var first := Expand(st, at, m, p[1..], Ext(cwd, names[0]));
        if first == None || rest == None then None else Some(first.value + rest.value)
  }

  /** `c` lies `|p|` levels below `cwd`, and its names match the pieces one by one. */
  ghost predicate Fits(m: Matcher, p: seq<string>, cwd: Key, c: Key) {
    && |c| == |cwd| + |p| && cwd <= c
    && forall i | 0 <= i < |p| :: m(c[|cwd| + i], p[i])
  }

  /** ...and it exists. */
  ghost predicate Matches(at: Index, m: Matcher, p: seq<string>, cwd: Key, c: Key) {
    c in at && Fits(m, p, cwd, c)
  }

  /** Every name below `cwd` is listed where the text of the names before it leads. */
  ghost predicate ByText(at: Index, cwd: Key, c: Key) {
    cwd <= c && forall i | |cwd| <= i < |c| :: Ext(NonEmpty(c[..i]), c[i]) in at
  }

  ghost predicate Distinct<T>(s: seq<T>) {
    forall i, j | 0 <= i < j < |s| :: s[i] != s[j]
  }

  lemma DistinctAppend<T>(a: seq<T>, b: seq<T>)
    requires Distinct(a) && Distinct(b) && forall x | x in a :: x !in b
    ensures Distinct(a + b)
  {
    var s := a + b;
    forall i, j | 0 <= i < j < |s| ensures s[i] != s[j] {
      if i < |a| && |a| <= j {
        assert s[i] in a && s[j] == b[j - |a|];
      }
    }
  }

  /** A dot in front of a pattern changes where the rest is looked for: not at all, or in the directory
      above, which for the root is the root. */
  lemma GlobDots(st: Store, at: Index, m: Matcher, p: seq<string>, cwd: Key)
    requires Closed(st, at)
    ensures Expand(st, at, m, ["."] + p, cwd) == Expand(st, at, m, p, cwd)
    ensures Expand(st, at, m, [".."] + p, cwd) == Expand(st, at, m, p, if |cwd| == 0 then [] else cwd[..|cwd| - 1])
  {
    assert (["."] + p)[1..] == p && ([".."] + p)[1..] == p;
  }

  /** A name and then "..": the rest is looked for in the same directory, once for every entry with a
      name that the piece takes. */
  lemma GlobThereAndBack(st: Store, root: Inode, at: Index, m: Matcher, x: string, p: seq<string>, cwd: Key)
    requires Tree(st, root, at) && Closed(st, at) && NonEmpty(cwd) in at && x != "." && x != ".."
    ensures var r, once := Expand(st, at, m, [x, ".."] + p, cwd), Expand(st, at, m, p, cwd);
      var names := NamesAt(st, at, NonEmpty(cwd));
      if Taken(m, x, names) == 0 then r == Some([])
      else if once == None then r == None
      else r == Some(Times(once.value, Taken(m, x, names)))
  {
    hide Tree;
    assert ([x, ".."] + p)[1..] == [".."] + p;
    BackForEach(st, at, m, x, p, cwd, NamesAt(st, at, NonEmpty(cwd)));
  }

  /** How many of the names the piece takes. */
  function Taken(m: Matcher, x: string, names: seq<string>): nat {
    if |names| == 0 then 0 else (if m(names[0], x) then 1 else 0) + Taken(m, x, names[1..])
  }

  function Times<T>(s: seq<T>, n: nat): seq<T> {
    if n == 0 then [] else s + Times(s, n - 1)
  }

  lemma {:induction false} BackForEach(st: Store, at: Index, m: Matcher, x: string, p: seq<string>, cwd: Key,
                                       names: seq<string>)
    requires Closed(st, at) && x != "." && x != ".."
    ensures var r, once := ExpandAll(st, at, m, [x, ".."] + p, cwd, names), Expand(st, at, m, p, cwd);
      if Taken(m, x, names) == 0 then r == Some([])
      else if once == None then r == None
      else r == Some(Times(once.value, Taken(m, x, names)))
  {
    if |names| > 0 {
      BackForEach(st, at, m, x, p, cwd, names[1..]);
      assert ([x, ".."] + p)[1..] == [".."] + p;
      GlobDots(st, at, m, p, Ext(cwd, names[0]));
      assert Ext(cwd, names[0])[..|cwd|] == cwd;
    }
  }

  /** The names listed in a node: pairwise different, and exactly those that extend its key. */
  lemma NamesExact(st: Store, root: Inode, at: Index, k: Key)
    requires Tree(st, root, at) && Closed(st, at) && k in at
    ensures Distinct(NamesAt(st, at, k))
    ensures forall name :: name in NamesAt(st, at, k) <==> Ext(k, name) in at
  {
    var cs := st[at[k]].contents;
    var names := NamesAt(st, at, k);
    forall i, j | 0 <= i < j < |names| ensures names[i] != names[j] {
      assert Linked(st, at, k, cs[i]) && Linked(st, at, k, cs[j]);
    }
    forall name ensures name in names <==> Ext(k, name) in at {
      if name in names {
        var i :| 0 <= i < |names| && names[i] == name;
        assert Linked(st, at, k, cs[i]);
      }
      if Ext(k, name) in at {
        assert Ext(k, name) + [] == Ext(k, name);
        FirstStep(st, root, at, k, name, []);
      }
    }
  }

  ghost predicate NoDots(p: seq<string>) {
    "." !in p && ".." !in p
  }

  /** In every tree, for a pattern without "." and "..": the glob gives exactly the keys that match
      piece by piece and are listed by text, each of them once. */
  lemma {:induction false} GlobAny(st: Store, root: Inode, at: Index, m: Matcher, p: seq<string>, cwd: Key)
    requires Tree(st, root, at) && Closed(st, at) && NonEmpty(cwd) in at && NoDots(p)
    ensures var r := Expand(st, at, m, p, cwd);
      r.Some? && Distinct(r.value) && forall c :: c in r.value <==> Fits(m, p, cwd, c) && ByText(at, cwd, c)
    decreases |p|, 0
  {
    hide Tree, Fits, ByText;
    if |p| > 0 {
      assert p[0] in p;
      var names := NamesAt(st, at, NonEmpty(cwd));
      NamesExact(st, root, at, NonEmpty(cwd));
      GlobAll(st, root, at, m, p, cwd, names);
      forall c | Fits(m, p, cwd, c) && ByText(at, cwd, c) ensures |c| > |cwd| && c[|cwd|] in names {
        FirstByText(at, m, p, cwd, c);
      }
    } else {
      forall c ensures Fits(m, p, cwd, c) && ByText(at, cwd, c) <==> c == cwd {
        NothingLeft(at, m, p, cwd, c);
      }
    }
  }

  lemma FirstByText(at: Index, m: Matcher, p: seq<string>, cwd: Key, c: Key)
    requires |p| > 0 && Fits(m, p, cwd, c) && ByText(at, cwd, c)
    ensures |c| > |cwd| && Ext(NonEmpty(cwd), c[|cwd|]) in at
  {
    assert c[..|cwd|] == cwd;
  }

  lemma NothingLeft(at: Index, m: Matcher, p: seq<string>, cwd: Key, c: Key)
    requires |p| == 0
    ensures Fits(m, p, cwd, c) && ByText(at, cwd, c) <==> c == cwd
  {
  }

  /** `c` is found from the entries `names` on. */
  ghost predicate Found(at: Index, m: Matcher, p: seq<string>, cwd: Key, names: seq<string>, c: Key) {
    Fits(m, p, cwd, c) && ByText(at, cwd, c) && |c| > |cwd| && c[|cwd|] in names
  }

  lemma {:induction false} GlobAll(st: Store, root: Inode, at: Index, m: Matcher, p: seq<string>, cwd: Key,
                                   names: seq<string>)
    requires Tree(st, root, at) && Closed(st, at) && |p| > 0 && NoDots(p) && NonEmpty(cwd) in at
    requires Distinct(names) && forall name | name in names :: Ext(NonEmpty(cwd), name) in at
    ensures var r := ExpandAll(st, at, m, p, cwd, names);
      r.Some? && Distinct(r.value) && forall c :: c in r.value <==> Found(at, m, p, cwd, names, c)
    decreases |p| - 1, |names| + 1
  {
    hide Tree, Fits, ByText;
    if |names| > 0 {
      var name := names[0];
      assert name in names;
      GlobAll(st, root, at, m, p, cwd, names[1..]);
      var rest := ExpandAll(st, at, m, p, cwd, names[1..]).value;
      assert forall x :: x in names <==> x == name || x in names[1..];
      assert name !in names[1..];
      forall c ensures Found(at, m, p, cwd, [name], c) <==>
        m(name, p[0]) && Fits(m, p[1..], Ext(cwd, name), c) && ByText(at, Ext(cwd, name), c)
      {
        FoundStep(at, m, p, cwd, name, c);
      }
      assert forall c :: Found(at, m, p, cwd, names, c) <==>
        Found(at, m, p, cwd, [name], c) || Found(at, m, p, cwd, names[1..], c);
      if m(name, p[0]) {
        NextDirectory(cwd, name);
        GlobAny(st, root, at, m, p[1..], Ext(cwd, name));
        var first := Expand(st, at, m, p[1..], Ext(cwd, name)).value;
        DistinctAppend(first, rest);
      }
    }
  }

  /** Where the text leads one name further on. */
  lemma NextDirectory(cwd: Key, name: string)
    ensures NonEmpty(Ext(cwd, name)) == if name == "" then NonEmpty(cwd) else Ext(NonEmpty(cwd), name)
  {
    NonEmptyAppend(cwd, [name]);
    assert [name][1..] == [];
    assert NonEmpty([name]) == if name == "" then [] else [name] + [];
  }

  lemma FoundStep(at: Index, m: Matcher, p: seq<string>, cwd: Key, name: string, c: Key)
    requires |p| > 0 && Ext(NonEmpty(cwd), name) in at
    ensures Found(at, m, p, cwd, [name], c) <==>
      m(name, p[0]) && Fits(m, p[1..], Ext(cwd, name), c) && ByText(at, Ext(cwd, name), c)
  {
    if m(name, p[0]) && Fits(m, p[1..], Ext(cwd, name), c) && ByText(at, Ext(cwd, name), c) {
      assert c[..|cwd|] == cwd;
      forall i | 0 <= i < |p| ensures m(c[|cwd| + i], p[i]) {
        if i > 0 {
          assert p[1..][i - 1] == p[i];
        }
      }
    }
    if Found(at, m, p, cwd, [name], c) {
      forall i | 0 <= i < |p| - 1 ensures m(c[|Ext(cwd, name)| + i], p[1..][i]) {
        assert p[1..][i] == p[i + 1];
      }
    }
  }

  /** On the way from `cwd` to `c` there is a directory with an empty name, which the text skips. */
  predicate Detours(cwd: Key, c: Key) {
    |cwd| < |c| && "" in c[|cwd|..|c| - 1]
  }

  /** Behind directories with an empty name, what matches is there exactly if it is listed by text. */
  ghost predicate Harmless(at: Index, m: Matcher, p: seq<string>, cwd: Key) {
    forall c | Fits(m, p, cwd, c) && Detours(cwd, c) :: c in at <==> ByText(at, cwd, c)
  }

  /** Where the text skips nothing, to be listed by text is to exist. */
  lemma Straight(at: Index, cwd: Key, c: Key)
    requires Parented(at) && cwd in at && "" !in cwd && cwd <= c && !Detours(cwd, c)
    ensures c in at <==> ByText(at, cwd, c)
  {
    forall i | |cwd| <= i < |c| ensures NonEmpty(c[..i]) == c[..i] && Ext(c[..i], c[i]) == c[..i + 1] {
      forall x | x in c[..i] ensures x != "" {
        var n :| 0 <= n < i && c[n] == x;
        assert if n < |cwd| then x == cwd[n] && x in cwd else x in c[|cwd|..|c| - 1];
      }
      NonEmptyAll(c[..i]);
    }
    if c in at {
      forall i | |cwd| <= i < |c| ensures Ext(NonEmpty(c[..i]), c[i]) in at {
        PrefixIndexed(at, c[..i + 1], c);
      }
    }
    if |c| > |cwd| {
      assert c[..|c| - 1 + 1] == c;
    } else {
      assert c == cwd;
    }
  }

  /** For a pattern without "." and "..", the glob gives exactly the existing keys that match piece by
      piece, each of them once, if and only if directories with empty names on the way are harmless. */
  lemma GlobExact(st: Store, root: Inode, at: Index, m: Matcher, p: seq<string>, cwd: Key)
    requires Tree(st, root, at) && Closed(st, at) && cwd in at && "" !in cwd && NoDots(p)
    ensures var r := Expand(st, at, m, p, cwd);
      && r.Some? && Distinct(r.value)
      && ((forall c :: c in r.value <==> Matches(at, m, p, cwd, c)) <==> Harmless(at, m, p, cwd))
  {
    hide Tree, Fits, ByText, Detours;
    NonEmptyAll(cwd);
    TreeParts(st, root, at);
    GlobAny(st, root, at, m, p, cwd);
    forall c | Fits(m, p, cwd, c) && !Detours(cwd, c) ensures c in at <==> ByText(at, cwd, c) {
      FitsBelow(m, p, cwd, c);
      Straight(at, cwd, c);
    }
    var r := Expand(st, at, m, p, cwd).value;
    if forall c :: c in r <==> Matches(at, m, p, cwd, c) {
      forall c | Fits(m, p, cwd, c) && Detours(cwd, c) ensures c in at <==> ByText(at, cwd, c) {
        assert c in r <==> Matches(at, m, p, cwd, c);
      }
    }
  }

  lemma FitsBelow(m: Matcher, p: seq<string>, cwd: Key, c: Key)
    requires Fits(m, p, cwd, c)
    ensures cwd <= c && |c| == |cwd| + |p|
  {
  }

  /** They are in a tree without empty names, and where no piece but the last takes the empty name. */
  lemma SteadyHarmless(at: Index, m: Matcher, p: seq<string>, cwd: Key)
    requires Named(at) || forall i | 0 <= i < |p| - 1 :: !m("", p[i])
    ensures Harmless(at, m, p, cwd)
  {
    forall c | Fits(m, p, cwd, c) && Detours(cwd, c) ensures c in at <==> ByText(at, cwd, c) {
      var d := c[|cwd|..|c| - 1];
      var n :| 0 <= n < |d| && d[n] == "";
      assert c[|cwd| + n] == "" && m(c[|cwd| + n], p[n]);
      if Named(at) {
        EmptyNamed(at, c);
        EmptyByText(at, cwd, c, |cwd| + n);
      } else {
        assert false;
      }
    }
  }

  lemma EmptyNamed(at: Index, c: Key)
    requires Named(at) && "" in c
    ensures c !in at
  {
  }

  lemma EmptyByText(at: Index, cwd: Key, c: Key, i: nat)
    requires Named(at) && |cwd| <= i < |c| && c[i] == ""
    ensures !ByText(at, cwd, c)
  {
    var e := Ext(NonEmpty(c[..i]), c[i]);
    assert e[|e| - 1] == "";
    EmptyNamed(at, e);
  }

  ghost function Texts(keys: seq<Key>): (r: seq<string>)
    ensures |r| == |keys|
  {
    seq(|keys|, i requires 0 <= i < |keys| => AbsPath(keys[i]))
  }

  lemma TextsAppend(a: seq<Key>, b: seq<Key>)
    ensures Texts(a + b) == Texts(a) + Texts(b)
  {
  }

  /** The inner `foo`; the list `found` that it appends to goes in and comes out. */
  method Foo(fs: HoneyPotFilesystem, m: Matcher, p: seq<string>, cwd: Key, found: seq<string>)
    returns (r: Option<seq<string>>)
    requires fs.Valid() && Closed(fs.Snapshot(), fs.at) && Slashless(fs.at) && SlashFree(cwd)
    ensures var e := Expand(fs.Snapshot(), fs.at, m, p, cwd);
      r == if e == None then None else Some(found + Texts(e.value))
    decreases |p|, 0
  {
    hide Tree;
    ghost var st, at := fs.Snapshot(), fs.at;
    if |p| == 0 {
      assert Texts([cwd]) == [AbsPath(cwd)];
      return Some(found + [AbsPath(cwd)]);
    } else if p[0] == "." {
      r := Foo(fs, m, p[1..], cwd, found);
    } else if p[0] == ".." {
      var up := if |cwd| == 0 then cwd else cwd[..|cwd| - 1];
      assert forall x | x in up :: x in cwd;
      r := Foo(fs, m, p[1..], up, found);
    } else {
      JoinPieces(cwd);
      var listed := fs.Listdir(Join(cwd, '/'));
      if listed.Err? {
        return None;
      }
      var names := listed.value;
      assert names == NamesAt(st, at, NonEmpty(cwd));
      ListedNamesSlashFree(st, fs.root, at, NonEmpty(cwd));
      r := FooAll(fs, m, p, cwd, names, found);
    }
  }

  lemma ListedNamesSlashFree(st: Store, root: Inode, at: Index, k: Key)
    requires Tree(st, root, at) && Closed(st, at) && Slashless(at) && k in at
    ensures SlashFree(NamesAt(st, at, k))
  {
    NamesExact(st, root, at, k);
    forall x | x in NamesAt(st, at, k) ensures '/' !in x {
      assert SlashFree(Ext(k, x)) && x in Ext(k, x);
    }
  }

  /** What is found from the entries `names[i..]` on, after `done`. */
  ghost function Onwards(st: Store, at: Index, m: Matcher, p: seq<string>, cwd: Key, names: seq<string>, i: nat,
                         done: seq<Key>): Option<seq<Key>>
    requires Closed(st, at) && |p| > 0 && i <= |names|
  {
    var rest := ExpandAll(st, at, m, p, cwd, names[i..]);
    if rest == None then None else Some(done + rest.value)
  }

  lemma OnwardsStep(st: Store, at: Index, m: Matcher, p: seq<string>, cwd: Key, names: seq<string>, i: nat,
                    done: seq<Key>)
    requires Closed(st, at) && |p| > 0 && i < |names|
    ensures Onwards(st, at, m, p, cwd, names, i, done) ==
      if !m(names[i], p[0]) then Onwards(st, at, m, p, cwd, names, i + 1, done)
      else
        var first := Expand(st, at, m, p[1..], Ext(cwd, names[i]));
        if first == None then None else Onwards(st, at, m, p, cwd, names, i + 1, done + first.value)
  {
    assert names[i..][1..] == names[i + 1..] && names[i..][0] == names[i];
    var first := Expand(st, at, m, p[1..], Ext(cwd, names[i]));
    var rest := ExpandAll(st, at, m, p, cwd, names[i + 1..]);
    if first.Some? && rest.Some? {
      assert done + (first.value + rest.value) == done + first.value + rest.value;
    }
  }

  lemma OnwardsEnds(st: Store, at: Index, m: Matcher, p: seq<string>, cwd: Key, names: seq<string>, done: seq<Key>)
    requires Closed(st, at) && |p| > 0
    ensures Onwards(st, at, m, p, cwd, names, 0, []) == ExpandAll(st, at, m, p, cwd, names)
    ensures Onwards(st, at, m, p, cwd, names, |names|, done) == Some(done)
  {
    assert names[0..] == names && names[|names|..] == [];
    var all := ExpandAll(st, at, m, p, cwd, names);
    assert all.Some? ==> [] + all.value == all.value;
    assert done + [] == done;
  }

  method FooAll(fs: HoneyPotFilesystem, m: Matcher, p: seq<string>, cwd: Key, names: seq<string>, found: seq<string>)
    returns (r: Option<seq<string>>)
    requires fs.Valid() && Closed(fs.Snapshot(), fs.at) && Slashless(fs.at) && SlashFree(cwd) && SlashFree(names)
    requires |p| > 0
    ensures var e := ExpandAll(fs.Snapshot(), fs.at, m, p, cwd, names);
      r == if e == None then None else Some(found + Texts(e.value))
    decreases |p| - 1, 1
  {
    hide Tree, Texts, Onwards, ExpandAll, Expand, Closed;
    ghost var st, at := fs.Snapshot(), fs.at;
    var acc := found;
    ghost var done: seq<Key> := [];
    OnwardsEnds(st, at, m, p, cwd, names, []);
    TextsAppend([], []);
    for i := 0 to |names|
      invariant acc == found + Texts(done)
      invariant Onwards(st, at, m, p, cwd, names, i, done) == ExpandAll(st, at, m, p, cwd, names)
    {
      OnwardsStep(st, at, m, p, cwd, names, i, done);
      if m(names[i], p[0]) {
        assert names[i] in names;
        ghost var first := Expand(st, at, m, p[1..], Ext(cwd, names[i]));
        var next := Foo(fs, m, p[1..], cwd + [names[i]], acc);
        if next == None {
          return None;
        }
        acc := next.value;
        TextsAppend(done, first.value);
        done := done + first.value;
      }
    }
    OnwardsEnds(st, at, m, p, cwd, names, done);
    return Some(acc);
  }

  /** `resolve_path_wc`; None is FileNotFound. */
  method ResolvePathWc(fs: HoneyPotFilesystem, m: Matcher, path: string, cwd: string)
    returns (found: Option<seq<string>>)
    requires fs.Valid() && Closed(fs.Snapshot(), fs.at) && Slashless(fs.at)
    ensures var (p, start) := GlobStart(path, cwd);
      var e := Expand(fs.Snapshot(), fs.at, m, p, start);
      found == if e == None then None else Some(Texts(e.value))
  {
    var (p, start) := GlobStart(path, cwd);
    PiecesMembers(cwd);
    found := Foo(fs, m, p, start, []);
    assert found.Some? ==> [] + found.value == found.value;
    ghost var e := Expand(fs.Snapshot(), fs.at, m, p, start);
    assert e.Some? ==> [] + Texts(e.value) == Texts(e.value);
  }

  /** The pattern pieces and the directory to start in: an empty first piece means the root. */
  function GlobStart(path: string, cwd: string): (seq<string>, Key) {
    var pieces := Split(RStrip(path, '/'), '/');
    if |pieces[0]| > 0 then (pieces, Pieces(cwd)) else (pieces[1..], [])
  }

  /** A relative pattern starts in the working directory and an absolute one in the root; slashes at the
      end play no part. */
  lemma GlobStartMeaning(p: seq<string>, slashes: string, cwd: string)
    requires |p| > 0 && SlashFree(p) && p[0] != "" && p[|p| - 1] != "" && forall c | c in slashes :: c == '/'
    ensures GlobStart(Join(p, '/') + slashes, cwd) == (p, Pieces(cwd))
    ensures GlobStart("/" + Join(p, '/') + slashes, cwd) == (p, [])
  {
    hide Split, Join, RStrip, Pieces;
    var text := Join(p, '/');
    JoinLast(p);
    SplitJoin(p, '/');
    RStripSlashes(text, slashes);
    RStripSlashes("/" + text, slashes);
    SplitAbsolute(p);
  }

  lemma SplitAbsolute(p: seq<string>)
    requires |p| > 0 && SlashFree(p)
    ensures var r := Split("/" + Join(p, '/'), '/'); |r| > 0 && r[0] == "" && r[1..] == p
  {
    hide Split;
    var parts := [""] + p;
    assert parts[1..] == p;
    assert Join(parts, '/') == "" + "/" + Join(p, '/') == "/" + Join(p, '/');
    SplitJoin(parts, '/');
  }

  lemma {:induction false} JoinLast(p: seq<string>)
    requires |p| > 0 && SlashFree(p) && p[|p| - 1] != ""
    ensures var s := Join(p, '/'); |s| > 0 && s[|s| - 1] != '/'
  {
    var last := p[|p| - 1];
    assert last in p && last[|last| - 1] in last;
    if |p| > 1 {
      assert forall x | x in p[1..] :: x in p;
      JoinLast(p[1..]);
    }
  }

  lemma RStripSlashes(s: string, slashes: string)
    requires |s| > 0 && s[|s| - 1] != '/' && forall c | c in slashes :: c == '/'
    ensures RStrip(s + slashes, '/') == s
  {
    hide RStrip;
    var x := s + slashes;
    var r := RStrip(x, '/');
    assert x[|s| - 1] == s[|s| - 1];
    assert |r| >= |s|;
    forall k | |s| <= k < |x| ensures x[k] == '/' {
      assert x[k] == slashes[k - |s|] && slashes[k - |s|] in slashes;
    }
    assert |r| <= |s|;
    assert r == x[..|s|] == s;
  }

  /** What is found has the names of the tree. */
  lemma FoundSlashFree(at: Index, cwd: Key, c: Key)
    requires Slashless(at) && SlashFree(cwd) && ByText(at, cwd, c)
    ensures SlashFree(c)
  {
    forall x | x in c ensures '/' !in x {
      var i :| 0 <= i < |c| && c[i] == x;
      if i < |cwd| {
        assert x == cwd[i] && x in cwd;
      } else {
        var e := Ext(NonEmpty(c[..i]), c[i]);
        assert e in at && SlashFree(e) && x in e;
      }
    }
  }

  /** The same on the returned texts: no text twice, and exactly the paths of the matching nodes under
      the same condition. */
  lemma GlobTexts(st: Store, root: Inode, at: Index, m: Matcher, p: seq<string>, cwd: Key)
    requires Tree(st, root, at) && Closed(st, at) && Slashless(at)
    requires cwd in at && "" !in cwd && NoDots(p)
    ensures var r := Expand(st, at, m, p, cwd);
      && r.Some? && Distinct(Texts(r.value))
      && ((forall t :: t in Texts(r.value) <==> exists c :: Matches(at, m, p, cwd, c) && t == AbsPath(c))
          <==> Harmless(at, m, p, cwd))
  {
    hide Tree, Fits, ByText, Harmless, AbsPath;
    GlobExact(st, root, at, m, p, cwd);
    NonEmptyAll(cwd);
    GlobAny(st, root, at, m, p, cwd);
    var r := Expand(st, at, m, p, cwd).value;
    var texts := Texts(r);
    forall c | c in r || Matches(at, m, p, cwd, c) ensures SlashFree(c) && |c| == |cwd| + |p| {
      FitsBelow(m, p, cwd, c);
      if c in r {
        FoundSlashFree(at, cwd, c);
      }
    }
    forall i, j | 0 <= i < j < |texts| ensures texts[i] != texts[j] {
      assert r[i] in r && r[j] in r;
      AbsPathInjective(r[i], r[j]);
    }
    forall c | SlashFree(c) && |c| == |cwd| + |p| ensures AbsPath(c) in texts <==> c in r {
      TextOf(r, c, |c|);
    }
    if forall t :: t in texts <==> exists c :: Matches(at, m, p, cwd, c) && t == AbsPath(c) {
      forall c ensures c in r <==> Matches(at, m, p, cwd, c) {
        if c in r {
          assert AbsPath(c) in texts;
          var d :| Matches(at, m, p, cwd, d) && AbsPath(c) == AbsPath(d);
          AbsPathInjective(c, d);
        }
        if Matches(at, m, p, cwd, c) {
          assert AbsPath(c) in texts;
        }
      }
    } else {
      var t :| !(t in texts <==> exists c :: Matches(at, m, p, cwd, c) && t == AbsPath(c));
      if t in texts {
        var i :| 0 <= i < |texts| && texts[i] == t;
        assert r[i] in r && !Matches(at, m, p, cwd, r[i]);
      } else {
        var c :| Matches(at, m, p, cwd, c) && t == AbsPath(c);
        assert c !in r;
      }
    }
  }

  lemma TextOf(keys: seq<Key>, c: Key, n: nat)
    requires SlashFree(c) && |c| == n && forall k | k in keys :: SlashFree(k) && |k| == n
    ensures AbsPath(c) in Texts(keys) <==> c in keys
  {
    if AbsPath(c) in Texts(keys) {
      var i :| 0 <= i < |keys| && AbsPath(keys[i]) == AbsPath(c);
      assert keys[i] in keys;
      AbsPathInjective(keys[i], c);
    }
    if c in keys {
      var i :| 0 <= i < |keys| && keys[i] == c;
      assert Texts(keys)[i] == AbsPath(c);
    }
  }
}
