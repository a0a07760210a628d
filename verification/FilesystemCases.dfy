/** Short sessions on a new filesystem that end where one would not expect. */
module FilesystemCases {
  import opened Options
  import opened PyStrings
  import opened FsTree
  import opened Filesystem
  import opened Paths

  lemma CaseTexts()
    ensures AbsPath(["a"]) == "/a" && AbsPath(["a", "b"]) == "/a/b"
  {
    assert Join(["a", "b"], '/') == "a" + "/" + Join(["b"], '/');
  }

  /** `mkdir("/a")` on a new filesystem. */
  method OneDirectory() returns (fs: HoneyPotFilesystem, ghost a: Inode)
    ensures fresh(fs) && fresh(fs.at.Values) && fs.Valid() && fs.newcount == 1
    ensures fs.at == map[[] := fs.root, ["a"] := a] && a != fs.root
    ensures fs.root.contents == [a] && a.name == "a"
  {
    hide Tree, FileKey, Pieces, Dirname, Basename, Strip, HoneyPotFilesystem.MkdirKey;
    fs := new HoneyPotFilesystem();
    CaseTexts();
    CanonicalKeys(["a"]);
    TextLeft();
    var r, n := fs.Mkdir("/a", 0, 0, 4096, 16877, 0);
    a := n;
  }

  lemma TextLeft()
    ensures Strip("/a", '/') == "a"
  {
    StripSlashed("a");
    assert "/" + "a" == "/a";
  }

  /** `rename("/a", "/a/b")`: the directory is taken out before its new parent is looked for, so it is
      gone, with all that it may hold. */
  method RenameIntoItself() returns (fs: HoneyPotFilesystem, r: Result<()>)
    ensures fresh(fs) && fs.Valid()
    ensures r == Err(FileNotFound) && fs.at == map[[] := fs.root]
  {
    hide Tree, FileKey, EntryKey, Pieces, Dirname, Basename, HoneyPotFilesystem.MkdirKey;
    hide HoneyPotFilesystem.Moves, HoneyPotFilesystem.Twin, HoneyPotFilesystem.Valid, Prune;
    ghost var a, p, d;
    fs, a := OneDirectory();
    CaseTexts();
    CanonicalKeys(["a"]);
    CanonicalKeys(["a", "b"]);
    BasenameEmpty("/a");
    assert Parent(["a", "b"]) == ["a"];
    PrunedRoot(fs.root, a);
    r, p, d := fs.Rename("/a", "/a/b");
  }

  lemma PrunedRoot(root: Inode, a: Inode)
    ensures Prune(map[[] := root, ["a"] := a], ["a"]) == map[[] := root]
  {
  }

  /** `mkdir("/a")` twice: two entries of one name.  From then on `get_path` goes to the first of them
      and `getfile` to the second. */
  method MkdirTwice() returns (fs: HoneyPotFilesystem, r: Result<()>, first: Option<Inode>, last: Option<Inode>)
    ensures fresh(fs) && r == Ok(()) && !fs.Valid()
    ensures |fs.root.contents| == 2 && fs.root.contents[0] != fs.root.contents[1]
    ensures fs.root.contents[0].name == fs.root.contents[1].name == "a"
    ensures first == Some(fs.root.contents[0]) && last == Some(fs.root.contents[1])
  {
    hide Tree, FileKey, Pieces, Dirname, Basename, Strip, HoneyPotFilesystem.MkdirKey;
    ghost var a, n;
    fs, a := OneDirectory();
    CaseTexts();
    CanonicalKeys(["a"]);
    TextLeft();
    r, n := fs.Mkdir("/a", 0, 0, 4096, 16877, 0);
    first := fs.FirstNamed(fs.root.contents, "a");
    last := fs.LastNamed(fs.root.contents, "a");
  }

  /** The path "//" to the operations: the entry with the empty name in the root. */
  lemma DoubleSlash()
    ensures FileKey("//") == [""] && EntryKey("//") == [""]
  {
    var none, one, two := "", "/", "//";
    assert one[1..] == none && two[1..] == one;
    assert LStrip(none, '/') == none;
    assert LStrip(one, '/') == none;
    assert LStrip(two, '/') == none;
    PiecesLStrip(two);
    SlashesOnly();
    BasenameEmpty(two);
    PiecesDirBase(two);
  }

  lemma NotSpecial()
    ensures !Special("/a/f")
  {
    var path := "/a/f";
    assert Dirname(path) <= path;
    forall i | 0 <= i < |SPECIAL_PATHS| ensures !(SPECIAL_PATHS[i] <= Dirname(path)) {
      assert SPECIAL_PATHS[i][1] != path[1];
    }
  }

  lemma MovedKeys(root: Inode, a: Inode, f: Inode)
    ensures var at: Index := map[[] := root, ["a"] := a, ["a", "f"] := f];
      Graft(Prune(at, ["a"]), [""], Sub(at, ["a"])) == map[[] := root, [""] := a, ["", "f"] := f]
  {
    hide Prune, Graft, Sub;
    PrunedDirectory(root, a, f);
    CutDirectory(root, a, f);
    HungDirectory(root, a, f);
  }

  lemma CutDirectory(root: Inode, a: Inode, f: Inode)
    ensures Sub(map[[] := root, ["a"] := a, ["a", "f"] := f], ["a"]) == map[[] := a, ["f"] := f]
  {
    hide Sub;
    var at: Index := map[[] := root, ["a"] := a, ["a", "f"] := f];
    assert ["a"] + [] == ["a"] && ["a"] + ["f"] == ["a", "f"];
    forall q ensures q in Sub(at, ["a"]) <==> q == [] || q == ["f"] {
      assert (["a"] + q)[1..] == q;
      assert ["a"][1..] == [] && ["a", "f"][1..] == ["f"];
    }
  }

  lemma HungDirectory(root: Inode, a: Inode, f: Inode)
    ensures Graft(map[[] := root], [""], map[[] := a, ["f"] := f]) == map[[] := root, [""] := a, ["", "f"] := f]
  {
    hide Graft;
    var moved := Graft(map[[] := root], [""], map[[] := a, ["f"] := f]);
    assert [""][1..] == [] && ["", "f"][1..] == ["f"] && [""] <= ["", "f"];
    forall l ensures l in moved <==> l == [] || l == [""] || l == ["", "f"] {
      if [""] <= l {
        assert l == [""] + l[1..];
      }
    }
  }

  /** `mkdir("/a")`, a file `/a/f`, and `rename("/a", "//")`: the directory gets the empty name. */
  method EmptyName() returns (fs: HoneyPotFilesystem, ghost a: Inode, ghost f: Inode)
    ensures fresh(fs) && fs.Valid() && fs.at == map[[] := fs.root, [""] := a, ["", "f"] := f]
    ensures fs.root.contents == [a] && a.name == ""
  {
    hide Tree, FileKey, EntryKey, Pieces, Dirname, Basename, Special, HoneyPotFilesystem.MkdirKey;
    hide Prune, Graft, Sub, Without, HoneyPotFilesystem.Valid, HoneyPotFilesystem.Moves, HoneyPotFilesystem.Twin, Rows;
    ghost var p, d;
    fs, a := OneDirectory();
    f := OneFile(fs, a);
    CaseTexts();
    CanonicalKeys(["a"]);
    BasenameEmpty("/a");
    DoubleSlash();
    BasenameEmpty("//");
    MovedKeys(fs.root, a, f);
    PrunedDirectory(fs.root, a, f);
    assert Parent([""]) == [];
    ghost var st, before := fs.Snapshot(), fs.at;
    assert fs.root in st && st[fs.root].contents == [a] by { RootRow(fs); }
    EntryParent("/a");
    assert Parent(["a"]) == [];
    var r;
    r, p, d := fs.Rename("/a", "//");
    MovedToRoot(fs, st, before, a, f, p, d);
  }

  lemma MovedToRoot(fs: HoneyPotFilesystem, st: Store, before: Index, a: Inode, f: Inode, p: Inode, d: Option<Inode>)
    requires before == map[[] := fs.root, ["a"] := a, ["a", "f"] := f] && fs.root in st && st[fs.root].contents == [a]
    requires fs.Moves(st, before, ["a"], "/a", "//", p, d) && d == Some(fs.root) && a != fs.root
    requires FileKey("/a") == ["a"] && Pieces(Dirname("/a")) == [] && Basename("//") == ""
    ensures fs.root.contents == [a] && a.name == ""
  {
    hide FileKey, Pieces, Dirname, Basename, Find, Without;
    assert before[["a"]] == a && before[[]] == fs.root;
    fs.MovesMeaning(st, before, ["a"], "/a", "//", p, d);
    WithoutOnly(a);
  }

  lemma RootRow(fs: HoneyPotFilesystem)
    requires [] in fs.at && fs.at[[]] == fs.root
    ensures fs.root in fs.Snapshot() && fs.Snapshot()[fs.root].contents == fs.root.contents
  {
    assert fs.root in fs.at.Values;
  }

  lemma WithoutOnly(a: Inode)
    ensures Without([a], a) == []
  {
  }

  lemma PrunedDirectory(root: Inode, a: Inode, f: Inode)
    ensures Prune(map[[] := root, ["a"] := a, ["a", "f"] := f], ["a"]) == map[[] := root]
  {
    assert ["a"] <= ["a", "f"];
  }

  lemma FileText()
    ensures AbsPath(["a", "f"]) == "/a/f"
  {
    assert Join(["a", "f"], '/') == "a" + "/" + Join(["f"], '/');
  }

  lemma FileTexts()
    ensures Pieces(Dirname("/a/f")) == ["a"] && EntryKey("/a/f") == ["a", "f"]
  {
    hide AbsPath, FileKey, EntryKey, Pieces, Dirname, Basename, RStrip, HoneyPotFilesystem.MkdirKey;
    EntryParent("/a/f");
    FileText();
    CanonicalKeys(["a", "f"]);
  }

  lemma EntryParent(path: string)
    ensures EntryKey(path) != [] && Parent(EntryKey(path)) == Pieces(Dirname(path))
  {
  }

  /** A file `/a/f` in the filesystem with the one directory `/a`. */
  method OneFile(fs: HoneyPotFilesystem, ghost a: Inode) returns (ghost f: Inode)
    requires fs.Valid() && fs.newcount <= 10000 && a != fs.root
    requires fs.at == map[[] := fs.root, ["a"] := a] && fs.root.contents == [a] && a.name == "a"
    modifies fs, fs.at.Values
    ensures fs.Valid() && fs.at == map[[] := fs.root, ["a"] := a, ["a", "f"] := f]
    ensures fresh(f) && fs.root.contents == [a] && a.name == "a"
  {
    hide Tree, EntryKey, Pieces, Dirname, Basename, Special, Prune, Without;
    FileTexts();
    NotSpecial();
    TreeParts(fs.Snapshot(), fs.root, fs.at);
    PruneAbsent(fs.at, ["a", "f"]);
    assert fs.at[[]] == fs.root && fs.at[["a"]] == a;
    var r;
    r, f := fs.Mkfile("/a/f", 0, 0, 0, 0, 0);
  }

  /** Every name matches every piece. */
  function Anything(): Matcher { (name, piece) => true }

  lemma StarPieces()
    ensures GlobStart("/*/*", "/") == (["*", "*"], [])
  {
    var parts := ["", "*", "*"];
    assert Join(parts[1..], '/') == "*" + "/" + Join(["*"], '/');
    assert Join(parts, '/') == "/*/*";
    SplitJoin(parts, '/');
    assert RStrip("/*/*", '/') == "/*/*";
    assert Split("/*/*", '/')[1..] == ["*", "*"];
  }

  /** The glob of two levels: both of them list the root. */
  lemma StarKeys(st: Store, at: Index)
    requires Closed(st, at) && [] in at && NamesAt(st, at, []) == [""]
    ensures Expand(st, at, Anything(), ["*", "*"], []) == Some([["", ""]])
  {
    var m := Anything();
    assert NonEmpty([""]) == [] && NonEmpty([]) == [];
    assert Ext([], "") == [""] && Ext([""], "") == ["", ""];
    assert ["*", "*"][1..] == ["*"] && ["*"][1..] == [] && [""][1..] == [];
    assert Expand(st, at, m, [], ["", ""]) == Some([["", ""]]);
    assert ExpandAll(st, at, m, ["*"], [""], []) == Some([]);
    assert ExpandAll(st, at, m, ["*"], [""], [""]) == Some([["", ""]] + []);
    assert [["", ""]] + [] == [["", ""]] && NamesAt(st, at, NonEmpty([""])) == [""];
    assert Expand(st, at, m, ["*"], [""]) == Some([["", ""]]);
    assert ExpandAll(st, at, m, ["*", "*"], [], []) == Some([]);
    assert ExpandAll(st, at, m, ["*", "*"], [], [""]) == Some([["", ""]] + []);
  }

  /** The glob of two levels through the directory with the empty name: it lists the root again and
      answers with a path that is not there, instead of the file that is. */
  method GlobThroughEmptyName() returns (fs: HoneyPotFilesystem, found: Option<seq<string>>)
    ensures fresh(fs) && fs.Valid() && found == Some(["//"])
    ensures ["", ""] !in fs.at && Matches(fs.at, Anything(), ["*", "*"], [], ["", "f"])
    ensures !Harmless(fs.at, Anything(), ["*", "*"], [])
  {
    hide Tree, Expand, GlobStart, Fits, Detours, ByText, Texts, NonEmpty, HoneyPotFilesystem.Valid;
    ghost var a, f;
    fs, a, f := EmptyName();
    TreeClosed(fs.Snapshot(), fs.root, fs.at) by { IsTree(fs); }
    StarPieces();
    StarTexts();
    FileFits();
    FileByText(fs.at);
    SlashFreeKeys(fs.at, fs.root, a, f);
    assert fs.at[[]] == fs.root && fs.at[[""]] == a;
    NamedInRoot(fs, a);
    StarKeys(fs.Snapshot(), fs.at);
    found := ResolvePathWc(fs, Anything(), "/*/*", "/");
  }

  lemma StarTexts()
    ensures Texts([["", ""]]) == ["//"]
  {
    var parts := ["", ""];
    assert parts[1..] == [""];
    assert Join(parts[1..], '/') == "";
    assert Join(parts, '/') == "" + "/" + Join(parts[1..], '/') == "/";
    assert Texts([parts])[0] == AbsPath(parts) == "/" + "/" == "//";
  }

  lemma FileFits()
    ensures Fits(Anything(), ["*", "*"], [], ["", "f"]) && Detours([], ["", "f"])
  {
    assert ["", "f"][0..1] == [""];
  }

  lemma FileByText(at: Index)
    requires ["f"] !in at
    ensures !ByText(at, [], ["", "f"])
  {
    var c := ["", "f"];
    assert c[..1] == [""] && NonEmpty([""]) == [] && Ext([], "f") == ["f"] && c[1] == "f";
  }

  lemma SlashFreeKeys(at: Index, root: Inode, a: Inode, f: Inode)
    requires at == map[[] := root, [""] := a, ["", "f"] := f]
    ensures Slashless(at) && ["f"] !in at && ["", ""] !in at
  {
  }

  lemma NamedInRoot(fs: HoneyPotFilesystem, a: Inode)
    requires fs.root.contents == [a] && a.name == "" && [] in fs.at && fs.at[[]] == fs.root && a in fs.at.Values
    requires Closed(fs.Snapshot(), fs.at)
    ensures NamesAt(fs.Snapshot(), fs.at, []) == [""]
  {
  }

  lemma IsTree(fs: HoneyPotFilesystem)
    requires fs.Valid()
    ensures Tree(fs.Snapshot(), fs.root, fs.at)
  {
  }
}
