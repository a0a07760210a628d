/** `HoneyPotFilesystem` of `cowrie/shell/fs.py`: lookups and the operations that edit the tree in
    place.  The tree is made of heap objects; `at` is a ghost index that says which object sits at
    which key, and `Valid` says that the index is exact. */
module Filesystem {
  import opened Options
  import opened PyStrings
  import opened FsTree

  datatype Error = FileNotFound | PermissionDenied | Quota | NoEntry | Exists | NotDir | NotEmpty | NotInList

  datatype Result<+T> = Ok(value: T) | Err(error: Error)

  const SPECIAL_PATHS: seq<string> := ["/sys", "/proc", "/dev/pts"]

  /** What `getfile` walks: an inner empty piece is kept, and only the exact text "/" is the root. */
  function FileKey(path: string): Key {
    if path == "/" then [] else Split(Strip(path, '/'), '/')
  }

  /** `get_path(os.path.dirname(path))` and `os.path.basename(path)` in one key. */
  function EntryKey(path: string): Key {
    Ext(Pieces(Dirname(path)), Basename(path))
  }

  predicate Special(path: string) {
    exists i | 0 <= i < |SPECIAL_PATHS| :: SPECIAL_PATHS[i] <= Dirname(path)
  }

  /** The directories that `mkfile` refuses: those whose text starts with one of three texts, so that
      "/system" is one of them, too. */
  lemma SpecialMeaning(path: string)
    ensures Special(path) <==> "/sys" <= Dirname(path) || "/proc" <= Dirname(path) || "/dev/pts" <= Dirname(path)
  {
    assert SPECIAL_PATHS[0] == "/sys" && SPECIAL_PATHS[1] == "/proc" && SPECIAL_PATHS[2] == "/dev/pts";
  }

  lemma SystemIsSpecial(name: string)
    requires '/' !in name
    ensures Special("/system" + "/" + name) && !Special("/home" + "/" + name)
  {
    hide Special;
    var system, home := "/system", "/home";
    assert system[..4] == "/sys" && home[1] == 'h';
    SpecialIn(system, name);
    SpecialIn(home, name);
  }

  lemma SpecialIn(dir: string, name: string)
    requires '/' !in name && |dir| > 0 && dir[|dir| - 1] != '/'
    ensures Special(dir + "/" + name) <==> "/sys" <= dir || "/proc" <= dir || "/dev/pts" <= dir
  {
    DirnameOf(dir, name);
    SpecialMeaning(dir + "/" + name);
  }

  /** The pieces that `getfile` walks, joined again, are the path without the slashes at its ends. */
  lemma FileKeyJoins(path: string)
    requires path != "/"
    ensures Join(FileKey(path), '/') == Strip(path, '/') && SlashFree(FileKey(path))
  {
    SplitPieces(Strip(path, '/'), '/');
  }

  /** No entry has an empty name or one with a slash.  Only `mkfile` and `rename` on a path that ends in
      a slash can break the first, and nothing the second. */
  ghost predicate Named(at: Index) {
    forall k | k in at :: AllNames(k)
  }

  ghost predicate Slashless(at: Index) {
    forall k | k in at :: SlashFree(k)
  }

  ghost function Rows(ns: set<Inode>): Store
    reads ns
  {
    map n | n in ns :: Rec(n.name, n.contents)
  }

  /** When every piece of `path` that `getfile` walks is a proper name, `getfile`, `get_path` and
      dirname / basename all speak of the same entry. */
  lemma PathKeys(path: string)
    requires "" !in FileKey(path)
    ensures FileKey(path) == Pieces(path)
    ensures Basename(path) != "" ==>
      FileKey(path) != [] && Parent(FileKey(path)) == Pieces(Dirname(path)) && Last(FileKey(path)) == Basename(path)
    ensures Basename(path) == "" ==> FileKey(path) == Pieces(Dirname(path))
  {
    PiecesDirBase(path);
    if path == "/" {
      PiecesStrip("/");
      assert Strip("/", '/') == "";
    } else {
      PiecesStrip(path);
      NonEmptyAll(FileKey(path));
    }
  }

  lemma PruneNamed(at: Index, k: Key)
    requires Named(at)
    ensures Named(Prune(at, k))
  {
  }

  lemma PruneSlashless(at: Index, k: Key)
    requires Slashless(at)
    ensures Slashless(Prune(at, k))
  {
  }

  /** What `rmdir` deletes is what `get_path` finds, and that has a parent and a name of its own. */
  lemma RmdirKeys(path: string, st: Store, root: Inode, at: Index)
    requires Tree(st, root, at)
    ensures var text := RStrip(path, '/'); var k := Pieces(text);
      FileKey(text) in at && k in at && at[k] in st && st[at[k]].contents == [] ==>
        && k != [] && Parent(k) in at && at[Parent(k)] != at[k]
        && Parent(k) == Pieces(Dirname(text)) && Last(k) == Basename(text)
    ensures Named(at) && FileKey(RStrip(path, '/')) in at ==> FileKey(RStrip(path, '/')) == Pieces(RStrip(path, '/'))
  {
    hide Split, Basename, Dirname, Pieces, Strip;
    var text := RStrip(path, '/');
    var k := Pieces(text);
    BasenameEmpty(text);
    PiecesDirBase(text);
    if FileKey(text) in at {
      if text == "" {
        NoText();
        OwnName(st, root, at, [""]);
        assert Parent([""]) == [];
      } else if k in at {
        ParentIndexed(st, root, at, k);
      }
      if "" !in FileKey(text) {
        PathKeys(text);
      }
    }
  }

  lemma NoText()
    ensures FileKey("") == [""] && Pieces("") == []
  {
  }

  class HoneyPotFilesystem {
    const root: Inode
    var newcount: nat
    ghost var at: Index

    ghost function Snapshot(): Store
      reads this, at.Values
    {
      Rows(at.Values)
    }

    ghost predicate Valid()
      reads this, at.Values
    {
      && Tree(Snapshot(), root, at)
      && forall n | n in at.Values :: n.kind != Link
    }

    /** Of the nodes `ns` there were, only `d` changed, and only in that it now lists `cs`. */
    static twostate predicate Edited(ns: set<Inode>, d: Inode, new cs: seq<Inode>)
      reads ns, d
    {
      && d.contents == cs && d.name == old(d.name)
      && forall n | n in ns && n != d :: unchanged(n)
    }

    twostate predicate Untouched(ns: set<Inode>)
      reads this, ns
    {
      && at == old(at) && newcount == old(newcount)
      && forall n | n in ns :: unchanged(n)
    }

    constructor ()
      ensures Valid() && Named(at)
      ensures at == map[[] := root] && newcount == 0 && fresh(root) && root.contents == []
    {
      var r := new Inode("/", Dir, Meta(0, 0, 4096, 16877, 0, None, None));
      root, newcount, at := r, 0, map[[] := r];
    }

    /** The scan of `getfile`: the last entry of the name wins. */
    method LastNamed(cs: seq<Inode>, name: string) returns (r: Option<Inode>)
      ensures r == None ==> forall c | c in cs :: c.name != name
      ensures r.Some? ==> r.value in cs && r.value.name == name
      ensures r.Some? ==> exists i :: 0 <= i < |cs| && cs[i] == r.value && r.value.name == name
                                      && forall j | i < j < |cs| :: cs[j].name != name
    {
      r := None;
      for i := 0 to |cs|
        invariant r == None ==> forall c | c in cs[..i] :: c.name != name
        invariant r.Some? ==> exists h :: 0 <= h < i && cs[h] == r.value && r.value.name == name
                                          && forall j | h < j < i :: cs[j].name != name
      {
        if cs[i].name == name {
          r := Some(cs[i]);
        }
      }
    }

    /** The scan of `get_path`: the first entry of the name wins. */
    method FirstNamed(cs: seq<Inode>, name: string) returns (r: Option<Inode>)
      ensures r == None ==> forall c | c in cs :: c.name != name
      ensures r.Some? ==> r.value in cs && r.value.name == name
      ensures r.Some? ==> exists i :: 0 <= i < |cs| && cs[i] == r.value && r.value.name == name
                                      && forall j | 0 <= j < i :: cs[j].name != name
    {
      for i := 0 to |cs|
        invariant forall c | c in cs[..i] :: c.name != name
      {
        if cs[i].name == name {
          return Some(cs[i]);
        }
      }
      return None;
    }

    /** `get_path`, in any heap: `ns` holds all the nodes that can be reached. */
    method LookUp(path: string, ghost ns: set<Inode>) returns (r: Option<Inode>)
      requires root in ns && forall m, c | m in ns && c in m.contents :: c in ns
      ensures r == Find(Rows(ns), root, Pieces(path))
      ensures r.Some? ==> r.value in ns
    {
      hide Find, FirstIn;
      var parts := Split(path, '/');
      var cwd := root;
      assert parts[0..] == parts;
      for i := 0 to |parts|
        invariant cwd in ns
        invariant Find(Rows(ns), root, Pieces(path)) == Find(Rows(ns), cwd, NonEmpty(parts[i..]))
      {
        assert parts[i..][1..] == parts[i + 1..];
        if |parts[i]| > 0 {
          assert NonEmpty(parts[i..]) == [parts[i]] + NonEmpty(parts[i + 1..]);
          FindStep(ns, cwd, parts[i], NonEmpty(parts[i + 1..]));
          var c := FirstNamed(cwd.contents, parts[i]);
          if c == None {
            return None;
          }
          cwd := c.value;
        }
      }
      FindHere(Rows(ns), cwd);
      return Some(cwd);
    }

    static lemma FindHere(st: Store, n: Inode)
      ensures Find(st, n, []) == Some(n)
    {
    }

    /** One step of the lookup, and what the scan of the list finds. */
    static lemma FindStep(ns: set<Inode>, cwd: Inode, name: string, rest: Key)
      requires cwd in ns && forall c | c in cwd.contents :: c in ns
      ensures (forall c | c in cwd.contents :: c.name != name) ==> Find(Rows(ns), cwd, [name] + rest) == None
      ensures forall i | 0 <= i < |cwd.contents| && cwd.contents[i].name == name
                         && (forall j | 0 <= j < i :: cwd.contents[j].name != name) ::
        Find(Rows(ns), cwd, [name] + rest) == Find(Rows(ns), cwd.contents[i], rest)
    {
      hide FirstIn;
      var st, cs := Rows(ns), cwd.contents;
      assert ([name] + rest)[1..] == rest;
      assert st[cwd].contents == cs;
      FirstInMember(st, cs, name);
      forall i | 0 <= i < |cs| && cs[i].name == name && (forall j | 0 <= j < i :: cs[j].name != name)
        ensures Find(st, cwd, [name] + rest) == Find(st, cs[i], rest)
      {
        assert forall j | 0 <= j <= i :: cs[j] in cs;
        FirstInAt(st, cs, name, i);
      }
    }

    method GetPath(path: string) returns (r: Option<Inode>)
      requires Valid()
      ensures r == if Pieces(path) in at then Some(at[Pieces(path)]) else None
    {
      hide Tree, Find, Pieces;
      ghost var st := Snapshot();
      RootIndexed(st, root, at);
      TreeClosed(st, root, at);
      NodesClosed();
      FindIndexed(st, root, at, [], Pieces(path));
      assert [] + Pieces(path) == Pieces(path);
      r := LookUp(path, at.Values);
    }

    lemma NodesClosed()
      requires Closed(Snapshot(), at)
      ensures forall m, c | m in at.Values && c in m.contents :: c in at.Values
    {
      forall m, c | m in at.Values && c in m.contents ensures c in at.Values {
        var k :| k in at && at[k] == m;
        assert c in Snapshot()[at[k]].contents;
      }
    }

    method GetFile(path: string) returns (r: Option<Inode>)
      requires Valid()
      ensures r == if FileKey(path) in at then Some(at[FileKey(path)]) else None
    {
      hide Tree;
      RootIndexed(Snapshot(), root, at);
      if path == "/" {
        return Some(root);
      }
      var pieces := Split(Strip(path, '/'), '/');
      var p := root;
      for i := 0 to |pieces|
        invariant pieces[..i] in at && at[pieces[..i]] == p
      {
        ghost var next := Ext(pieces[..i], pieces[i]);
        assert next == pieces[..i + 1];
        ChildNamed(Snapshot(), root, at, pieces[..i], pieces[i]);
        var x := LastNamed(p.contents, pieces[i]);
        if x == None {
          assert next <= pieces;
          return None;
        }
        assert x.value in Snapshot()[at[pieces[..i]]].contents;
        p := x.value;
      }
      assert pieces[..|pieces|] == pieces;
      return Some(p);
    }

    ghost function Below(k: Key): set<Key>
      reads this
    {
      set l | l in at && k <= l
    }

    /** Python's == on two node lists. */
    method Equal(a: Inode, b: Inode, ghost k: Key, ghost l: Key) returns (eq: bool)
      requires Valid() && Closed(Snapshot(), at)
      requires k in at && at[k] == a && l in at && at[l] == b
      ensures eq <==> Same(Snapshot(), at, k, l)
      decreases Below(k), 1
    {
      if a == b {
        return true;
      }
      if a.name == b.name && a.kind == b.kind && a.meta == b.meta && |a.contents| == |b.contents| {
        eq := EqualLists(a, b, k, l);
      } else {
        eq := false;
        if Same(Snapshot(), at, k, l) { SameName(Snapshot(), root, at, k, l); }
      }
    }

    method EqualLists(a: Inode, b: Inode, ghost k: Key, ghost l: Key) returns (eq: bool)
      requires Valid() && Closed(Snapshot(), at)
      requires k in at && at[k] == a && l in at && at[l] == b
      requires a.name == b.name && a.kind == b.kind && a.meta == b.meta && |a.contents| == |b.contents|
      ensures eq <==> Same(Snapshot(), at, k, l)
      decreases Below(k), 0
    {
      hide Tree, Same;
      ghost var st := Snapshot();
      for i := 0 to |a.contents|
        invariant forall j | 0 <= j < i ::
          Same(st, at, Ext(k, st[a.contents[j]].name), Ext(l, st[b.contents[j]].name))
      {
        var x, y := a.contents[i], b.contents[i];
        ListedEntry(k, i);
        ListedEntry(l, i);
        var e := Equal(x, y, Ext(k, x.name), Ext(l, y.name));
        if !e {
          DifferentEntry(st, root, at, k, l, i);
          return false;
        }
      }
      EqualEntries(st, root, at, k, l);
      return true;
    }

    lemma ListedEntry(k: Key, i: nat)
      requires Valid() && k in at && i < |at[k].contents|
      ensures var c := at[k].contents[i];
        Ext(k, c.name) in at && at[Ext(k, c.name)] == c && Below(Ext(k, c.name)) < Below(k)
    {
      var c := at[k].contents[i];
      assert Linked(Snapshot(), at, k, c);
      assert k in Below(k) && k !in Below(Ext(k, c.name));
    }

    /** Python's `d.contents.remove(x)`: drops the first entry equal to `x`; None is its ValueError. */
    method ListRemove(d: Inode, x: Inode, ghost dk: Key, ghost xk: Key) returns (r: Option<nat>)
      requires Valid() && Closed(Snapshot(), at)
      requires dk in at && at[dk] == d && xk in at && at[xk] == x
      modifies d`contents
      ensures r == None ==>
        && d.contents == old(d.contents)
        && forall c | c in d.contents :: !old(Same(Snapshot(), at, Ext(dk, c.name), xk))
      ensures r.Some? ==>
        && r.value < |old(d.contents)|
        && old(Same(Snapshot(), at, Ext(dk, d.contents[r.value].name), xk))
        && (forall j | 0 <= j < r.value :: !old(Same(Snapshot(), at, Ext(dk, d.contents[j].name), xk)))
        && d.contents == old(d.contents[..r.value] + d.contents[r.value + 1..])
    {
      for i := 0 to |d.contents|
        invariant d.contents == old(d.contents)
        invariant forall j | 0 <= j < i :: !Same(Snapshot(), at, Ext(dk, d.contents[j].name), xk)
      {
        var c := d.contents[i];
        assert Linked(Snapshot(), at, dk, c);
        var e := Equal(c, x, Ext(dk, c.name), xk);
        if e {
          d.contents := d.contents[..i] + d.contents[i + 1..];
          return Some(i);
        }
      }
      return None;
    }

    /** There is an entry at `e`, and it prints like the node at `k`. */
    ghost predicate Twin(e: Key, k: Key)
      reads this, at.Values
    {
      && e in at && k in at && Closed(Snapshot(), at)
      && Same(Snapshot(), at, e, k)
    }

    /** `remove` deletes the one entry with the name of `x`, if that is equal to `x`, and else fails. */
    method RemoveTwin(d: Inode, x: Inode, ghost dk: Key, ghost xk: Key) returns (found: bool)
      requires Valid() && dk in at && at[dk] == d && xk in at && at[xk] == x
      modifies this`at, d`contents
      ensures Valid() && found == old(Twin(Ext(dk, x.name), xk))
      ensures !found ==> d.contents == old(d.contents) && at == old(at)
      ensures found ==>
        var e := Ext(dk, x.name);
        && d.contents == Without(old(d.contents), old(at)[e])
        && at == Prune(old(at), e) && at.Values <= old(at.Values) && dk in at && at[dk] == d
    {
      hide Tree, Same, Without, Prune;
      ghost var st, was, before, e := Snapshot(), d.contents, at, Ext(dk, x.name);
      TreeClosed(st, root, at);
      TreeParts(st, root, at);
      assert Parent(e) == dk;
      var r := ListRemove(d, x, dk, xk);
      if r == None {
        TwinListed(st, root, at, dk, xk);
        return false;
      }
      assert was[r.value] in was;
      TwinEntry(st, root, at, dk, xk, was[r.value]);
      forall j | 0 <= j < r.value ensures was[j] != was[r.value] {
        assert was[j] in was;
      }
      WithoutAt(was, r.value);
      PruneValues(at, e);
      at := Prune(at, e);
      PruneFrame(st, root, before, e, Snapshot());
      return true;
    }

    /** `remove` on the list that holds `x` deletes `x` and nothing else. */
    method RemoveEntry(d: Inode, x: Inode, ghost k: Key)
      requires Valid()
      requires k in at && k != [] && Parent(k) in at && at[Parent(k)] == d && at[k] == x
      modifies this`at, d`contents
      ensures d.contents == Without(old(d.contents), x)
      ensures at == Prune(old(at), k) && at.Values <= old(at.Values) && Valid()
      ensures k !in at && Parent(k) in at && at[Parent(k)] == d
    {
      hide Tree, Same, Without, Prune;
      TreeClosed(Snapshot(), root, at);
      OwnName(Snapshot(), root, at, k);
      OnlyItself(Snapshot(), root, at, k);
      assert Ext(Parent(k), Last(k)) == k;
      PruneValues(at, k);
      var found := RemoveTwin(d, x, Parent(k), k);
    }

    /** `d.contents.append(n)`, where `n` heads a tree of its own.  With the name free, the index gains
        that tree; with the name taken, `d` has two entries of one name and no index fits. */
    method Append(d: Inode, n: Inode, ghost k: Key, ghost sub: Index)
      requires Valid() && Tree(Rows(sub.Values), n, sub) && Apart(at, sub)
      requires forall m | m in sub.Values :: m.kind != Link
      requires k != [] && Parent(k) in at && at[Parent(k)] == d && n.name == Last(k)
      modifies this`at, d`contents
      ensures d.contents == old(d.contents) + [n]
      ensures k !in old(at) ==> Valid() && at == Graft(old(at), k, sub)
      ensures k in old(at) ==> at == old(at) && !Valid() && old(at)[k] in old(d.contents) && old(at)[k].name == n.name
    {
      hide Tree, Apart, Graft, Parented, Once, AppendedRows, Rows;
      ghost var ns := at.Values + sub.Values;
      ghost var st := Rows(ns);
      BothTrees(n, k, sub, ns);
      Push(d, n, ns);
      Hang(d, n, k, sub, ns, st);
    }

    /** The index after an append. */
    ghost method Hang(d: Inode, n: Inode, k: Key, sub: Index, ns: set<Inode>, st: Store)
      requires at.Values + sub.Values <= ns
      requires Tree(st, root, at) && Tree(st, n, sub) && Apart(at, sub) && n in st
      requires forall m | m in at.Values + sub.Values :: m.kind != Link
      requires AppendedRows(st, Rows(ns), ns, d, n) && n in d.contents && n !in at.Values
      requires k != [] && Parent(k) in at && at[Parent(k)] == d && st[n].name == Last(k)
      modifies this`at
      ensures k !in old(at) ==> Valid() && at == Graft(old(at), k, sub)
      ensures k in old(at) ==> at == old(at) && !Valid()
    {
      hide Tree, Apart, Graft, Parented, Once, AppendedRows, Rows;
      if k !in at {
        TreeParts(st, root, at);
        GraftValues(at, k, sub);
        AppendedLess(st, ns, at.Values + sub.Values, d, n);
        GraftFrame(st, root, at, k, n, sub, Rows(at.Values + sub.Values));
        at := Graft(at, k, sub);
      } else {
        UnknownEntry(d, n, k);
      }
    }

    static lemma AppendedLess(st: Store, ns: set<Inode>, fewer: set<Inode>, d: Inode, n: Inode)
      requires AppendedRows(st, Rows(ns), ns, d, n) && fewer <= ns
      ensures AppendedRows(st, Rows(fewer), fewer, d, n)
    {
    }

    /** The two trees in one store, and the entry that may already have the name. */
    lemma BothTrees(n: Inode, k: Key, sub: Index, ns: set<Inode>)
      requires Valid() && Tree(Rows(sub.Values), n, sub) && Apart(at, sub) && at.Values + sub.Values <= ns
      requires k != []
      ensures var st := Rows(ns);
        && Tree(st, root, at) && Tree(st, n, sub)
        && n in st && st[n].name == n.name && n !in at.Values
      ensures k in at && Parent(k) in at ==> at[k] in at[Parent(k)].contents && at[k].name == Last(k)
    {
      hide Tree, Apart;
      var st := Rows(ns);
      FrameTree(Snapshot(), root, at, st);
      FrameTree(Rows(sub.Values), n, sub, st);
      RootIndexed(st, n, sub);
      ApartValues(at, sub);
      assert sub[[]] in sub.Values;
      if Parent(k) in at {
        OwnName(st, root, at, k);
      }
    }

    lemma UnknownEntry(d: Inode, n: Inode, k: Key)
      requires k != [] && Parent(k) in at && at[Parent(k)] == d && n in d.contents && n !in at.Values
      ensures !Valid()
    {
      hide Tree;
      NotATree(Snapshot(), root, at, Parent(k), n);
    }

    /** The one assignment of `append`, and its effect on the rows of any set of nodes around it. */
    method Push(d: Inode, n: Inode, ghost ns: set<Inode>)
      requires d in ns
      modifies d`contents
      ensures d.contents == old(d.contents) + [n]
      ensures AppendedRows(old(Rows(ns)), Rows(ns), ns, d, n)
      ensures Rows(ns) == EnteredRows(old(Rows(ns)), Some(d), n)
    {
      d.contents := d.contents + [n];
    }

    /** The entry that `remove` and `rename` take out for a path that `getfile` finds: the one with the
        name of that node, in the directory that `get_path` finds. */
    ghost function TwinKey(path: string): Key
      requires FileKey(path) in at
      reads this, at.Values
    {
      Ext(Pieces(Dirname(path)), at[FileKey(path)].name)
    }

    /** `self.get_path(os.path.dirname(path)).remove(p)` for the node `p` that `getfile(path)` found. */
    method Unlink(path: string, p: Inode) returns (r: Result<()>, ghost d: Inode)
      requires Valid()
      requires FileKey(path) in at && at[FileKey(path)] == p
      modifies this`at, at.Values
      ensures Valid()
      ensures r == if Pieces(Dirname(path)) !in old(at) then Err(FileNotFound)
                   else if !old(Twin(TwinKey(path), FileKey(path))) then Err(NotInList)
                   else Ok(())
      ensures r.Err? ==> Untouched(old(at.Values))
      ensures r.Ok? ==>
        var e := old(TwinKey(path));
        && e in old(at) && at == Prune(old(at), e) && old(at)[Pieces(Dirname(path))] == d
        && Edited(old(at.Values), d, Without(old(d.contents), old(at)[e]))
    {
      hide Tree, Same, Without, Prune, FileKey, Pieces, Basename, Dirname;
      var dir := GetPath(Dirname(path));
      if dir == None {
        return Err(FileNotFound), root;
      }
      d := dir.value;
      var found := RemoveTwin(dir.value, p, Pieces(Dirname(path)), FileKey(path));
      r := if found then Ok(()) else Err(NotInList);
    }

    /** On a path without empty pieces the entry taken out is the node found itself; there is none
        exactly for a path that ends in a slash, the root included. */
    lemma TwinIsNode(path: string)
      requires Valid() && FileKey(path) in at && "" !in FileKey(path)
      ensures Pieces(Dirname(path)) in at
      ensures Twin(TwinKey(path), FileKey(path)) <==> Basename(path) != ""
      ensures Basename(path) != "" ==>
        && FileKey(path) != [] && TwinKey(path) == FileKey(path)
        && Parent(FileKey(path)) == Pieces(Dirname(path))
    {
      hide Tree, Same, FileKey, Pieces, Basename, Dirname;
      var k, st := FileKey(path), Snapshot();
      PathKeys(path);
      TreeClosed(st, root, at);
      ParentIndexed(st, root, at, k);
      if Basename(path) != "" {
        OwnName(st, root, at, k);
        assert Ext(Parent(k), Last(k)) == k;
        SameSelf(st, at, k);
      } else {
        NotSameAsChild(st, at, k, at[k].name);
      }
    }

    /** The entry that `mkfile` and `mkdir` append: a node without contents of its own. */
    method AppendNew(d: Inode, name: string, kind: Kind, meta: Meta, ghost k: Key) returns (n: Inode)
      requires Valid() && kind != Link
      requires k != [] && Parent(k) in at && at[Parent(k)] == d && name == Last(k)
      modifies this`at, d`contents
      ensures fresh(n) && n.name == name && n.kind == kind && n.meta == meta && n.contents == []
      ensures Edited(old(at.Values), d, old(d.contents) + [n])
      ensures k !in old(at) ==> Valid() && at == old(at)[k := n]
      ensures k in old(at) ==> at == old(at) && !Valid() && old(at)[k] in old(d.contents) && old(at)[k].name == name
    {
      hide Tree, Apart, Graft, Parent;
      n := new Inode(name, kind, meta);
      ghost var sub: Index := map[[] := n];
      assert sub[[]] == n && sub.Values == {n};
      SingletonTree(Rows({n}), n);
      ApartOne(at, n);
      GraftOne(at, k, n);
      Append(d, n, k, sub);
    }

    /** The list surgery of `mkfile`: an entry of that name, whatever it is, makes room for the new one. */
    method Replace(d: Inode, name: string, meta: Meta, ghost k: Key) returns (n: Inode)
      requires Valid() && k != [] && Parent(k) in at && at[Parent(k)] == d && name == Last(k)
      modifies this`at, d`contents
      ensures Valid() && fresh(n) && at == Prune(old(at), k)[k := n]
      ensures n.name == name && n.kind == File && n.meta == meta && n.contents == []
      ensures Edited(old(at.Values), d,
                     (if k in old(at) then Without(old(d.contents), old(at)[k]) else old(d.contents)) + [n])
    {
      hide Tree, Without, Prune;
      assert Ext(Parent(k), name) == k;
      ChildNamed(Snapshot(), root, at, Parent(k), name);
      TreeParts(Snapshot(), root, at);
      var c := FirstNamed(d.contents, name);
      if c.Some? {
        assert c.value in Snapshot()[at[Parent(k)]].contents;
        RemoveEntry(d, c.value, k);
      } else {
        PruneAbsent(at, k);
      }
      n := AppendNew(d, name, File, meta, k);
    }

    method Mkfile(path: string, uid: int, gid: int, size: int, mode: int, ctime: int)
      returns (r: Result<bool>, ghost n: Inode)
      requires Valid()
      modifies this, at.Values
      ensures Valid()
      ensures r == if old(newcount) > 10000 then Ok(false)
                   else if Special(path) then Err(PermissionDenied)
                   else if Pieces(Dirname(path)) !in old(at) then Err(FileNotFound)
                   else Ok(true)
      ensures r != Ok(true) ==> Untouched(old(at.Values))
      ensures r == Ok(true) ==>
        var k, d := EntryKey(path), old(at[Pieces(Dirname(path))]);
        && newcount == old(newcount) + 1
        && fresh(n) && at == Prune(old(at), k)[k := n]
        && n.name == Basename(path) && n.kind == File && n.contents == []
        && n.meta == Meta(uid, gid, size, mode, ctime, None, None)
        && Edited(old(at.Values), d,
                  (if k in old(at) then Without(old(d.contents), old(at)[k]) else old(d.contents)) + [n])
    {
      hide Tree, Without, Prune, Pieces, Basename, Dirname, Special;
      n := root;
      if newcount > 10000 {
        return Ok(false), n;
      }
      if Special(path) {
        return Err(PermissionDenied), n;
      }
      var d := GetPath(Dirname(path));
      if d == None {
        return Err(FileNotFound), n;
      }
      ghost var k := EntryKey(path);
      assert Parent(k) == Pieces(Dirname(path));
      n := Replace(d.value, Basename(path), Meta(uid, gid, size, mode, ctime, None, None), k);
      newcount := newcount + 1;
      r := Ok(true);
    }

    /** The list that `mkdir` appends to is that of dirname(path.strip('/')), but the new name is
        basename(path): for a path that ends in a slash that is the empty name. */
    static function MkdirKey(path: string): Key {
      Ext(Pieces(Dirname(Strip(path, '/'))), Basename(path))
    }

    /** For a path that does not end in a slash it is the entry that the path means everywhere else. */
    static lemma MkdirMeans(path: string)
      requires Strip(path, '/') != ""
      ensures var k := Pieces(path);
        |k| > 0 && MkdirKey(path) == if path[|path| - 1] == '/' then k[..|k| - 1] + [""] else k
    {
      hide Strip, Pieces, Dirname, Basename, LStrip;
      var inner := Strip(path, '/');
      StripEnd(path);
      PiecesStrip(path);
      PiecesDirBase(inner);
      BasenameEmpty(inner);
      BasenameEmpty(path);
      PiecesDirBase(path);
    }

    static lemma StripEnd(path: string)
      requires Strip(path, '/') != ""
      ensures var inner := Strip(path, '/'); path != "" && inner[|inner| - 1] != '/'
    {
    }

    /** `mkdir` never looks whether the name is taken.  When it is, the parent ends up with two
        entries of one name and the tree has lost its index; otherwise the index gains one key. */
    method Mkdir(path: string, uid: int, gid: int, size: int, mode: int, ctime: int)
      returns (r: Result<()>, ghost n: Inode)
      requires Valid()
      modifies this, at.Values
      ensures r == if old(newcount) > 10000 then Err(Quota)
                   else if Strip(path, '/') == "" then Err(NoEntry)
                   else if Parent(MkdirKey(path)) !in old(at) then Err(FileNotFound)
                   else Ok(())
      ensures r.Err? ==> Untouched(old(at.Values)) && Valid()
      ensures r.Ok? ==>
        var k := MkdirKey(path);
        var d := old(at)[Parent(k)];
        && newcount == old(newcount) + 1
        && fresh(n) && n.name == Basename(path) && n.kind == Dir && n.contents == []
        && n.meta == Meta(uid, gid, size, mode, ctime, None, None)
        && Edited(old(at.Values), d, old(d.contents) + [n])
        && (k !in old(at) ==> Valid() && at == old(at)[k := n])
        && (k in old(at) ==> at == old(at) && !Valid() && old(at)[k] in old(d.contents) && old(at)[k].name == n.name)
    {
      hide Tree, Pieces, Basename, Dirname, Strip;
      n := root;
      if newcount > 10000 {
        return Err(Quota), n;
      }
      if |Strip(path, '/')| == 0 {
        return Err(NoEntry), n;
      }
      ghost var k := MkdirKey(path);
      assert Parent(k) == Pieces(Dirname(Strip(path, '/')));
      var d := GetPath(Dirname(Strip(path, '/')));
      if d == None {
        return Err(FileNotFound), n;
      }
      var meta := Meta(uid, gid, size, mode, ctime, None, None);
      n := AppendNew(d.value, Basename(path), Dir, meta, k);
      newcount := newcount + 1;
      r := Ok(());
    }

    method Mkdir2(path: string, ctime: int) returns (r: Result<()>, ghost n: Inode)
      requires Valid()
      modifies this, at.Values
      ensures r == if FileKey(path) in old(at) then Err(Exists)
                   else if old(newcount) > 10000 then Err(Quota)
                   else if Strip(path, '/') == "" then Err(NoEntry)
                   else if Parent(MkdirKey(path)) !in old(at) then Err(FileNotFound)
                   else Ok(())
      ensures r.Err? ==> Untouched(old(at.Values)) && Valid()
      ensures r.Ok? ==>
        var k := MkdirKey(path);
        var d := old(at)[Parent(k)];
        && newcount == old(newcount) + 1
        && fresh(n) && n.name == Basename(path) && n.kind == Dir && n.contents == []
        && n.meta == Meta(0, 0, 4096, 16877, ctime, None, None)
        && Edited(old(at.Values), d, old(d.contents) + [n])
        && (k !in old(at) ==> Valid() && at == old(at)[k := n])
        && (k in old(at) ==> at == old(at) && !Valid() && old(at)[k] in old(d.contents) && old(at)[k].name == n.name)
    {
      hide Tree, Pieces, Basename, Dirname, Strip, FileKey, MkdirKey;
      var f := GetFile(path);
      if f.Some? {
        return Err(Exists), root;
      }
      r, n := Mkdir(path, 0, 0, 4096, 16877, ctime);
    }

    /** On a path without empty inner pieces this removes exactly the node found; with them, the two
        lookups may speak of different entries, and an equal one goes in its place. */
    method Remove(path: string) returns (r: Result<()>, ghost d: Inode)
      requires Valid()
      modifies this`at, at.Values
      ensures Valid()
      ensures r == if FileKey(path) !in old(at) then Err(NoEntry)
                   else if Pieces(Dirname(path)) !in old(at) then Err(FileNotFound)
                   else if !old(Twin(TwinKey(path), FileKey(path))) then Err(NotInList)
                   else Ok(())
      ensures r.Err? ==> Untouched(old(at.Values))
      ensures r.Ok? ==>
        var e := old(TwinKey(path));
        && e in old(at) && at == Prune(old(at), e) && old(at)[Pieces(Dirname(path))] == d
        && Edited(old(at.Values), d, Without(old(d.contents), old(at)[e]))
      ensures "" !in FileKey(path) ==>
        && r == (if FileKey(path) !in old(at) then Err(NoEntry)
                 else if Basename(path) == "" then Err(NotInList)
                 else Ok(()))
        && (r.Ok? ==> old(TwinKey(path)) == FileKey(path))
    {
      hide Tree, Same, Without, Prune, Pieces, Basename, Dirname, FileKey, Twin;
      d := root;
      var p := GetFile(path);
      if p == None {
        return Err(NoEntry), d;
      }
      if "" !in FileKey(path) {
        TwinIsNode(path);
      }
      r, d := Unlink(path, p.value);
    }

    /** What must be a directory is what `getfile` finds; what has to be empty, and goes, is
        what `get_path` finds.  The loop over a copy of the parent's list always finds it there. */
    method Rmdir(path: string) returns (r: Result<bool>, ghost d: Inode)
      requires Valid()
      modifies this`at, at.Values
      ensures Valid()
      ensures var text := RStrip(path, '/');
        var k, e := FileKey(text), Pieces(text);
        && r == (if k !in old(at) then Err(Exists)
                 else if old(at)[k].kind != Dir then Err(NotDir)
                 else if e !in old(at) then Err(FileNotFound)
                 else if old(at[e].contents) != [] then Err(NotEmpty)
                 else Ok(true))
        && (r.Err? ==> Untouched(old(at.Values)))
        && (r.Ok? ==>
             && e != [] && at == old(at) - {e}
             && Parent(e) in old(at) && old(at)[Parent(e)] == d
             && Edited(old(at.Values), d, Without(old(d.contents), old(at)[e])))
        && (old(Named(at)) && k in old(at) ==> e == k)
    {
      hide Tree, Without, Prune, Pieces, Basename, Dirname, FileKey, Named;
      d := root;
      var text := RStrip(path, '/');
      var name, parent := Basename(text), Dirname(text);
      RmdirKeys(path, Snapshot(), root, at);
      var dir := GetFile(text);
      if dir == None {
        return Err(Exists), d;
      }
      if dir.value.kind != Dir {
        return Err(NotDir), d;
      }
      var entries := GetPath(text);
      if entries == None {
        return Err(FileNotFound), d;
      }
      if |entries.value.contents| > 0 {
        return Err(NotEmpty), d;
      }
      ghost var e := Pieces(text);
      var pdir := GetPath(parent);
      d := pdir.value;
      PruneLeaf(Snapshot(), root, at, e);
      OwnEntry(Snapshot(), root, at, e);
      for i := 0 to |pdir.value.contents|
        invariant Untouched(old(at.Values))
        invariant forall j | 0 <= j < i :: pdir.value.contents[j] != entries.value
      {
        if pdir.value.contents[i].name == name {
          assert pdir.value.contents[i] in Snapshot()[at[Parent(e)]].contents;
          RemoveEntry(pdir.value, pdir.value.contents[i], e);
          return Ok(true), d;
        }
      }
      assert false;
      return Ok(false), d;
    }

    method Listdir(path: string) returns (r: Result<seq<string>>)
      requires Valid()
      ensures Pieces(path) !in at ==> r == Err(FileNotFound)
      ensures Pieces(path) in at ==>
        && r.Ok? && |r.value| == |at[Pieces(path)].contents|
        && (forall i | 0 <= i < |r.value| :: r.value[i] == at[Pieces(path)].contents[i].name)
    {
      hide Tree;
      var d := GetPath(path);
      if d == None {
        return Err(FileNotFound);
      }
      var names := [];
      for i := 0 to |d.value.contents|
        invariant |names| == i && forall j | 0 <= j < i :: names[j] == d.value.contents[j].name
      {
        names := names + [d.value.contents[i].name];
      }
      return Ok(names);
    }

    /** `rename` gets past its checks and takes an entry out. */
    ghost predicate Takes(oldpath: string, newpath: string)
      reads this, at.Values
    {
      && FileKey(oldpath) in at && FileKey(newpath) !in at && Pieces(Dirname(oldpath)) in at
      && Twin(TwinKey(oldpath), FileKey(oldpath))
    }

    /** The rows `st` when `p` no longer lists `gone`. */
    static ghost function CutRows(st: Store, p: Inode, gone: Inode): Store
      requires p in st
    {
      st[p := st[p].(contents := Without(st[p].contents, gone))]
    }

    static ghost function RenamedRows(st: Store, n: Inode, name: string): Store
      requires n in st
    {
      st[n := st[n].(name := name)]
    }

    static ghost function EnteredRows(st: Store, d: Option<Inode>, n: Inode): Store {
      if d.Some? && d.value in st then st[d.value := st[d.value].(contents := st[d.value].contents + [n])] else st
    }

    /** `Unlink`, which also leaves a whole tree in the caller's hands if it takes out the node itself. */
    method CutOff(path: string, n: Inode, ghost sub: Option<Index>) returns (r: Result<()>, ghost p: Inode)
      requires Valid() && FileKey(path) in at && at[FileKey(path)] == n
      requires sub == if TwinKey(path) == FileKey(path) then Some(Sub(at, FileKey(path))) else None
      modifies this`at, at.Values
      ensures Valid()
      ensures r == if Pieces(Dirname(path)) !in old(at) then Err(FileNotFound)
                   else if !old(Twin(TwinKey(path), FileKey(path))) then Err(NotInList)
                   else Ok(())
      ensures r.Err? ==> Untouched(old(at.Values))
      ensures r.Ok? ==>
        var e := old(TwinKey(path));
        && e in old(at) && at == Prune(old(at), e) && old(at)[Pieces(Dirname(path))] == p && at.Values <= old(at.Values)
        && Edited(old(at.Values), p, Without(old(p.contents), old(at)[e]))
        && Rows(old(at.Values)) == CutRows(old(Snapshot()), p, old(at)[e])
      ensures forall m, c | m in old(at.Values) && c in m.contents :: c in old(at.Values)
      ensures r.Ok? && sub.Some? ==> Headed(n, sub.value) && sub.value.Values <= old(at.Values)
    {
      hide Tree, Without, Prune, Sub, Apart, Pieces, Basename, Dirname, FileKey, Twin;
      ghost var st, before, k := Snapshot(), at, FileKey(path);
      TreeClosed(st, root, at);
      NodesClosed();
      Detached(st, root, at, k);
      PruneValues(at, TwinKey(path));
      r, p := Unlink(path, n);
      if r.Ok? {
        WithoutSubset(old(p.contents), before[old(TwinKey(path))]);
        RowsCut(old(at.Values), st, p);
        if sub.Some? {
          FrameTree(st, n, sub.value, Rows(sub.value.Values));
        }
      }
    }

    static lemma RowsCut(ns: set<Inode>, st: Store, p: Inode)
      requires st.Keys == ns && p in ns && forall m | m in ns :: m.name == st[m].name
      requires forall m | m in ns && m != p :: m.contents == st[m].contents
      ensures Rows(ns) == st[p := st[p].(contents := p.contents)]
    {
    }

    /** `n` heads a tree of its own, with the index `sub`, beside the tree of the root. */
    ghost predicate Headed(n: Inode, sub: Index)
      reads this, at.Values, sub.Values
    {
      && Valid() && Tree(Rows(sub.Values), n, sub) && Apart(at, sub) && n in sub.Values
      && forall m | m in sub.Values :: m.kind != Link
    }

    /** The second half of `rename`: new name, then the new parent, if it is found, in a heap that need
        not be a tree any more.  The index is known if `n` heads a tree of its own. */
    method PutBack(n: Inode, newpath: string, ghost ns: set<Inode>, ghost sub: Option<Index>)
      returns (d: Option<Inode>)
      requires root in ns && n in ns && forall m, c | m in ns && c in m.contents :: c in ns
      requires sub.Some? ==> Headed(n, sub.value) && at.Values + sub.value.Values <= ns
      modifies this`at, ns
      ensures Rows(ns) == EnteredRows(RenamedRows(old(Rows(ns)), n, Basename(newpath)), d, n)
      ensures d == Find(RenamedRows(old(Rows(ns)), n, Basename(newpath)), root, Pieces(Dirname(newpath)))
      ensures d.Some? ==> d.value in ns
      ensures sub.Some? ==>
        var k' := EntryKey(newpath);
        && d == (if Parent(k') in old(at) then Some(old(at)[Parent(k')]) else None)
        && (d == None ==> Valid() && at == old(at))
        && (d.Some? && k' !in old(at) ==> Valid() && at == Graft(old(at), k', sub.value))
        && (d.Some? && k' in old(at) ==> !Valid() && at == old(at))
    {
      hide Graft, Pieces, Dirname, Find, Headed, HoneyPotFilesystem.Valid, Rows, RenamedRows;
      GiveName(n, Basename(newpath), ns, sub);
      d := Enter(n, newpath, ns, sub);
    }

    method Enter(n: Inode, newpath: string, ghost ns: set<Inode>, ghost sub: Option<Index>) returns (d: Option<Inode>)
      requires root in ns && n in ns && n.name == Basename(newpath)
      requires forall m, c | m in ns && c in m.contents :: c in ns
      requires sub.Some? ==> Headed(n, sub.value) && at.Values + sub.value.Values <= ns
      modifies this`at, ns
      ensures Rows(ns) == EnteredRows(old(Rows(ns)), d, n)
      ensures d == Find(old(Rows(ns)), root, Pieces(Dirname(newpath)))
      ensures d.Some? ==> d.value in ns
      ensures sub.Some? ==>
        var k' := EntryKey(newpath);
        && d == (if Parent(k') in old(at) then Some(old(at)[Parent(k')]) else None)
        && (d == None ==> Valid() && at == old(at))
        && (d.Some? && k' !in old(at) ==> Valid() && at == Graft(old(at), k', sub.value))
        && (d.Some? && k' in old(at) ==> !Valid() && at == old(at))
    {
      hide Tree, Graft, Apart, Pieces, Basename, Dirname, Find, AppendedRows, Rows;
      NotEntered(Rows(ns), n);
      ghost var st, k' := Rows(ns), EntryKey(newpath);
      if sub.Some? {
        BothTrees(n, k', sub.value, ns);
        EntryFound(newpath, st);
      }
      d := LookUp(Dirname(newpath), ns);
      if d.Some? {
        Push(d.value, n, ns);
        if sub.Some? {
          Hang(d.value, n, k', sub.value, ns, st);
        }
      }
    }

    static lemma RowsKeys(ns: set<Inode>)
      ensures Rows(ns).Keys == ns
    {
    }

    static lemma NotEntered(st: Store, n: Inode)
      ensures EnteredRows(st, None, n) == st
    {
    }

    /** Where the new parent is found in a tree. */
    lemma EntryFound(newpath: string, st: Store)
      requires Tree(st, root, at)
      ensures var k' := EntryKey(newpath);
        && k' != [] && Parent(k') == Pieces(Dirname(newpath)) && Last(k') == Basename(newpath)
        && Find(st, root, Pieces(Dirname(newpath))) == if Parent(k') in at then Some(at[Parent(k')]) else None
    {
      hide Tree, Pieces, Basename, Dirname, Find;
      RootIndexed(st, root, at);
      FindIndexed(st, root, at, [], Pieces(Dirname(newpath)));
      assert [] + Pieces(Dirname(newpath)) == Pieces(Dirname(newpath));
    }

    method GiveName(n: Inode, name: string, ghost ns: set<Inode>, ghost sub: Option<Index>)
      requires n in ns && (sub.Some? ==> Headed(n, sub.value))
      modifies n`name
      ensures n.name == name && Rows(ns) == RenamedRows(old(Rows(ns)), n, name)
      ensures sub.Some? ==> Headed(n, sub.value)
    {
      hide Tree, Apart;
      ghost var was: Store := map[];
      if sub.Some? {
        was := Rows(sub.value.Values);
        ApartValues(at, sub.value);
        TreeParts(was, n, sub.value);
        RootIndexed(was, n, sub.value);
      }
      n.name := name;
      if sub.Some? {
        FrameTree(was, n, sub.value, Rows(sub.value.Values));
      }
    }

    /** What has happened to the nodes, whose rows were `st` under the index `before`, when the entry `e`
        was taken out: its directory `p` no longer lists it; the node found has its new name; the new
        parent `d`, if there is one, is what the lookup finds in the heap between these two changes and
        lists the node last; and nothing else has changed. */
    ghost predicate Moves(st: Store, before: Index, e: Key, oldpath: string, newpath: string, p: Inode,
                          d: Option<Inode>)
      reads before.Values
    {
      && FileKey(oldpath) in before && Pieces(Dirname(oldpath)) in before && e in before && st.Keys == before.Values
      && p == before[Pieces(Dirname(oldpath))]
      && var n, gone := before[FileKey(oldpath)], before[e];
         var between := RenamedRows(CutRows(st, p, gone), n, Basename(newpath));
         && d == Find(between, root, Pieces(Dirname(newpath))) && (d.Some? ==> d.value in before.Values)
         && Rows(before.Values) == EnteredRows(between, d, n)
    }

    /** The same, node by node. */
    lemma MovesMeaning(st: Store, before: Index, e: Key, oldpath: string, newpath: string, p: Inode,
                       d: Option<Inode>)
      requires Moves(st, before, e, oldpath, newpath, p, d)
      ensures forall m | m in before.Values ::
        && m.name == (if m == before[FileKey(oldpath)] then Basename(newpath) else st[m].name)
        && m.contents == (if m == p then Without(st[m].contents, before[e]) else st[m].contents)
                         + (if d == Some(m) then [before[FileKey(oldpath)]] else [])
    {
      hide Find, FileKey, Pieces, Basename, Dirname, Without;
      forall m | m in before.Values ensures
        && m.name == (if m == before[FileKey(oldpath)] then Basename(newpath) else st[m].name)
        && m.contents == (if m == p then Without(st[m].contents, before[e]) else st[m].contents)
                         + (if d == Some(m) then [before[FileKey(oldpath)]] else [])
      {
        assert Rows(before.Values)[m] == Rec(m.name, m.contents);
      }
    }

    /** What has happened to the index when that entry is the node itself. */
    ghost predicate Reindexed(before: Index, oldpath: string, newpath: string, d: Option<Inode>)
      reads this, at.Values
    {
      var k, k' := FileKey(oldpath), EntryKey(newpath);
      var left := Prune(before, k);
      && d == (if Parent(k') in left then Some(left[Parent(k')]) else None)
      && (d == None ==> Valid() && at == left)
      && (d.Some? && k' !in left ==> Valid() && at == Graft(left, k', Sub(before, k)))
      && (d.Some? && k' in left ==> !Valid() && at == left)
    }

    /** `rename` once its two checks have passed. */
    method Transfer(n: Inode, oldpath: string, newpath: string)
      returns (r: Result<()>, ghost p: Inode, ghost d: Option<Inode>)
      requires Valid() && FileKey(oldpath) in at && at[FileKey(oldpath)] == n && FileKey(newpath) !in at
      modifies this`at, at.Values
      ensures r == if Pieces(Dirname(oldpath)) !in old(at) then Err(FileNotFound)
                   else if !old(Twin(TwinKey(oldpath), FileKey(oldpath))) then Err(NotInList)
                   else if d == None then Err(FileNotFound)
                   else Ok(())
      ensures !old(Takes(oldpath, newpath)) ==> Untouched(old(at.Values)) && Valid()
      ensures old(Takes(oldpath, newpath)) ==>
        Moves(old(Snapshot()), old(at), old(TwinKey(oldpath)), oldpath, newpath, p, d)
      ensures old(Takes(oldpath, newpath) && TwinKey(oldpath) == FileKey(oldpath)) ==>
        Reindexed(old(at), oldpath, newpath, d)
    {
      hide Tree, Without, Prune, Graft, Sub, Pieces, Basename, Dirname, FileKey, EntryKey, Twin, Find, Headed;
      hide CutRows, RenamedRows, EnteredRows, Rows;
      d := None;
      ghost var ns, k := at.Values, FileKey(oldpath);
      ghost var sub := if TwinKey(oldpath) == k then Some(Sub(at, k)) else None;
      RootIndexed(Snapshot(), root, at);
      assert root in ns && n in ns && Snapshot().Keys == ns by { RowsKeys(ns); }
      r, p := CutOff(oldpath, n, sub);
      if r.Err? {
        return r, p, d;
      }
      var dir := PutBack(n, newpath, ns, sub);
      d := dir;
      r := if dir == None then Err(FileNotFound) else Ok(());
    }

    /** The source takes the entry out and renames the node before it looks for the new parent.  So when
        that is missing, or lies below the node itself, the whole subtree is lost.  And if the entry taken
        out is an equal one elsewhere, the node is renamed where it is, and is then listed twice. */
    method Rename(oldpath: string, newpath: string) returns (r: Result<()>, ghost p: Inode, ghost d: Option<Inode>)
      requires Valid()
      modifies this`at, at.Values
      ensures r == if FileKey(oldpath) !in old(at) then Err(NoEntry)
                   else if FileKey(newpath) in old(at) then Err(Exists)
                   else if Pieces(Dirname(oldpath)) !in old(at) then Err(FileNotFound)
                   else if !old(Twin(TwinKey(oldpath), FileKey(oldpath))) then Err(NotInList)
                   else if d == None then Err(FileNotFound)
                   else Ok(())
      ensures !old(Takes(oldpath, newpath)) ==> Untouched(old(at.Values)) && Valid()
      ensures old(Takes(oldpath, newpath)) ==>
        Moves(old(Snapshot()), old(at), old(TwinKey(oldpath)), oldpath, newpath, p, d)
      ensures old(Takes(oldpath, newpath) && TwinKey(oldpath) == FileKey(oldpath)) ==>
        Reindexed(old(at), oldpath, newpath, d)
      ensures FileKey(oldpath) in old(at) && "" !in FileKey(oldpath) ==>
        && Pieces(Dirname(oldpath)) in old(at)
        && (old(Twin(TwinKey(oldpath), FileKey(oldpath))) <==> Basename(oldpath) != "")
        && (Basename(oldpath) != "" ==>
             FileKey(oldpath) != [] && old(TwinKey(oldpath)) == FileKey(oldpath)
             && Parent(FileKey(oldpath)) == Pieces(Dirname(oldpath)))
    {
      hide Tree, Without, Prune, Graft, Sub, Pieces, Basename, Dirname, FileKey, EntryKey, Twin, Find;
      hide Moves, Reindexed, Rows, HoneyPotFilesystem.Valid;
      p, d := root, None;
      var o := GetFile(oldpath);
      if o == None {
        return Err(NoEntry), p, d;
      }
      if "" !in FileKey(oldpath) {
        TwinIsNode(oldpath);
      }
      var taken := GetFile(newpath);
      if taken.Some? {
        return Err(Exists), p, d;
      }
      r, p, d := Transfer(o.value, oldpath, newpath);
    }
  }

  ghost predicate Proper(k: Key) {
    k != [] && AllNames(k)
  }

  /** On the absolute path with the components `k` every operation means the key `k`. */
  lemma CanonicalKeys(k: Key)
    requires Proper(k)
    ensures var path := AbsPath(k);
      && FileKey(path) == k && Pieces(path) == k && EntryKey(path) == k
      && HoneyPotFilesystem.MkdirKey(path) == k
      && Basename(path) == Last(k) && RStrip(path, '/') == path
  {
    var path, s := AbsPath(k), Join(k, '/');
    JoinEnds(k);
    StripSlashed(s);
    SplitJoin(k, '/');
    assert path == "/" + s && path != "/";
    BasenameEmpty(path);
    PathKeys(path);
    AbsPathPieces(k);
    PiecesDirBase(s);
    BasenameEmpty(s);
    var base := Basename(s);
    assert k == Pieces(Dirname(s)) + [base];
    assert Parent(k) == Pieces(Dirname(s));
  }

  /** The root is not of that kind: a file made there gets an empty name. */
  lemma RootKeys()
    ensures var path := AbsPath([]);
      FileKey(path) == [] && Basename(path) == "" && EntryKey(path) == [""] && RStrip(path, '/') == ""
  {
    hide Split;
    var path := "/";
    assert AbsPath([]) == path;
    BasenameEmpty(path);
    assert path[..0] == "";
    PiecesDirBase(path);
    PiecesRStrip(path);
    NoText();
  }

  /** The two lookups walk the same pieces exactly on a path without empty ones.  In a tree without
      empty names, `getfile` finds a node exactly when `get_path` does and the path is of that kind. */
  lemma LookupsAgree(at: Index, path: string)
    ensures FileKey(path) == Pieces(path) <==> "" !in FileKey(path)
    ensures Named(at) ==> (FileKey(path) in at <==> Pieces(path) in at && FileKey(path) == Pieces(path))
  {
    PiecesMembers(path);
    if "" !in FileKey(path) {
      PathKeys(path);
    }
  }

  /** An empty inner piece does tell them apart: the path "//" is the root for `get_path` only. */
  lemma LookupsDiffer(at: Index)
    requires Named(at) && [] in at
    ensures Pieces("//") in at && FileKey("//") !in at
  {
    hide Split, RStrip;
    var none, one, two := "", "/", "//";
    assert one[1..] == none && two[1..] == one;
    assert LStrip(none, '/') == none;
    assert LStrip(one, '/') == none;
    assert LStrip(two, '/') == none;
    PiecesLStrip(two);
    SlashesOnly();
    assert "" in FileKey(two);
  }

  lemma SlashesOnly()
    ensures RStrip("", '/') == "" && Split("", '/') == [""] && Pieces("") == []
  {
  }

  lemma GraftNamed(at: Index, k: Key, sub: Index)
    requires Named(at) && Named(sub) && Proper(k)
    ensures Named(Graft(at, k, sub))
  {
    forall l | l in Graft(at, k, sub) ensures AllNames(l) {
      if k <= l && l[|k|..] in sub {
        assert l == k + l[|k|..];
      }
    }
  }

  lemma GraftSlashless(at: Index, k: Key, sub: Index)
    requires Slashless(at) && Slashless(sub) && SlashFree(k)
    ensures Slashless(Graft(at, k, sub))
  {
    forall l | l in Graft(at, k, sub) ensures SlashFree(l) {
      if k <= l && l[|k|..] in sub {
        assert l == k + l[|k|..];
      }
    }
  }

  lemma SubNamed(at: Index, k: Key)
    requires Named(at)
    ensures Named(Sub(at, k))
  {
    forall q | q in Sub(at, k) ensures AllNames(q) {
      assert AllNames(k + q);
      assert forall x | x in q :: x in k + q;
    }
  }

  lemma SubSlashless(at: Index, k: Key)
    requires Slashless(at)
    ensures Slashless(Sub(at, k))
  {
    forall q | q in Sub(at, k) ensures SlashFree(q) {
      assert SlashFree(k + q);
      assert forall x | x in q :: x in k + q;
    }
  }

  /** A rename between existing old node and existing new parent loses the subtree exactly when the
      new key lies below the old one; otherwise the subtree moves as a whole and nothing else moves. */
  lemma RenameMeaning(st: Store, root: Inode, at: Index, k: Key, k': Key)
    requires Tree(st, root, at) && k in at && k' != [] && k' !in at && Parent(k') in at
    ensures Parent(k') in Prune(at, k) <==> !(k <= k')
    ensures !(k <= k') ==>
      var moved := Graft(Prune(at, k), k', Sub(at, k));
      && (forall q :: k' + q in moved <==> k + q in at)
      && (forall q | k + q in at :: moved[k' + q] == at[k + q])
      && (forall l | l in moved :: !(k <= l))
      && (forall l | l in at && !(k <= l) :: l in moved && moved[l] == at[l])
      && (forall l | l in moved && !(k' <= l) :: l in at)
  {
    assert k <= k' <==> k <= Parent(k') by {
      if k <= k' { assert k != k'; }
    }
    if !(k <= k') {
      TreeParts(st, root, at);
      MoveIndex(at, k, k');
      forall l | l in at && k' <= l ensures false {
        PrefixIndexed(at, k', l);
      }
    }
  }

  /** What a session may do to the tree, each on the absolute path with the given components. */
  datatype Op =
    | OpMkfile(key: Key, uid: int, gid: int, size: int, mode: int, ctime: int)
    | OpMkdir2(key: Key, ctime: int)
    | OpRmdir(key: Key)
    | OpRemove(key: Key)
    | OpRename(key: Key, newKey: Key)

  /** On normalised paths, the root included. */
  ghost predicate ProperOp(op: Op) {
    AllNames(op.key) && (op.OpRename? ==> AllNames(op.newKey))
  }

  /** The one operation on such paths that makes an empty name. */
  predicate MakesNameless(op: Op) {
    op.OpMkfile? && op.key == []
  }

  /** The names are at least as good as they were. */
  ghost predicate Kept(before: Index, after: Index, proper: bool) {
    (Slashless(before) ==> Slashless(after)) && (proper && Named(before) ==> Named(after))
  }

  lemma KeptPruned(at: Index, k: Key)
    ensures Kept(at, at, true) && Kept(at, Prune(at, k), true)
  {
  }

  lemma KeptMinus(at: Index, k: Key)
    ensures Kept(at, at - {k}, true)
  {
  }

  lemma KeptNew(at: Index, k: Key, n: Inode)
    requires SlashFree(k)
    ensures Kept(at, Prune(at, k)[k := n], k != [] && AllNames(k))
    ensures Kept(at, at[k := n], k != [] && AllNames(k))
  {
  }

  lemma KeptMoved(at: Index, k: Key, k': Key)
    requires Proper(k')
    ensures Kept(at, Graft(Prune(at, k), k', Sub(at, k)), true)
  {
    if Slashless(at) {
      PruneSlashless(at, k);
      SubSlashless(at, k);
      GraftSlashless(Prune(at, k), k', Sub(at, k));
    }
    if Named(at) {
      PruneNamed(at, k);
      SubNamed(at, k);
      GraftNamed(Prune(at, k), k', Sub(at, k));
    }
  }

  method Apply(fs: HoneyPotFilesystem, op: Op)
    requires fs.Valid() && ProperOp(op)
    modifies fs, fs.at.Values
    ensures fs.Valid() && Kept(old(fs.at), fs.at, !MakesNameless(op))
    ensures fresh(fs.at.Values - old(fs.at.Values))
  {
    hide Tree, AbsPath, FileKey, EntryKey, RStrip, Special, Strip, Dirname, Basename, Pieces, Kept, Prune;
    RootKeys();
    if op.key != [] {
      CanonicalKeys(op.key);
    }
    match op
    case OpMkfile(key, uid, gid, size, mode, ctime) =>
      ApplyMkfile(fs, op);
    case OpMkdir2(key, ctime) =>
      ApplyMkdir2(fs, key, ctime);
    case OpRmdir(key) =>
      KeptMinus(fs.at, Pieces(RStrip(AbsPath(key), '/')));
      KeptPruned(fs.at, key);
      var r, d := fs.Rmdir(AbsPath(key));
    case OpRemove(key) =>
      ApplyRemove(fs, key);
    case OpRename(key, newKey) =>
      ApplyRename(fs, key, newKey);
  }

  method ApplyMkfile(fs: HoneyPotFilesystem, op: Op)
    requires fs.Valid() && ProperOp(op) && op.OpMkfile?
    modifies fs, fs.at.Values
    ensures fs.Valid() && Kept(old(fs.at), fs.at, op.key != [])
    ensures fresh(fs.at.Values - old(fs.at.Values))
  {
    hide Tree, AbsPath, FileKey, EntryKey, RStrip, Special, Strip, Dirname, Basename, Pieces, Kept, Prune;
    RootKeys();
    if op.key != [] {
      CanonicalKeys(op.key);
    }
    ghost var before, k := fs.at, EntryKey(AbsPath(op.key));
    PruneValues(before, k);
    var r, n := fs.Mkfile(AbsPath(op.key), op.uid, op.gid, op.size, op.mode, op.ctime);
    KeptPruned(before, k);
    KeptNew(before, k, n);
    KeptLess(before, fs.at, AllNames(k), op.key != []);
  }

  lemma KeptLess(before: Index, after: Index, proper: bool, less: bool)
    requires Kept(before, after, proper) && (less ==> proper)
    ensures Kept(before, after, less)
  {
  }

  lemma KeptTwice(a: Index, b: Index, c: Index, proper: bool)
    requires Kept(a, b, proper) && Kept(b, c, proper)
    ensures Kept(a, c, proper)
  {
  }

  method ApplyMkdir2(fs: HoneyPotFilesystem, key: Key, ctime: int)
    requires fs.Valid() && AllNames(key)
    modifies fs, fs.at.Values
    ensures fs.Valid() && Kept(old(fs.at), fs.at, true)
    ensures fresh(fs.at.Values - old(fs.at.Values))
  {
    hide Tree, AbsPath, FileKey, RStrip, Strip, Dirname, Basename, Pieces, Kept, Prune;
    ghost var before := fs.at;
    RootKeys();
    RootIndexed(fs.Snapshot(), fs.root, fs.at);
    if key != [] {
      CanonicalKeys(key);
    }
    var r, n := fs.Mkdir2(AbsPath(key), ctime);
    KeptPruned(before, key);
    KeptNew(before, key, n);
  }

  method ApplyRemove(fs: HoneyPotFilesystem, key: Key)
    requires fs.Valid() && AllNames(key)
    modifies fs, fs.at.Values
    ensures fs.Valid() && Kept(old(fs.at), fs.at, true)
    ensures fresh(fs.at.Values - old(fs.at.Values))
  {
    hide Tree, AbsPath, FileKey, EntryKey, RStrip, Strip, Dirname, Basename, Pieces, Kept, Prune;
    ghost var before := fs.at;
    if FileKey(AbsPath(key)) in before {
      KeptPruned(before, fs.TwinKey(AbsPath(key)));
      PruneValues(before, fs.TwinKey(AbsPath(key)));
    }
    KeptPruned(before, key);
    var r, d := fs.Remove(AbsPath(key));
  }

  method ApplyRename(fs: HoneyPotFilesystem, key: Key, newKey: Key)
    requires fs.Valid() && AllNames(key) && AllNames(newKey)
    modifies fs, fs.at.Values
    ensures fs.Valid() && Kept(old(fs.at), fs.at, true)
    ensures fresh(fs.at.Values - old(fs.at.Values))
  {
    hide Tree, AbsPath, FileKey, EntryKey, RStrip, Strip, Dirname, Basename, Pieces, Graft, Prune, Sub, Kept;
    ghost var before := fs.at;
    RootKeys();
    RootIndexed(fs.Snapshot(), fs.root, before);
    if key != [] {
      CanonicalKeys(key);
    }
    if newKey != [] {
      CanonicalKeys(newKey);
      KeptMoved(before, key, newKey);
    }
    KeptPruned(before, key);
    TreeParts(fs.Snapshot(), fs.root, before);
    RearrangedValues(before, key, newKey);
    var r, p, d := fs.Rename(AbsPath(key), AbsPath(newKey));
  }

  /** Whatever a session does, and whichever of its calls fail, the tree keeps an exact index: sibling
      names stay pairwise different, and no name gets a slash.  As long as no file is made at the root,
      no name gets empty either, and then the two lookups keep agreeing. */
  method Run(fs: HoneyPotFilesystem, ops: seq<Op>)
    requires fs.Valid()
    requires forall op | op in ops :: ProperOp(op)
    modifies fs, fs.at.Values
    ensures fs.Valid() && Kept(old(fs.at), fs.at, forall op | op in ops :: !MakesNameless(op))
  {
    hide Kept, HoneyPotFilesystem.Valid;
    ghost var start, proper := fs.at, forall op | op in ops :: !MakesNameless(op);
    KeptPruned(start, []);
    KeptLess(start, start, true, proper);
    for i := 0 to |ops|
      invariant fs.Valid() && Kept(start, fs.at, proper)
      invariant fresh(fs.at.Values - old(fs.at.Values))
    {
      ghost var before := fs.at;
      assert ops[i] in ops;
      Apply(fs, ops[i]);
      KeptLess(before, fs.at, !MakesNameless(ops[i]), proper);
      KeptTwice(start, before, fs.at, proper);
    }
  }
}
