/** The node tree of `cowrie/shell/fs.py`, seen as a set of heap objects together with an index from
    key (the list of names that leads to a node) to object.  Everything in this module is about
    immutable snapshots of those objects; module Filesystem lets the methods change them. */
module FsTree {
  import opened Options

  datatype Kind = Link | Dir | File | Blk | Chr | Sock | Fifo

  /** The fields of a node that no lookup reads. */
  datatype Meta = Meta(uid: int, gid: int, size: int, mode: int, ctime: int,
                       target: Option<string>, realfile: Option<string>)

  /** One ten-field list of the original: name, type, the seven fields in `meta`, contents. */
  class Inode {
    var name: string
    const kind: Kind
    const meta: Meta
    var contents: seq<Inode>

    constructor (name: string, kind: Kind, meta: Meta)
      ensures this.name == name && this.kind == kind && this.meta == meta && contents == []
    {
      this.name, this.kind, this.meta, contents := name, kind, meta, [];
    }
  }

  type Key = seq<string>
  type Index = map<Key, Inode>

  /** What the heap holds for one node. */
  datatype Rec = Rec(name: string, contents: seq<Inode>)
  type Store = map<Inode, Rec>

  function Ext(k: Key, name: string): Key { k + [name] }

  function Parent(k: Key): Key
    requires k != []
  {
    k[..|k| - 1]
  }

  function Last(k: Key): string
    requires k != []
  {
    k[|k| - 1]
  }

  ghost predicate NoDup(cs: seq<Inode>) {
    forall i, j | 0 <= i < j < |cs| :: cs[i] != cs[j]
  }

  /** `c`, listed under `k`, is the node the index gives for `k` extended by its name. */
  ghost predicate Linked(st: Store, at: Index, k: Key, c: Inode) {
    c in st && Ext(k, st[c].name) in at && at[Ext(k, st[c].name)] == c
  }

  /** Every indexed object is a known node whose list repeats no entry. */
  ghost predicate Known(st: Store, at: Index) {
    forall k | k in at :: at[k] in st && NoDup(st[at[k]].contents)
  }

  /** Every listed entry is indexed under its own name. */
  ghost predicate Listed(st: Store, at: Index)
    requires Known(st, at)
  {
    forall k, c | k in at && c in st[at[k]].contents :: Linked(st, at, k, c)
  }

  /** Keys are closed under taking the parent. */
  ghost predicate Parented(at: Index) {
    forall k {:trigger Parent(k)} | k in at && k != [] :: Parent(k) in at
  }

  /** Every indexed node other than the root is listed in its parent, under the name its key ends in. */
  ghost predicate Placed(st: Store, at: Index)
    requires Known(st, at) && Parented(at)
  {
    forall k {:trigger Parent(k)} | k in at && k != [] ::
      at[k] in st[at[Parent(k)]].contents && st[at[k]].name == Last(k)
  }

  /** No object sits at two keys. */
  ghost predicate Once(at: Index) {
    forall k, l | k in at && l in at && at[k] == at[l] :: k == l
  }

  /** The index describes exactly the tree below `root`. Sibling names are therefore pairwise
      different, and there is neither sharing nor a cycle. */
  ghost predicate Tree(st: Store, root: Inode, at: Index) {
    && [] in at && at[[]] == root
    && Known(st, at) && Listed(st, at) && Parented(at) && Placed(st, at) && Once(at)
  }

  lemma KeyArithmetic(k: Key)
    ensures forall q: Key {:trigger k + q} :: k <= k + q && (k + q)[|k|..] == q
    ensures forall l: Key {:trigger l[|k|..]} | k <= l :: k + l[|k|..] == l
  {
  }

  /** The part of the index below `k`, and the part outside it. */
  ghost function Sub(at: Index, k: Key): (r: Index)
    ensures forall q :: q in r <==> k + q in at
    ensures forall q | q in r :: r[q] == at[k + q]
  {
    var below := set l | l in at && k <= l :: l[|k|..];
    KeyArithmetic(k);
    map q | q in below :: at[k + q]
  }

  ghost function Prune(at: Index, k: Key): Index {
    map l | l in at && !(k <= l) :: at[l]
  }

  /** The index `at` with the index `sub` hung below `k`. */
  ghost function Graft(at: Index, k: Key, sub: Index): (r: Index)
    ensures forall l :: l in r <==> l in at || (k <= l && l[|k|..] in sub)
    ensures forall l | l in r :: r[l] == if k <= l && l[|k|..] in sub then sub[l[|k|..]] else at[l]
  {
    var keys := set q | q in sub :: k + q;
    KeyArithmetic(k);
    at + map l | l in keys :: sub[l[|k|..]]
  }

  /** A subtree is a tree. */
  lemma SubTree(st: Store, root: Inode, at: Index, k: Key)
    requires Tree(st, root, at) && k in at
    ensures Tree(st, at[k], Sub(at, k))
  {
    var sub := Sub(at, k);
    assert k + [] == k;
    SubListed(st, at, k);
    SubPlaced(st, at, k);
    SubOnce(at, k);
  }

  lemma SubListed(st: Store, at: Index, k: Key)
    requires Known(st, at) && Listed(st, at)
    ensures Known(st, Sub(at, k)) && Listed(st, Sub(at, k))
  {
    var sub := Sub(at, k);
    forall q, c | q in sub && c in st[sub[q]].contents ensures Linked(st, sub, q, c) {
      assert Linked(st, at, k + q, c);
      assert k + Ext(q, st[c].name) == Ext(k + q, st[c].name);
    }
  }

  lemma SubPlaced(st: Store, at: Index, k: Key)
    requires Known(st, at) && Parented(at) && Placed(st, at)
    ensures Known(st, Sub(at, k)) && Parented(Sub(at, k)) && Placed(st, Sub(at, k))
  {
    var sub := Sub(at, k);
    forall q | q in sub && q != []
      ensures Parent(q) in sub && sub[q] in st[sub[Parent(q)]].contents && st[sub[q]].name == Last(q)
    {
      assert Parent(k + q) == k + Parent(q);
    }
  }

  lemma SubOnce(at: Index, k: Key)
    requires Once(at)
    ensures Once(Sub(at, k))
  {
    var sub := Sub(at, k);
    forall q, r | q in sub && r in sub && sub[q] == sub[r] ensures q == r {
      assert k + q == k + r;
      assert (k + q)[|k|..] == q && (k + r)[|k|..] == r;
    }
  }

  /** Every proper prefix of an indexed key is indexed. */
  lemma {:induction false} PrefixIndexed(at: Index, k: Key, l: Key)
    requires Parented(at) && l in at && k <= l
    ensures k in at
    decreases |l|
  {
    if k != l {
      PrefixIndexed(at, k, Parent(l));
    }
  }

  /** The list after Python's `cs.remove(n)`, when the first entry equal to `n` is `n` itself. */
  ghost function Without(cs: seq<Inode>, n: Inode): seq<Inode> {
    if cs == [] then []
    else if cs[0] == n then cs[1..]
    else [cs[0]] + Without(cs[1..], n)
  }

  lemma {:induction false} WithoutAt(cs: seq<Inode>, i: nat)
    requires i < |cs| && cs[i] !in cs[..i]
    ensures Without(cs, cs[i]) == cs[..i] + cs[i + 1..]
  {
    if i > 0 {
      assert cs[0] in cs[..i];
      assert cs[1..][..i - 1] == cs[..i][1..];
      WithoutAt(cs[1..], i - 1);
    }
  }

  lemma {:induction false} WithoutMembers(cs: seq<Inode>, n: Inode)
    requires NoDup(cs)
    ensures forall c :: c in Without(cs, n) <==> c in cs && c != n
    ensures NoDup(Without(cs, n))
  {
    if cs != [] {
      WithoutMembers(cs[1..], n);
      assert forall c :: c in cs <==> c == cs[0] || c in cs[1..];
      var r := Without(cs, n);
      if cs[0] != n {
        var w := Without(cs[1..], n);
        forall i, j | 0 <= i < j < |r| ensures r[i] != r[j] {
          assert r[j] == w[j - 1] && w[j - 1] in w;
        }
      }
    }
  }

  /** Taking the one entry of a node out of its parent's list cuts off exactly its subtree. */
  lemma PruneTree(st: Store, root: Inode, at: Index, k: Key, st': Store)
    requires Tree(st, root, at) && k in at && k != [] && Parent(k) in at
    requires var p := at[Parent(k)]; st' == st[p := st[p].(contents := Without(st[p].contents, at[k]))]
    ensures Tree(st', root, Prune(at, k))
  {
    var p := at[Parent(k)];
    var cs := Without(st[p].contents, at[k]);
    WithoutMembers(st[p].contents, at[k]);
    PruneListed(st, at, k, p, cs, st');
    PrunePlaced(st, at, k, p, cs, st');
  }

  /** A key that is not below `k` is, extended by one name, below `k` only as `k` itself. */
  lemma ExtPrefix(k: Key, l: Key, name: string)
    requires k != [] && !(k <= l)
    ensures k <= Ext(l, name) ==> k == Ext(l, name) && l == Parent(k)
  {
  }

  lemma PruneListed(st: Store, at: Index, k: Key, p: Inode, cs: seq<Inode>, st': Store)
    requires Known(st, at) && Listed(st, at)
    requires Parented(at) && Once(at) && k in at && k != [] && p == at[Parent(k)]
    requires NoDup(cs) && forall c :: c in cs <==> c in st[p].contents && c != at[k]
    requires st' == st[p := st[p].(contents := cs)]
    ensures Known(st', Prune(at, k)) && Listed(st', Prune(at, k))
  {
    var at' := Prune(at, k);
    forall l, c | l in at' && c in st'[at'[l]].contents ensures Linked(st', at', l, c) {
      assert c in st[at[l]].contents;
      assert Linked(st, at, l, c);
      ExtPrefix(k, l, st[c].name);
    }
  }

  lemma PrunePlaced(st: Store, at: Index, k: Key, p: Inode, cs: seq<Inode>, st': Store)
    requires Known(st, at) && Parented(at) && Placed(st, at)
    requires Once(at) && k in at && k != [] && p == at[Parent(k)]
    requires NoDup(cs) && forall c :: c in cs <==> c in st[p].contents && c != at[k]
    requires st' == st[p := st[p].(contents := cs)]
    ensures var at' := Prune(at, k); Known(st', at') && Parented(at') && Placed(st', at')
  {
    var at' := Prune(at, k);
    forall l | l in at' && l != []
      ensures Parent(l) in at' && at'[l] in st'[at'[Parent(l)]].contents && st'[at'[l]].name == Last(l)
    {
      assert at[l] in st[at[Parent(l)]].contents;
      assert at[l] != at[k];
    }
  }

  /** Node objects outside the index do not matter, nor does the root's own name. */
  lemma FrameTree(st: Store, root: Inode, at: Index, st': Store)
    requires Tree(st, root, at)
    requires forall k | k in at :: at[k] in st' && st'[at[k]].contents == st[at[k]].contents
    requires forall k | k in at && k != [] :: st'[at[k]].name == st[at[k]].name
    ensures Tree(st', root, at)
  {
    FrameListed(st, at, st');
    forall k | k in at && k != [] ensures at[k] in st'[at[Parent(k)]].contents && st'[at[k]].name == Last(k) {
      assert at[k] in st[at[Parent(k)]].contents;
    }
  }

  lemma FrameListed(st: Store, at: Index, st': Store)
    requires [] in at && Known(st, at) && Listed(st, at)
    requires forall k | k in at :: at[k] in st' && st'[at[k]].contents == st[at[k]].contents
    requires forall k | k in at && k != [] :: st'[at[k]].name == st[at[k]].name
    ensures Known(st', at) && Listed(st', at)
  {
    forall k, c | k in at && c in st'[at[k]].contents ensures Linked(st', at, k, c) {
      assert Linked(st, at, k, c);
      assert st'[at[Ext(k, st[c].name)]].name == st[c].name;
    }
  }

  /** The two indexes hold no common object. */
  ghost predicate Apart(at: Index, sub: Index) {
    forall k, q | k in at && q in sub :: at[k] != sub[q]
  }

  lemma ApartValues(at: Index, sub: Index)
    requires Apart(at, sub)
    ensures at.Values !! sub.Values
  {
  }

  /** Appending a tree's root to the list of a node that has no entry of that name grafts the tree. */
  lemma GraftTree(st: Store, root: Inode, at: Index, k: Key, n: Inode, sub: Index, st': Store)
    requires Tree(st, root, at) && Tree(st, n, sub) && Apart(at, sub)
    requires k != [] && k !in at && Parent(k) in at && st[n].name == Last(k)
    requires var p := at[Parent(k)]; st' == st[p := st[p].(contents := st[p].contents + [n])]
    ensures Tree(st', root, Graft(at, k, sub))
  {
    forall l | l in at ensures !(k <= l) {
      if k <= l { PrefixIndexed(at, k, l); }
    }
    var p := at[Parent(k)];
    assert sub[[]] == n;
    assert st'[p].contents == st[p].contents + [n];
    GraftKnown(st, at, k, n, sub, st');
    GraftListed(st, at, k, n, sub, st');
    GraftPlaced(st, at, k, n, sub, st');
    GraftOnce(at, k, sub);
  }

  lemma GraftKnown(st: Store, at: Index, k: Key, n: Inode, sub: Index, st': Store)
    requires Known(st, at) && Listed(st, at) && Known(st, sub) && Apart(at, sub)
    requires k != [] && k !in at && Parent(k) in at && [] in sub && sub[[]] == n
    requires var p := at[Parent(k)]; st' == st[p := st[p].(contents := st[p].contents + [n])]
    ensures Known(st', Graft(at, k, sub))
  {
    var p := at[Parent(k)];
    forall c | c in st[p].contents ensures c != n {
      assert Linked(st, at, Parent(k), c);
    }
    assert NoDup(st'[p].contents) by {
      var cs := st'[p].contents;
      forall i, j | 0 <= i < j < |cs| ensures cs[i] != cs[j] {
        assert cs[i] in st[p].contents;
      }
    }
    var at' := Graft(at, k, sub);
    forall l | l in at' ensures at'[l] in st' && NoDup(st'[at'[l]].contents) {
      if k <= l && l[|k|..] in sub {
        assert at'[l] == sub[l[|k|..]] && at'[l] != p;
      } else {
        assert l in at && at'[l] == at[l];
      }
    }
  }

  lemma GraftListed(st: Store, at: Index, k: Key, n: Inode, sub: Index, st': Store)
    requires Known(st, at) && Listed(st, at) && Known(st, sub) && Listed(st, sub)
    requires Apart(at, sub) && Once(at)
    requires forall l | l in at :: !(k <= l)
    requires k != [] && k !in at && Parent(k) in at && [] in sub && sub[[]] == n && st[n].name == Last(k)
    requires var p := at[Parent(k)]; st' == st[p := st[p].(contents := st[p].contents + [n])]
    ensures Known(st', Graft(at, k, sub)) && Listed(st', Graft(at, k, sub))
  {
    GraftKnown(st, at, k, n, sub, st');
    var at' := Graft(at, k, sub);
    var p := at[Parent(k)];
    forall l, c | l in at' && c in st'[at'[l]].contents ensures Linked(st', at', l, c) {
      if k <= l {
        var q := l[|k|..];
        assert at'[l] == sub[q] && Linked(st, sub, q, c);
        var e, e' := Ext(q, st[c].name), Ext(l, st[c].name);
        assert k <= e' && e'[|k|..] == e;
      } else if l == Parent(k) && c == n {
        assert Ext(l, st[c].name) == k && k[|k|..] == [];
      } else {
        assert c in st[at[l]].contents by {
          if at[l] == p { assert l == Parent(k); }
        }
        assert Linked(st, at, l, c);
        assert !(k <= Ext(l, st[c].name));
      }
    }
  }

  lemma GraftPlaced(st: Store, at: Index, k: Key, n: Inode, sub: Index, st': Store)
    requires Known(st, at) && Parented(at) && Placed(st, at)
    requires Known(st, sub) && Parented(sub) && Placed(st, sub)
    requires Known(st', Graft(at, k, sub))
    requires forall l | l in at :: !(k <= l)
    requires k != [] && Parent(k) in at && [] in sub && sub[[]] == n && st[n].name == Last(k)
    requires var p := at[Parent(k)]; st' == st[p := st[p].(contents := st[p].contents + [n])]
    ensures Parented(Graft(at, k, sub)) && Placed(st', Graft(at, k, sub))
  {
    var at' := Graft(at, k, sub);
    forall l | l in at' && l != []
      ensures Parent(l) in at' && at'[l] in st'[at'[Parent(l)]].contents && st'[at'[l]].name == Last(l)
    {
      if l == k {
        assert k[|k|..] == [];
        assert !(k <= Parent(k));
      } else if k <= l {
        var q := l[|k|..];
        assert q != [] && Last(q) == Last(l);
        assert k <= Parent(l) && Parent(l)[|k|..] == Parent(q);
      } else {
        assert k <= Parent(l) ==> k <= l;
      }
    }
  }

  lemma GraftOnce(at: Index, k: Key, sub: Index)
    requires Once(at) && Once(sub) && Apart(at, sub)
    requires forall l | l in at :: !(k <= l)
    ensures Once(Graft(at, k, sub))
  {
    var at' := Graft(at, k, sub);
    forall l, m | l in at' && m in at' && at'[l] == at'[m] ensures l == m {
      if k <= l && k <= m {
        assert l == k + l[|k|..] && m == k + m[|k|..];
        assert l[|k|..] == m[|k|..];
      }
    }
  }

  /** One step of a lookup: the entries of `k` called `name` are exactly the node indexed at `k`
      extended by `name`; when there is none, nothing is indexed further down that way. */
  lemma ChildNamed(st: Store, root: Inode, at: Index, k: Key, name: string)
    requires Tree(st, root, at) && k in at
    ensures at[k] in st && forall c | c in st[at[k]].contents :: c in st
    ensures forall c | c in st[at[k]].contents && st[c].name == name :: Ext(k, name) in at && at[Ext(k, name)] == c
    ensures Ext(k, name) in at ==>
      at[Ext(k, name)] in st[at[k]].contents && at[Ext(k, name)] in st && st[at[Ext(k, name)]].name == name
    ensures Ext(k, name) !in at ==> forall l | Ext(k, name) <= l :: l !in at
  {
    forall c | c in st[at[k]].contents
      ensures c in st && (st[c].name == name ==> Ext(k, name) in at && at[Ext(k, name)] == c)
    {
      assert Linked(st, at, k, c);
    }
    assert Parent(Ext(k, name)) == k;
    forall l | Ext(k, name) <= l && l in at ensures Ext(k, name) in at {
      PrefixIndexed(at, Ext(k, name), l);
    }
  }

  /** The first entry of the name in a list, in any heap. */
  ghost function FirstIn(st: Store, cs: seq<Inode>, name: string): Option<Inode> {
    if |cs| == 0 then None
    else if cs[0] in st && st[cs[0]].name == name then Some(cs[0])
    else FirstIn(st, cs[1..], name)
  }

  lemma {:induction false} FirstInAt(st: Store, cs: seq<Inode>, name: string, i: nat)
    requires i < |cs| && cs[i] in st && st[cs[i]].name == name
    requires forall j | 0 <= j < i :: cs[j] in st && st[cs[j]].name != name
    ensures FirstIn(st, cs, name) == Some(cs[i])
  {
    if i > 0 {
      FirstInAt(st, cs[1..], name, i - 1);
    }
  }

  lemma {:induction false} FirstInMember(st: Store, cs: seq<Inode>, name: string)
    ensures var r := FirstIn(st, cs, name);
      if r.Some? then r.value in cs && r.value in st && st[r.value].name == name
      else forall c | c in cs :: c !in st || st[c].name != name
  {
    if |cs| > 0 {
      FirstInMember(st, cs[1..], name);
    }
  }

  /** The first-match lookup in any heap, tree or not. */
  ghost function Find(st: Store, n: Inode, q: Key): Option<Inode>
    decreases |q|
  {
    if |q| == 0 then Some(n)
    else if n !in st then None
    else
      var c := FirstIn(st, st[n].contents, q[0]);
      if c == None then None else Find(st, c.value, q[1..])
  }

  /** In a tree it is what the index says. */
  lemma {:induction false} FindIndexed(st: Store, root: Inode, at: Index, k: Key, q: Key)
    requires Tree(st, root, at) && k in at
    ensures Find(st, at[k], q) == if k + q in at then Some(at[k + q]) else None
    decreases |q|
  {
    hide Tree;
    if |q| == 0 {
      assert k + q == k;
    } else {
      assert k + q == Ext(k, q[0]) + q[1..];
      ChildNamed(st, root, at, k, q[0]);
      FirstInMember(st, st[at[k]].contents, q[0]);
      if Ext(k, q[0]) in at {
        FindIndexed(st, root, at, Ext(k, q[0]), q[1..]);
      } else {
        assert Ext(k, q[0]) <= k + q;
      }
    }
  }

  lemma {:induction false} WithoutSubset(cs: seq<Inode>, n: Inode)
    ensures forall c | c in Without(cs, n) :: c in cs
  {
    if |cs| > 0 {
      WithoutSubset(cs[1..], n);
    }
  }

  lemma SingletonTree(st: Store, n: Inode)
    requires n in st && st[n].contents == []
    ensures Tree(st, n, map[[] := n])
  {
  }

  lemma ApartOne(at: Index, n: Inode)
    requires n !in at.Values
    ensures Apart(at, map[[] := n])
  {
  }

  /** A listed node that the index does not know: the index is not that of a tree. */
  lemma NotATree(st: Store, root: Inode, at: Index, k: Key, n: Inode)
    requires k in at && at[k] in st && n in st[at[k]].contents && n !in at.Values
    ensures !Tree(st, root, at)
  {
    assert !Linked(st, at, k, n);
  }

  /** Cutting off a node without entries takes away one key. */
  lemma PruneLeaf(st: Store, root: Inode, at: Index, k: Key)
    requires Tree(st, root, at) && k in at && at[k] in st && st[at[k]].contents == []
    ensures Prune(at, k) == at - {k}
  {
    forall l | l in at && k <= l ensures l == k {
      if l != k {
        var m := l[..|k| + 1];
        assert Parent(m) == k;
        PrefixIndexed(at, m, l);
      }
    }
  }

  /** In the parent's list, having the name of the node at `k` is being that node. */
  lemma OwnEntry(st: Store, root: Inode, at: Index, k: Key)
    requires Tree(st, root, at) && k in at && k != [] && Parent(k) in at
    ensures at[Parent(k)] in st && at[k] in st[at[Parent(k)]].contents
    ensures forall c | c in st[at[Parent(k)]].contents :: c in st && (st[c].name == Last(k) <==> c == at[k])
  {
    assert Ext(Parent(k), Last(k)) == k;
    ChildNamed(st, root, at, Parent(k), Last(k));
  }

  lemma OwnName(st: Store, root: Inode, at: Index, k: Key)
    requires Tree(st, root, at) && k != [] && Parent(k) in at
    ensures k in at ==>
      at[Parent(k)] in st && at[k] in st && at[k] in st[at[Parent(k)]].contents && st[at[k]].name == Last(k)
  {
  }

  /** A subtree, once cut off, is a tree of its own that shares no object with what is left. */
  lemma Detached(st: Store, root: Inode, at: Index, k: Key)
    requires Tree(st, root, at) && k in at
    ensures Tree(st, at[k], Sub(at, k)) && Apart(Prune(at, k), Sub(at, k))
    ensures Sub(at, k).Values <= at.Values && at[k] in Sub(at, k).Values
    ensures forall l | l in Prune(at, k) :: at[l] !in Sub(at, k).Values
    ensures k != [] ==> Parent(k) in Prune(at, k)
  {
    hide Tree;
    SubTree(st, root, at, k);
    TreeParts(st, root, at);
    ParentIndexed(st, root, at, k);
    var sub := Sub(at, k);
    assert k + [] == k && sub[[]] == at[k];
    forall l, q | l in Prune(at, k) && q in sub ensures at[l] != sub[q] {
      assert k <= k + q;
    }
  }

  lemma TreeParts(st: Store, root: Inode, at: Index)
    requires Tree(st, root, at)
    ensures Parented(at) && Once(at) && at.Values <= st.Keys
  {
  }

  lemma ParentIndexed(st: Store, root: Inode, at: Index, k: Key)
    requires Tree(st, root, at) && k in at
    ensures k != [] ==> Parent(k) in at && at[Parent(k)] != at[k]
  {
    assert k != [] ==> Parent(k) != k;
  }

  lemma RootIndexed(st: Store, root: Inode, at: Index)
    requires Tree(st, root, at)
    ensures [] in at && at[[]] == root && root in st
  {
  }

  // Python's == on nodes ------------------------------------------------------------------------

  /** The names listed in a node, in order. */
  ghost function Names(st: Store, cs: seq<Inode>): (r: seq<string>)
    requires forall c | c in cs :: c in st
    ensures |r| == |cs|
  {
    seq(|cs|, i requires 0 <= i < |cs| => st[cs[i]].name)
  }

  /** The two nodes agree in every field but look only one level into `contents`. */
  ghost predicate SameFields(st: Store, a: Inode, b: Inode)
    requires a in st && b in st
    requires forall c | c in st[a].contents + st[b].contents :: c in st
  {
    && st[a].name == st[b].name && a.kind == b.kind && a.meta == b.meta
    && Names(st, st[a].contents) == Names(st, st[b].contents)
  }

  ghost predicate Closed(st: Store, at: Index) {
    forall k | k in at :: at[k] in st && forall c | c in st[at[k]].contents :: c in st
  }

  /** The nodes `q` below `k` and below `l` are both there and agree, or both missing. */
  ghost predicate AgreeAt(st: Store, at: Index, k: Key, l: Key, q: Key)
    requires Closed(st, at)
  {
    && (k + q in at <==> l + q in at)
    && (k + q in at && l + q in at ==> SameFields(st, at[k + q], at[l + q]))
  }

  /** The trees below `k` and `l` print alike: same keys, same fields, same order of entries.
      This is what comparing the two ten-field lists with == decides. */
  ghost predicate Same(st: Store, at: Index, k: Key, l: Key)
    requires Closed(st, at)
  {
    forall q :: AgreeAt(st, at, k, l, q)
  }

  lemma TreeClosed(st: Store, root: Inode, at: Index)
    requires Tree(st, root, at)
    ensures Closed(st, at)
  {
    forall k, c | k in at && c in st[at[k]].contents ensures c in st {
      assert Linked(st, at, k, c);
    }
  }

  lemma SameName(st: Store, root: Inode, at: Index, k: Key, l: Key)
    requires Tree(st, root, at) && Closed(st, at) && k in at && l in at && Same(st, at, k, l)
    ensures SameFields(st, at[k], at[l])
  {
    assert AgreeAt(st, at, k, l, []);
    assert k + [] == k && l + [] == l;
  }

  lemma SameDown(st: Store, at: Index, k: Key, l: Key, name: string)
    requires Closed(st, at) && Same(st, at, k, l)
    ensures Same(st, at, Ext(k, name), Ext(l, name))
  {
    forall q ensures AgreeAt(st, at, Ext(k, name), Ext(l, name), q) {
      assert AgreeAt(st, at, k, l, [name] + q);
      assert Ext(k, name) + q == k + ([name] + q);
      assert Ext(l, name) + q == l + ([name] + q);
    }
  }

  /** Comparing two nodes comes down to their own fields and their entries pair by pair. */
  lemma SameUp(st: Store, root: Inode, at: Index, k: Key, l: Key)
    requires Tree(st, root, at) && Closed(st, at) && k in at && l in at
    requires SameFields(st, at[k], at[l])
    requires forall name | name in Names(st, st[at[k]].contents) :: Same(st, at, Ext(k, name), Ext(l, name))
    ensures Same(st, at, k, l)
  {
    forall q ensures AgreeAt(st, at, k, l, q) {
      if q == [] {
        assert k + q == k && l + q == l;
      } else {
        var name, rest := q[0], q[1..];
        assert k + q == Ext(k, name) + rest && l + q == Ext(l, name) + rest;
        if name in Names(st, st[at[k]].contents) {
          assert AgreeAt(st, at, Ext(k, name), Ext(l, name), rest);
        }
        if k + q in at { FirstStep(st, root, at, k, name, rest); }
        if l + q in at { FirstStep(st, root, at, l, name, rest); }
      }
    }
  }

  lemma FirstStep(st: Store, root: Inode, at: Index, k: Key, name: string, rest: Key)
    requires Tree(st, root, at) && Closed(st, at) && k in at && Ext(k, name) + rest in at
    ensures name in Names(st, st[at[k]].contents)
  {
    PrefixIndexed(at, Ext(k, name), Ext(k, name) + rest);
    ChildNamed(st, root, at, k, name);
    var i :| 0 <= i < |st[at[k]].contents| && st[at[k]].contents[i] == at[Ext(k, name)];
    assert Names(st, st[at[k]].contents)[i] == name;
  }

  /** One differing pair of entries settles it. */
  lemma DifferentEntry(st: Store, root: Inode, at: Index, k: Key, l: Key, i: nat)
    requires Tree(st, root, at) && Closed(st, at) && k in at && l in at
    requires i < |st[at[k]].contents| && i < |st[at[l]].contents|
    requires var x, y := st[at[k]].contents[i], st[at[l]].contents[i];
      !Same(st, at, Ext(k, st[x].name), Ext(l, st[y].name))
    ensures !Same(st, at, k, l)
  {
    if Same(st, at, k, l) {
      SameName(st, root, at, k, l);
      var a, b := st[at[k]].contents, st[at[l]].contents;
      assert Names(st, a)[i] == Names(st, b)[i];
      SameDown(st, at, k, l, st[a[i]].name);
      assert false;
    }
  }

  /** All pairs of entries equal, and the nodes' own fields: the nodes are equal. */
  lemma EqualEntries(st: Store, root: Inode, at: Index, k: Key, l: Key)
    requires Tree(st, root, at) && Closed(st, at) && k in at && l in at
    requires st[at[k]].name == st[at[l]].name && at[k].kind == at[l].kind && at[k].meta == at[l].meta
    requires |st[at[k]].contents| == |st[at[l]].contents|
    requires forall j | 0 <= j < |st[at[k]].contents| ::
      Same(st, at, Ext(k, st[st[at[k]].contents[j]].name), Ext(l, st[st[at[l]].contents[j]].name))
    ensures Same(st, at, k, l)
  {
    var a, b := st[at[k]].contents, st[at[l]].contents;
    forall j | 0 <= j < |a| ensures st[a[j]].name == st[b[j]].name {
      assert Linked(st, at, k, a[j]) && Linked(st, at, l, b[j]);
      SameName(st, root, at, Ext(k, st[a[j]].name), Ext(l, st[b[j]].name));
    }
    assert Names(st, a) == Names(st, b);
    SameUp(st, root, at, k, l);
  }

  lemma {:induction false} LongestBelow(at: Index, k: Key, fuel: nat, q: Key) returns (r: Key)
    requires k + q in at
    requires forall l | l in at :: |l| <= |k| + |q| + fuel
    ensures k + r in at && forall t | k + t in at :: |t| <= |r|
    decreases fuel
  {
    if t :| k + t in at && |t| > |q| {
      assert |k + t| <= |k| + |q| + fuel;
      r := LongestBelow(at, k, |q| + fuel - |t|, t);
    } else {
      r := q;
    }
  }

  lemma {:induction false} LengthBound(at: Index) returns (n: nat)
    ensures forall l | l in at :: |l| <= n
    decreases |at|
  {
    if l :| l in at {
      var rest := map m | m in at && m != l :: at[m];
      assert rest.Keys < at.Keys by { assert l !in rest; }
      assert |rest| < |at| by { SmallerMap(rest, at); }
      var b := LengthBound(rest);
      n := if |l| > b then |l| else b;
    } else {
      n := 0;
    }
  }

  lemma SmallerMap(a: Index, b: Index)
    requires a.Keys < b.Keys
    ensures |a| < |b|
  {
    var extra :| extra in b.Keys && extra !in a.Keys;
    SubsetSize(a.Keys, b.Keys - {extra});
  }

  lemma {:induction false} SubsetSize(a: set<Key>, b: set<Key>)
    requires a <= b
    ensures |a| <= |b|
  {
    if x :| x in a {
      SubsetSize(a - {x}, b - {x});
    }
  }

  /** A node never equals one of its own entries: the entry's tree is one level less deep. */
  lemma NotSameAsChild(st: Store, at: Index, k: Key, name: string)
    requires Closed(st, at) && k in at
    ensures !Same(st, at, Ext(k, name), k)
  {
    var n := LengthBound(at);
    assert k + [] == k;
    var q := LongestBelow(at, k, n, []);
    assert Ext(k, name) + q == k + ([name] + q);
    assert !AgreeAt(st, at, Ext(k, name), k, q);
  }

  /** In the parent's list, only the entry itself equals the node at `k`. */
  lemma OnlyItself(st: Store, root: Inode, at: Index, k: Key)
    requires Tree(st, root, at) && Closed(st, at) && k in at && k != [] && Parent(k) in at
    ensures at[k] in st[at[Parent(k)]].contents
    ensures forall c | c in st[at[Parent(k)]].contents ::
      c in st && (Same(st, at, Ext(Parent(k), st[c].name), k) <==> c == at[k])
  {
    assert Ext(Parent(k), Last(k)) == k;
    forall c | c in st[at[Parent(k)]].contents
      ensures c in st && (Same(st, at, Ext(Parent(k), st[c].name), k) <==> c == at[k])
    {
      var l := Ext(Parent(k), st[c].name);
      assert Linked(st, at, Parent(k), c);
      if Same(st, at, l, k) {
        SameName(st, root, at, l, k);
      }
    }
  }

  lemma SameSelf(st: Store, at: Index, k: Key)
    requires Closed(st, at) && k in at
    ensures Same(st, at, k, k)
  {
  }

  /** An entry that equals the node at `xk` has that node's name, and sits where that name says. */
  lemma TwinEntry(st: Store, root: Inode, at: Index, dk: Key, xk: Key, c: Inode)
    requires Tree(st, root, at) && Closed(st, at) && dk in at && xk in at
    requires c in st[at[dk]].contents && Same(st, at, Ext(dk, st[c].name), xk)
    ensures st[c].name == st[at[xk]].name && Ext(dk, st[c].name) in at && at[Ext(dk, st[c].name)] == c
  {
    assert Linked(st, at, dk, c);
    SameName(st, root, at, Ext(dk, st[c].name), xk);
  }

  /** When no entry equals the node at `xk`, the one with its name does not. */
  lemma TwinListed(st: Store, root: Inode, at: Index, dk: Key, xk: Key)
    requires Tree(st, root, at) && Closed(st, at) && dk in at && xk in at
    requires forall c | c in st[at[dk]].contents :: !Same(st, at, Ext(dk, st[c].name), xk)
    ensures var e := Ext(dk, st[at[xk]].name); !(e in at && Same(st, at, e, xk))
  {
    ChildNamed(st, root, at, dk, st[at[xk]].name);
  }

  /** `PruneTree` and `GraftTree` for a store that is only known on the nodes still indexed. */
  lemma PruneFrame(st: Store, root: Inode, at: Index, k: Key, st': Store)
    requires Tree(st, root, at) && k in at && k != [] && Parent(k) in at
    requires forall m | m in Prune(at, k).Values ::
      && m in st && m in st'
      && st'[m].name == st[m].name
      && st'[m].contents == if m == at[Parent(k)] then Without(st[m].contents, at[k]) else st[m].contents
    ensures Tree(st', root, Prune(at, k))
  {
    hide Tree, Once, Parented, Without;
    TreeParts(st, root, at);
    var p := at[Parent(k)];
    var st1 := st[p := st[p].(contents := Without(st[p].contents, at[k]))];
    PruneTree(st, root, at, k, st1);
    FrameTree(st1, root, Prune(at, k), st');
  }

  lemma PruneValues(at: Index, k: Key)
    ensures Prune(at, k).Values <= at.Values && k !in Prune(at, k)
    ensures k != [] && Parent(k) in at ==> Parent(k) in Prune(at, k) && Prune(at, k)[Parent(k)] == at[Parent(k)]
  {
    if k != [] && Parent(k) in at {
      assert Parent(k) in Prune(at, k) && Prune(at, k)[Parent(k)] == at[Parent(k)];
    }
  }

  /** On the nodes `ns`, the rows differ only in that `p` lists `n` as well. */
  ghost predicate AppendedRows(st: Store, st': Store, ns: set<Inode>, p: Inode, n: Inode) {
    forall m | m in ns ::
      && m in st && m in st'
      && st'[m].name == st[m].name
      && st'[m].contents == if m == p then st[m].contents + [n] else st[m].contents
  }

  lemma GraftFrame(st: Store, root: Inode, at: Index, k: Key, n: Inode, sub: Index, st': Store)
    requires Tree(st, root, at) && Tree(st, n, sub) && Apart(at, sub)
    requires k != [] && k !in at && Parent(k) in at && st[n].name == Last(k)
    requires AppendedRows(st, st', at.Values + sub.Values, at[Parent(k)], n)
    ensures Tree(st', root, Graft(at, k, sub))
  {
    hide Tree, Once, Parented, Apart, Graft;
    TreeParts(st, root, at);
    GraftValues(at, k, sub);
    var p := at[Parent(k)];
    var st1 := st[p := st[p].(contents := st[p].contents + [n])];
    GraftTree(st, root, at, k, n, sub, st1);
    FrameTree(st1, root, Graft(at, k, sub), st');
  }

  lemma GraftValues(at: Index, k: Key, sub: Index)
    requires Parented(at) && k !in at
    ensures Graft(at, k, sub).Values == at.Values + sub.Values
  {
    var at' := Graft(at, k, sub);
    KeyArithmetic(k);
    forall l | l in at ensures at'[l] == at[l] {
      if k <= l { PrefixIndexed(at, k, l); }
    }
    forall q | q in sub ensures k + q in at' && at'[k + q] == sub[q] {
      assert (k + q)[|k|..] == q;
    }
  }

  lemma PruneAbsent(at: Index, k: Key)
    requires Parented(at) && k !in at
    ensures Prune(at, k) == at
  {
    forall l | l in at ensures !(k <= l) {
      if k <= l { PrefixIndexed(at, k, l); }
    }
  }

  lemma GraftOne(at: Index, k: Key, n: Inode)
    ensures Graft(at, k, map[[] := n]) == at[k := n]
  {
    assert k[|k|..] == [];
    forall l | k <= l && l[|k|..] == [] ensures l == k {
      assert k + l[|k|..] == l;
    }
  }

  /** Moving a subtree, on the index: what was below `k` is below `k'`, nothing is below `k`, and
      every other key leads to the node it led to before. */
  lemma MoveIndex(at: Index, k: Key, k': Key)
    requires Parented(at) && k in at && k' !in at && !(k <= k')
    ensures var moved := Graft(Prune(at, k), k', Sub(at, k));
      && (forall q {:trigger k' + q} :: k' + q in moved <==> k + q in at)
      && (forall q {:trigger k' + q} :: k + q in at ==> moved[k' + q] == at[k + q])
      && (forall l | k <= l :: l !in moved)
      && (forall l | !(k <= l) && !(k' <= l) :: (l in moved <==> l in at) && (l in at ==> moved[l] == at[l]))
  {
    forall l | l in at ensures !(k' <= l) {
      if k' <= l { PrefixIndexed(at, k', l); }
    }
    assert !(k' <= k);
    KeyArithmetic(k');
  }

  lemma RearrangedValues(at: Index, k: Key, k': Key)
    requires Parented(at)
    ensures Prune(at, k).Values <= at.Values && Prune(at, k).Keys <= at.Keys
    ensures Graft(Prune(at, k), k', Sub(at, k)).Values <= at.Values
  {
  }
}
