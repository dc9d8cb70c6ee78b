/** The ext4 namespace: directories as maps from names to inode numbers, inodes with link counts.
    A directory's map is what its blocks hold; `Ext4Mount` carries the operations out on the blocks
    and derives from them whether an entry fits. */
module Ext4Names {
  import opened Ext4Common

  type Name = seq<int>

  const ROOT := 2
  const LINK_WORD := 0x1_0000   // links_count is a 16-bit field

  datatype Kind = Regular | Directory | Symlink

  datatype Node = Node(kind: Kind, links: nat, entries: map<Name, nat>)

  /** The live inodes. */
  type Tree = map<nat, Node>

  predicate Dots(n: Name) { n == DOT || n == DOTDOT }

  predicate IsDir(t: Tree, d: nat) { d in t && t[d].kind == Directory }

  // ----- who names an inode

  predicate NamesAs(t: Tree, d: nat, n: Name, i: nat) {
    d in t && n in t[d].entries && t[d].entries[n] == i
  }

  ghost function Refs(t: Tree, i: nat): set<(nat, Name)> {
    set d, n | d in t && n in t[d].entries && t[d].entries[n] == i :: (d, n)
  }

  lemma InRefs(t: Tree, i: nat)
    ensures forall d: nat, n: Name :: (d, n) in Refs(t, i) <==> NamesAs(t, d, n, i)
  {}

  // ----- consistency

  /** What one entry must satisfy: it sits in a directory and names a live inode; "." names its own
      directory; a proper name of a directory sits in the directory that its ".." names. */
  ghost predicate Edge(t: Tree, d: nat, n: Name, c: nat) {
    && IsDir(t, d) && c in t
    && (n == DOT ==> c == d)
    && (n == DOTDOT ==> IsDir(t, c))
    && (!Dots(n) && IsDir(t, c) ==> c != ROOT && NamesAs(t, c, DOTDOT, d))
  }

  ghost predicate Edges(t: Tree) {
    forall d: nat, n: Name, c: nat {:trigger Edge(t, d, n, c)} :: NamesAs(t, d, n, c) ==> Edge(t, d, n, c)
  }

  ghost predicate NamedIn(t: Tree, d: nat, c: nat) {
    exists n: Name :: NamesAs(t, d, n, c) && !Dots(n)
  }

  /** A directory names itself and its parent; the root is its own parent, and every other
      directory has a proper name in its parent. */
  ghost predicate Home(t: Tree, c: nat) {
    && NamesAs(t, c, DOT, c)
    && DOTDOT in t[c].entries
    && (if c == ROOT then t[c].entries[DOTDOT] == ROOT else NamedIn(t, t[c].entries[DOTDOT], c))
  }

  ghost predicate Homes(t: Tree) {
    forall c: nat {:trigger Home(t, c)} :: IsDir(t, c) ==> Home(t, c)
  }

  ghost predicate Alone(t: Tree, d: nat, n: Name, m: Name, c: nat) {
    NamesAs(t, d, n, c) && NamesAs(t, d, m, c) && !Dots(n) && !Dots(m) && IsDir(t, c) ==> n == m
  }

  ghost predicate OneName(t: Tree) {
    forall d: nat, n: Name, m: Name, c: nat :: Alone(t, d, n, m, c)
  }

  /** The link count is the number of entries naming the inode, "." and ".." included. */
  ghost predicate Counted(t: Tree, i: nat) {
    i in t && t[i].links == |Refs(t, i)| && 0 < t[i].links < LINK_WORD
  }

  ghost predicate Counts(t: Tree) {
    forall i: nat {:trigger Counted(t, i)} :: i in t ==> Counted(t, i)
  }

  ghost predicate Consistent(t: Tree) {
    IsDir(t, ROOT) && Edges(t) && Homes(t) && OneName(t) && Counts(t)
  }

  lemma Unnamed(t: Tree, i: nat)
    requires Edges(t) && i !in t
    ensures Refs(t, i) == {}
  {
    forall d: nat, n: Name ensures (d, n) !in Refs(t, i) {
      InRefs(t, i);
      assert NamesAs(t, d, n, i) ==> Edge(t, d, n, i);
    }
  }

  // ----- edits and their effect on the references

  /** Adding an entry writes to the inode's blocks; only a directory's blocks are entries. */
  function AddEntry(t: Tree, d: nat, n: Name, c: nat): Tree
    requires d in t
  {
    if t[d].kind == Directory then t[d := t[d].(entries := t[d].entries[n := c])] else t
  }

  function DropEntry(t: Tree, d: nat, n: Name): Tree
    requires d in t
  {
    t[d := t[d].(entries := t[d].entries - {n})]
  }

  function SetLinks(t: Tree, i: nat, links: nat): Tree
    requires i in t
  {
    t[i := t[i].(links := links)]
  }

  lemma RefsAdd(t: Tree, d: nat, n: Name, c: nat, i: nat)
    requires IsDir(t, d) && n !in t[d].entries
    ensures Refs(AddEntry(t, d, n, c), i) == Refs(t, i) + if i == c then {(d, n)} else {}
    ensures (d, n) !in Refs(t, i)
  {}

  lemma RefsDrop(t: Tree, d: nat, n: Name, i: nat)
    requires d in t && n in t[d].entries
    ensures Refs(DropEntry(t, d, n), i) == Refs(t, i) - {(d, n)}
    ensures (d, n) in Refs(t, i) <==> t[d].entries[n] == i
  {}

  lemma RefsLinks(t: Tree, k: nat, links: nat, i: nat)
    requires k in t
    ensures Refs(SetLinks(t, k, links), i) == Refs(t, i)
  {}

  function Inside(k: nat, node: Node, i: nat): set<(nat, Name)> {
    set n | n in node.entries && node.entries[n] == i :: (k, n)
  }

  lemma RefsNew(t: Tree, k: nat, node: Node, i: nat)
    requires k !in t
    ensures Refs(t[k := node], i) == Refs(t, i) + Inside(k, node, i)
    ensures Refs(t, i) !! Inside(k, node, i)
  {}

  lemma RefsGone(t: Tree, k: nat, i: nat)
    requires k in t
    ensures Refs(t - {k}, i) == Refs(t, i) - Inside(k, t[k], i)
    ensures Inside(k, t[k], i) <= Refs(t, i)
  {}

  // ----- the effect of each operation that succeeds

  function Create(t: Tree, p: nat, n: Name, i: nat, kind: Kind): Tree
    requires p in t
  {
    AddEntry(t[i := Node(kind, 1, map[])], p, n, i)
  }

  /** A new directory: itself as ".", its parent as "..". */
  function Parented(i: nat, p: nat): Node { Node(Directory, 2, map[DOT := i, DOTDOT := p]) }

  function Mkdir(t: Tree, p: nat, n: Name, i: nat): Tree
    requires p in t && i != p
  {
    var u := AddEntry(t[i := Parented(i, p)], p, n, i);
    SetLinks(u, p, (u[p].links + 1) % LINK_WORD)
  }

  function Link(t: Tree, q: nat, m: Name, i: nat): Tree
    requires q in t && i in t
  {
    var u := AddEntry(t, q, m, i);
    SetLinks(u, i, (u[i].links + 1) % LINK_WORD)
  }

  function Remove(t: Tree, p: nat, n: Name): Tree
    requires p in t && n in t[p].entries && t[p].entries[n] in t
  {
    var i := t[p].entries[n];
    var u := DropEntry(t, p, n);
    if u[i].links <= 1 then u - {i} else SetLinks(u, i, u[i].links - 1)
  }

  /** The inode is freed unless its number is reserved, in which case freeing is refused after
      the entry has gone. */
  function Rmdir(t: Tree, p: nat, n: Name, firstIno: nat): Tree
    requires p in t && n in t[p].entries
  {
    var i := t[p].entries[n];
    var u := DropEntry(t, p, n);
    var w := SetLinks(u, p, if u[p].links > 0 then u[p].links - 1 else 0);
    if i < firstIno then w else w - {i}
  }

  /** `fits`: the new entry found room in a block the directory already had. */
  function Rename(t: Tree, p: nat, n: Name, q: nat, m: Name, fits: bool): Tree
    requires p in t && q in t && n in t[p].entries
  {
    if p == q && !fits then DropEntry(t, p, n)
    else DropEntry(AddEntry(t, q, m, t[p].entries[n]), p, n)
  }

  // ----- create and symlink

  predicate Fresh(t: Tree, p: nat, n: Name, i: nat) {
    p in t && n !in t[p].entries && i !in t
  }

  lemma CreateNames(t: Tree, p: nat, n: Name, i: nat, kind: Kind, d: nat, m: Name, c: nat)
    requires Fresh(t, p, n, i) && IsDir(t, p)
    ensures NamesAs(Create(t, p, n, i, kind), d, m, c) <==> NamesAs(t, d, m, c) || (d == p && m == n && c == i)
  {}

  lemma ProperIn(t: Tree, p: nat, n: Name)
    requires Consistent(t) && IsDir(t, p) && n !in t[p].entries
    ensures !Dots(n)
  {
    assert Home(t, p);
  }

  lemma CreateEdges(t: Tree, p: nat, n: Name, i: nat, kind: Kind)
    requires Consistent(t) && Fresh(t, p, n, i) && IsDir(t, p) && kind != Directory
    ensures Edges(Create(t, p, n, i, kind))
  {
    var u := Create(t, p, n, i, kind);
    ProperIn(t, p, n);
    forall d: nat, m: Name, c: nat | NamesAs(u, d, m, c) ensures Edge(u, d, m, c) {
      CreateNames(t, p, n, i, kind, d, m, c);
      if NamesAs(t, d, m, c) { assert Edge(t, d, m, c); }
    }
  }

  lemma CreateHomes(t: Tree, p: nat, n: Name, i: nat, kind: Kind)
    requires Consistent(t) && Fresh(t, p, n, i) && IsDir(t, p) && kind != Directory
    ensures Homes(Create(t, p, n, i, kind)) && OneName(Create(t, p, n, i, kind))
  {
    var u := Create(t, p, n, i, kind);
    forall c: nat | IsDir(u, c) ensures Home(u, c) {
      assert Home(t, c);
      if c != ROOT {
        var m: Name :| NamesAs(t, t[c].entries[DOTDOT], m, c) && !Dots(m);
        CreateNames(t, p, n, i, kind, t[c].entries[DOTDOT], m, c);
        assert NamedIn(u, t[c].entries[DOTDOT], c);
      }
    }
    forall d: nat, m: Name, m': Name, c: nat ensures Alone(u, d, m, m', c) {
      CreateNames(t, p, n, i, kind, d, m, c);
      CreateNames(t, p, n, i, kind, d, m', c);
      assert Alone(t, d, m, m', c);
    }
  }

  lemma CreateCounts(t: Tree, p: nat, n: Name, i: nat, kind: Kind, k: nat)
    requires Consistent(t) && Fresh(t, p, n, i) && IsDir(t, p) && k in Create(t, p, n, i, kind)
    ensures Counted(Create(t, p, n, i, kind), k)
  {
    var w := t[i := Node(kind, 1, map[])];
    RefsNew(t, i, w[i], k);
    RefsAdd(w, p, n, i, k);
    Unnamed(t, i);
    if k != i { assert Counted(t, k); }
  }

  /** Creating a file or a symlink keeps the tree consistent exactly when the parent is a
      directory; the symlink operation does not check that it is. */
  lemma CreateConsistentIff(t: Tree, p: nat, n: Name, i: nat, kind: Kind)
    requires Consistent(t) && Fresh(t, p, n, i) && kind != Directory
    ensures Consistent(Create(t, p, n, i, kind)) <==> IsDir(t, p)
  {
    var u := Create(t, p, n, i, kind);
    if IsDir(t, p) {
      CreateEdges(t, p, n, i, kind);
      CreateHomes(t, p, n, i, kind);
      forall k: nat | k in u ensures Counted(u, k) { CreateCounts(t, p, n, i, kind, k); }
    } else {
      Unnamed(t, i);
      RefsNew(t, i, u[i], i);
      assert !Counted(u, i);
    }
  }

  // ----- mkdir

  predicate MkdirName(t: Tree, p: nat, n: Name, i: nat, d: nat, m: Name, c: nat) {
    NamesAs(t, d, m, c) || (d == p && m == n && c == i) || (d == i && ((m == DOT && c == i) || (m == DOTDOT && c == p)))
  }

  lemma MkdirNames(t: Tree, p: nat, n: Name, i: nat, d: nat, m: Name, c: nat)
    requires Fresh(t, p, n, i) && IsDir(t, p)
    ensures NamesAs(Mkdir(t, p, n, i), d, m, c) <==> MkdirName(t, p, n, i, d, m, c)
  {}

  lemma MkdirEdges(t: Tree, p: nat, n: Name, i: nat)
    requires Consistent(t) && Fresh(t, p, n, i) && IsDir(t, p)
    ensures Edges(Mkdir(t, p, n, i))
  {
    var u := Mkdir(t, p, n, i);
    ProperIn(t, p, n);
    forall d: nat, m: Name, c: nat | NamesAs(u, d, m, c) ensures Edge(u, d, m, c) {
      MkdirNames(t, p, n, i, d, m, c);
      if NamesAs(t, d, m, c) {
        assert Edge(t, d, m, c);
        MkdirNames(t, p, n, i, c, DOTDOT, d);
      } else {
        MkdirNames(t, p, n, i, i, DOTDOT, p);
      }
    }
  }

  lemma MkdirHomes(t: Tree, p: nat, n: Name, i: nat)
    requires Consistent(t) && Fresh(t, p, n, i) && IsDir(t, p)
    ensures Homes(Mkdir(t, p, n, i))
  {
    var u := Mkdir(t, p, n, i);
    ProperIn(t, p, n);
    forall c: nat | IsDir(u, c) ensures Home(u, c) {
      if c == i {
        MkdirNames(t, p, n, i, p, n, i);
        assert NamedIn(u, p, i);
      } else {
        assert Home(t, c);
        if c != ROOT {
          var m: Name :| NamesAs(t, t[c].entries[DOTDOT], m, c) && !Dots(m);
          MkdirNames(t, p, n, i, t[c].entries[DOTDOT], m, c);
          assert NamedIn(u, t[c].entries[DOTDOT], c);
        }
      }
    }
  }

  lemma MkdirOneName(t: Tree, p: nat, n: Name, i: nat)
    requires Consistent(t) && Fresh(t, p, n, i) && IsDir(t, p)
    ensures OneName(Mkdir(t, p, n, i))
  {
    var u := Mkdir(t, p, n, i);
    forall d: nat, m: Name, m': Name, c: nat ensures Alone(u, d, m, m', c) {
      MkdirNames(t, p, n, i, d, m, c);
      MkdirNames(t, p, n, i, d, m', c);
      assert Alone(t, d, m, m', c);
      assert NamesAs(t, d, m, c) ==> Edge(t, d, m, c);
      assert NamesAs(t, d, m', c) ==> Edge(t, d, m', c);
    }
  }

  lemma InsideParented(i: nat, p: nat, k: nat)
    requires i != p
    ensures Inside(i, Parented(i, p), k) == if k == i then {(i, DOT)} else if k == p then {(i, DOTDOT)} else {}
  {}

  lemma MkdirRefs(t: Tree, p: nat, n: Name, i: nat, k: nat)
    requires Edges(t) && Fresh(t, p, n, i) && IsDir(t, p)
    ensures Refs(Mkdir(t, p, n, i), k) ==
            Refs(t, k) + Inside(i, Parented(i, p), k) + if k == i then {(p, n)} else {}
    ensures Refs(t, k) !! Inside(i, Parented(i, p), k)
    ensures (p, n) !in Refs(t, k) + Inside(i, Parented(i, p), k)
  {
    var w := t[i := Parented(i, p)];
    var v := AddEntry(w, p, n, i);
    RefsNew(t, i, w[i], k);
    RefsAdd(w, p, n, i, k);
    RefsLinks(v, p, (v[p].links + 1) % LINK_WORD, k);
  }

  lemma MkdirRefCount(t: Tree, p: nat, n: Name, i: nat, k: nat)
    requires Edges(t) && Fresh(t, p, n, i) && IsDir(t, p)
    ensures |Refs(Mkdir(t, p, n, i), k)| == if k == i then 2 else |Refs(t, k)| + if k == p then 1 else 0
  {
    MkdirRefs(t, p, n, i, k);
    InsideParented(i, p, k);
    if k == i { Unnamed(t, i); }
  }

  lemma MkdirCounted(t: Tree, p: nat, n: Name, i: nat, k: nat)
    requires Consistent(t) && Fresh(t, p, n, i) && IsDir(t, p) && k in Mkdir(t, p, n, i)
    ensures Counted(Mkdir(t, p, n, i), k) <==> k != p || t[p].links + 1 < LINK_WORD
  {
    MkdirRefCount(t, p, n, i, k);
    if k != i { assert Counted(t, k); }
  }

  lemma MkdirCounts(t: Tree, p: nat, n: Name, i: nat)
    requires Consistent(t) && Fresh(t, p, n, i) && IsDir(t, p)
    ensures Counts(Mkdir(t, p, n, i)) <==> t[p].links + 1 < LINK_WORD
  {
    forall k: nat | k in Mkdir(t, p, n, i)
      ensures Counted(Mkdir(t, p, n, i), k) <==> k != p || t[p].links + 1 < LINK_WORD
    {
      MkdirCounted(t, p, n, i, k);
    }
    assert Counted(Mkdir(t, p, n, i), p) <==> t[p].links + 1 < LINK_WORD;
  }

  /** mkdir keeps the tree consistent exactly while the parent's 16-bit link count has room. */
  lemma MkdirConsistentIff(t: Tree, p: nat, n: Name, i: nat)
    requires Consistent(t) && Fresh(t, p, n, i) && IsDir(t, p)
    ensures Consistent(Mkdir(t, p, n, i)) <==> t[p].links + 1 < LINK_WORD
  {
    var u := Mkdir(t, p, n, i);
    MkdirEdges(t, p, n, i);
    MkdirHomes(t, p, n, i);
    MkdirOneName(t, p, n, i);
    MkdirCounts(t, p, n, i);
    assert IsDir(u, ROOT);
  }

  // ----- link

  lemma LinkNames(t: Tree, q: nat, m: Name, i: nat, d: nat, n: Name, c: nat)
    requires IsDir(t, q) && m !in t[q].entries && i in t
    ensures NamesAs(Link(t, q, m, i), d, n, c) <==> NamesAs(t, d, n, c) || (d == q && n == m && c == i)
  {}

  lemma LinkShape(t: Tree, q: nat, m: Name, i: nat)
    requires Consistent(t) && IsDir(t, q) && m !in t[q].entries && i in t && t[i].kind != Directory
    ensures Edges(Link(t, q, m, i)) && OneName(Link(t, q, m, i))
  {
    var u := Link(t, q, m, i);
    ProperIn(t, q, m);
    forall d: nat, n: Name, c: nat | NamesAs(u, d, n, c) ensures Edge(u, d, n, c) {
      LinkNames(t, q, m, i, d, n, c);
      if NamesAs(t, d, n, c) { assert Edge(t, d, n, c); }
    }
    forall d: nat, n: Name, n': Name, c: nat ensures Alone(u, d, n, n', c) {
      LinkNames(t, q, m, i, d, n, c);
      LinkNames(t, q, m, i, d, n', c);
      assert Alone(t, d, n, n', c);
    }
  }

  lemma LinkHomes(t: Tree, q: nat, m: Name, i: nat)
    requires Consistent(t) && IsDir(t, q) && m !in t[q].entries && i in t && t[i].kind != Directory
    ensures Homes(Link(t, q, m, i))
  {
    var u := Link(t, q, m, i);
    forall c: nat | IsDir(u, c) ensures Home(u, c) {
      assert Home(t, c);
      if c != ROOT {
        var n: Name :| NamesAs(t, t[c].entries[DOTDOT], n, c) && !Dots(n);
        LinkNames(t, q, m, i, t[c].entries[DOTDOT], n, c);
        assert NamedIn(u, t[c].entries[DOTDOT], c);
      }
    }
  }

  lemma LinkRefs(t: Tree, q: nat, m: Name, i: nat, k: nat)
    requires q in t && m !in t[q].entries && i in t
    ensures |Refs(Link(t, q, m, i), k)| == |Refs(t, k)| + if IsDir(t, q) && k == i then 1 else 0
  {
    var v := AddEntry(t, q, m, i);
    RefsLinks(v, i, (v[i].links + 1) % LINK_WORD, k);
    if IsDir(t, q) { RefsAdd(t, q, m, i, k); }
  }

  lemma LinkCounts(t: Tree, q: nat, m: Name, i: nat)
    requires Consistent(t) && q in t && m !in t[q].entries && i in t
    ensures Counts(Link(t, q, m, i)) <==> IsDir(t, q) && t[i].links + 1 < LINK_WORD
  {
    forall k: nat | k in Link(t, q, m, i)
      ensures Counted(Link(t, q, m, i), k) <==> k != i || (IsDir(t, q) && t[i].links + 1 < LINK_WORD)
    {
      LinkRefs(t, q, m, i, k);
      assert Counted(t, k);
    }
    assert Counted(Link(t, q, m, i), i) <==> IsDir(t, q) && t[i].links + 1 < LINK_WORD;
  }

  /** A hard link keeps the tree consistent exactly when its parent is a directory, which the
      operation does not check, and the 16-bit link count has room. */
  lemma LinkConsistentIff(t: Tree, q: nat, m: Name, i: nat)
    requires Consistent(t) && q in t && m !in t[q].entries && i in t && t[i].kind != Directory
    ensures Consistent(Link(t, q, m, i)) <==> IsDir(t, q) && t[i].links + 1 < LINK_WORD
  {
    LinkCounts(t, q, m, i);
    if IsDir(t, q) {
      LinkShape(t, q, m, i);
      LinkHomes(t, q, m, i);
      assert IsDir(Link(t, q, m, i), ROOT);
    }
  }

  // ----- unlink

  lemma RemoveNames(t: Tree, p: nat, n: Name, i: nat, d: nat, m: Name, c: nat)
    requires Edges(t) && NamesAs(t, p, n, i) && i in t && t[i].kind != Directory
    ensures NamesAs(Remove(t, p, n), d, m, c) <==> NamesAs(t, d, m, c) && !(d == p && m == n)
  {
    assert NamesAs(t, i, m, c) ==> Edge(t, i, m, c);
    assert Edge(t, p, n, i);
  }

  lemma OnlyName(t: Tree, p: nat, n: Name, i: nat)
    requires Counted(t, i) && t[i].links == 1 && NamesAs(t, p, n, i)
    ensures Refs(t, i) == {(p, n)}
  {
    InRefs(t, i);
    assert Refs(t, i) == {(p, n)} + (Refs(t, i) - {(p, n)});
  }

  lemma RemoveEdges(t: Tree, p: nat, n: Name, i: nat)
    requires Consistent(t) && NamesAs(t, p, n, i) && i in t && t[i].kind != Directory
    ensures Edges(Remove(t, p, n)) && OneName(Remove(t, p, n))
  {
    var u := Remove(t, p, n);
    assert Edge(t, p, n, i) && Counted(t, i);
    forall d: nat, m: Name, c: nat | NamesAs(u, d, m, c) ensures Edge(u, d, m, c) {
      RemoveNames(t, p, n, i, d, m, c);
      assert Edge(t, d, m, c);
      InRefs(t, i);
      if c == i && t[i].links == 1 { OnlyName(t, p, n, i); }
    }
    forall d: nat, m: Name, m': Name, c: nat ensures Alone(u, d, m, m', c) {
      RemoveNames(t, p, n, i, d, m, c);
      RemoveNames(t, p, n, i, d, m', c);
      assert Alone(t, d, m, m', c);
    }
  }

  lemma RemoveHomes(t: Tree, p: nat, n: Name, i: nat)
    requires Consistent(t) && NamesAs(t, p, n, i) && i in t && t[i].kind != Directory
    ensures Homes(Remove(t, p, n)) && !Dots(n)
  {
    var u := Remove(t, p, n);
    assert Edge(t, p, n, i);
    forall c: nat | IsDir(u, c) ensures Home(u, c) {
      assert Home(t, c);
      if c != ROOT {
        var m: Name :| NamesAs(t, t[c].entries[DOTDOT], m, c) && !Dots(m);
        RemoveNames(t, p, n, i, t[c].entries[DOTDOT], m, c);
        assert NamedIn(u, t[c].entries[DOTDOT], c);
      }
    }
  }

  lemma RemoveRefs(t: Tree, p: nat, n: Name, i: nat, k: nat)
    requires Edges(t) && NamesAs(t, p, n, i) && i in t && t[i].kind != Directory && k != i
    ensures Refs(Remove(t, p, n), k) == Refs(t, k)
  {
    forall d: nat, m: Name ensures (d, m) in Refs(Remove(t, p, n), k) <==> (d, m) in Refs(t, k) {
      InRefs(t, k);
      InRefs(Remove(t, p, n), k);
      RemoveNames(t, p, n, i, d, m, k);
    }
  }

  lemma RemoveRefsOfIt(t: Tree, p: nat, n: Name, i: nat)
    requires Edges(t) && NamesAs(t, p, n, i) && i in t && t[i].kind != Directory
    ensures Refs(Remove(t, p, n), i) == Refs(t, i) - {(p, n)} && (p, n) in Refs(t, i)
  {
    InRefs(t, i);
    InRefs(Remove(t, p, n), i);
    forall d: nat, m: Name ensures (d, m) in Refs(Remove(t, p, n), i) <==> (d, m) in Refs(t, i) - {(p, n)} {
      RemoveNames(t, p, n, i, d, m, i);
    }
  }

  /** Removing a name that is not a directory's keeps the tree consistent, and frees the inode
      exactly when no other name is left. */
  lemma RemoveConsistent(t: Tree, p: nat, n: Name, i: nat)
    requires Consistent(t) && NamesAs(t, p, n, i) && i in t && t[i].kind != Directory
    ensures Consistent(Remove(t, p, n))
    ensures i !in Remove(t, p, n) <==> Refs(t, i) == {(p, n)}
    ensures Refs(Remove(t, p, n), i) == Refs(t, i) - {(p, n)}
  {
    var u := Remove(t, p, n);
    RemoveEdges(t, p, n, i);
    RemoveHomes(t, p, n, i);
    RemoveRefsOfIt(t, p, n, i);
    assert Counted(t, i) && Edge(t, p, n, i);
    if t[i].links == 1 { OnlyName(t, p, n, i); }
    forall k: nat | k in u ensures Counted(u, k) {
      assert Counted(t, k);
      if k != i { RemoveRefs(t, p, n, i, k); }
    }
  }

  // ----- rmdir

  ghost predicate Hollow(t: Tree, c: nat) {
    IsDir(t, c) && forall m: Name :: m in t[c].entries ==> Dots(m)
  }

  lemma NamesNone(t: Tree, c: nat, d: nat)
    requires Hollow(t, c)
    ensures !NamedIn(t, c, d)
  {}

  /** Only reserved numbers lie below the first free one, and of those only the root is used. */
  ghost predicate Numbered(t: Tree, firstIno: nat) {
    forall i: nat :: i in t ==> i == ROOT || firstIno <= i
  }

  /** An empty directory is named only by itself and by its parent. */
  lemma NoneElse(t: Tree, p: nat, n: Name, c: nat, d: nat, m: Name)
    requires Consistent(t) && NamesAs(t, p, n, c) && !Dots(n) && Hollow(t, c)
    ensures c != ROOT && c != p && NamesAs(t, c, DOTDOT, p) && NamesAs(t, c, DOT, c)
    ensures NamesAs(t, d, m, c) ==> d == c || (d == p && m == n)
  {
    assert Edge(t, p, n, c) && Home(t, c) && Alone(t, p, n, m, c);
    if NamesAs(t, d, m, c) {
      assert Edge(t, d, m, c) && Home(t, d);
      NamesNone(t, c, d);
    }
  }

  lemma RmdirNames(t: Tree, p: nat, n: Name, c: nat, firstIno: nat, d: nat, m: Name, k: nat)
    requires NamesAs(t, p, n, c) && c != p && firstIno <= c
    ensures NamesAs(Rmdir(t, p, n, firstIno), d, m, k) <==> NamesAs(t, d, m, k) && d != c && !(d == p && m == n)
  {}

  lemma RmdirEdges(t: Tree, p: nat, n: Name, c: nat, firstIno: nat)
    requires Consistent(t) && NamesAs(t, p, n, c) && !Dots(n) && Hollow(t, c) && firstIno <= c
    ensures Edges(Rmdir(t, p, n, firstIno)) && OneName(Rmdir(t, p, n, firstIno))
  {
    var u := Rmdir(t, p, n, firstIno);
    NoneElse(t, p, n, c, p, n);
    forall d: nat, m: Name, k: nat | NamesAs(u, d, m, k) ensures Edge(u, d, m, k) {
      RmdirNames(t, p, n, c, firstIno, d, m, k);
      NoneElse(t, p, n, c, d, m);
      assert Edge(t, d, m, k);
      RmdirNames(t, p, n, c, firstIno, k, DOTDOT, d);
    }
    forall d: nat, m: Name, m': Name, k: nat ensures Alone(u, d, m, m', k) {
      RmdirNames(t, p, n, c, firstIno, d, m, k);
      RmdirNames(t, p, n, c, firstIno, d, m', k);
      assert Alone(t, d, m, m', k);
    }
  }

  lemma RmdirHomes(t: Tree, p: nat, n: Name, c: nat, firstIno: nat)
    requires Consistent(t) && NamesAs(t, p, n, c) && !Dots(n) && Hollow(t, c) && firstIno <= c
    ensures Homes(Rmdir(t, p, n, firstIno))
  {
    var u := Rmdir(t, p, n, firstIno);
    NoneElse(t, p, n, c, p, n);
    forall k: nat | IsDir(u, k) ensures Home(u, k) {
      assert Home(t, k);
      if k != ROOT {
        var m: Name :| NamesAs(t, t[k].entries[DOTDOT], m, k) && !Dots(m);
        RmdirNames(t, p, n, c, firstIno, t[k].entries[DOTDOT], m, k);
        assert NamedIn(u, t[k].entries[DOTDOT], k);
      }
    }
  }

  lemma InsideHollow(t: Tree, c: nat, k: nat, p: nat)
    requires Hollow(t, c) && NamesAs(t, c, DOT, c) && NamesAs(t, c, DOTDOT, p) && k != c
    ensures Inside(c, t[c], k) == if k == p then {(c, DOTDOT)} else {}
  {}

  lemma RmdirRefs(t: Tree, p: nat, n: Name, c: nat, firstIno: nat, k: nat)
    requires Consistent(t) && NamesAs(t, p, n, c) && !Dots(n) && Hollow(t, c) && firstIno <= c && k != c
    ensures |Refs(Rmdir(t, p, n, firstIno), k)| == |Refs(t, k)| - if k == p then 1 else 0
  {
    NoneElse(t, p, n, c, p, n);
    var v := DropEntry(t, p, n);
    var w := SetLinks(v, p, if v[p].links > 0 then v[p].links - 1 else 0);
    RefsDrop(t, p, n, k);
    RefsLinks(v, p, w[p].links, k);
    RefsGone(w, c, k);
    InsideHollow(t, c, k, p);
    assert w[c] == t[c];
  }

  lemma TwoNames(t: Tree, p: nat, c: nat)
    requires NamesAs(t, p, DOT, p) && NamesAs(t, c, DOTDOT, p)
    ensures |Refs(t, p)| >= 2
  {
    InRefs(t, p);
    assert {(p, DOT)} + {(c, DOTDOT)} <= Refs(t, p);
    Within({(p, DOT)} + {(c, DOTDOT)}, Refs(t, p));
  }

  lemma Within(a: set<(nat, Name)>, b: set<(nat, Name)>)
    requires a <= b
    ensures |a| <= |b|
  {
    assert b == a + (b - a);
  }

  lemma RmdirCounts(t: Tree, p: nat, n: Name, c: nat, firstIno: nat)
    requires Consistent(t) && NamesAs(t, p, n, c) && !Dots(n) && Hollow(t, c) && firstIno <= c
    ensures Counts(Rmdir(t, p, n, firstIno))
  {
    var u := Rmdir(t, p, n, firstIno);
    NoneElse(t, p, n, c, p, n);
    assert Edge(t, p, n, c) && Home(t, p);
    TwoNames(t, p, c);
    forall k: nat | k in u ensures Counted(u, k) {
      assert Counted(t, k);
      RmdirRefs(t, p, n, c, firstIno, k);
    }
  }

  lemma RmdirOfDots(t: Tree, p: nat, n: Name, c: nat, firstIno: nat)
    requires Consistent(t) && NamesAs(t, p, n, c) && Dots(n) && Hollow(t, c)
    ensures !Consistent(Rmdir(t, p, n, firstIno))
  {
    var u := Rmdir(t, p, n, firstIno);
    assert Edge(t, p, n, c) && Home(t, p);
    NamesNone(t, c, p);
    assert c == p;
    if c < firstIno {
      assert !Home(u, p);
    } else if c != ROOT {
      var d := t[c].entries[DOTDOT];
      var m: Name :| NamesAs(t, d, m, c) && !Dots(m);
      assert Edge(t, d, m, c);
      assert NamesAs(u, d, m, c) && !Edge(u, d, m, c);
    }
  }

  /** Removing an empty directory keeps the tree consistent exactly when it was not named as "."
      or "..": the operation accepts "a/.", and then frees a directory its parent still names. */
  lemma RmdirConsistentIff(t: Tree, p: nat, n: Name, c: nat, firstIno: nat)
    requires Consistent(t) && NamesAs(t, p, n, c) && Hollow(t, c) && Numbered(t, firstIno)
    ensures Consistent(Rmdir(t, p, n, firstIno)) <==> !Dots(n)
  {
    if Dots(n) {
      RmdirOfDots(t, p, n, c, firstIno);
    } else {
      NoneElse(t, p, n, c, p, n);
      RmdirEdges(t, p, n, c, firstIno);
      RmdirHomes(t, p, n, c, firstIno);
      RmdirCounts(t, p, n, c, firstIno);
      assert IsDir(Rmdir(t, p, n, firstIno), ROOT);
    }
  }

  // ----- rename

  /** What the operation has checked before it writes. */
  ghost predicate Movable(t: Tree, p: nat, n: Name, c: nat, q: nat, m: Name) {
    NamesAs(t, p, n, c) && q in t && m !in t[q].entries && (IsDir(t, c) ==> p == q)
  }

  /** The move is seen in both directories. */
  predicate Moves(t: Tree, n: Name, p: nat, q: nat, fits: bool) {
    !Dots(n) && IsDir(t, q) && (p != q || fits)
  }

  lemma RenameNames(t: Tree, p: nat, n: Name, c: nat, q: nat, m: Name, fits: bool, d: nat, x: Name, k: nat)
    requires Movable(t, p, n, c, q, m) && Moves(t, n, p, q, fits)
    ensures NamesAs(Rename(t, p, n, q, m, fits), d, x, k) <==>
            (NamesAs(t, d, x, k) && !(d == p && x == n)) || (d == q && x == m && k == c)
  {}

  lemma RenameEdges(t: Tree, p: nat, n: Name, c: nat, q: nat, m: Name, fits: bool)
    requires Consistent(t) && Movable(t, p, n, c, q, m) && Moves(t, n, p, q, fits)
    ensures Edges(Rename(t, p, n, q, m, fits))
  {
    var u := Rename(t, p, n, q, m, fits);
    assert Edge(t, p, n, c);
    ProperIn(t, q, m);
    forall d: nat, x: Name, k: nat | NamesAs(u, d, x, k) ensures Edge(u, d, x, k) {
      RenameNames(t, p, n, c, q, m, fits, d, x, k);
      RenameNames(t, p, n, c, q, m, fits, k, DOTDOT, d);
      assert NamesAs(t, d, x, k) ==> Edge(t, d, x, k);
    }
  }

  lemma RenameHomes(t: Tree, p: nat, n: Name, c: nat, q: nat, m: Name, fits: bool)
    requires Consistent(t) && Movable(t, p, n, c, q, m) && Moves(t, n, p, q, fits)
    ensures Homes(Rename(t, p, n, q, m, fits))
  {
    var u := Rename(t, p, n, q, m, fits);
    assert Edge(t, p, n, c);
    ProperIn(t, q, m);
    forall k: nat | IsDir(u, k) ensures Home(u, k) {
      assert Home(t, k);
      if k != ROOT {
        var x: Name :| NamesAs(t, t[k].entries[DOTDOT], x, k) && !Dots(x);
        RenameNames(t, p, n, c, q, m, fits, t[k].entries[DOTDOT], if k == c then m else x, k);
        assert NamedIn(u, t[k].entries[DOTDOT], k);
      }
    }
  }

  lemma RenameOneName(t: Tree, p: nat, n: Name, c: nat, q: nat, m: Name, fits: bool)
    requires Consistent(t) && Movable(t, p, n, c, q, m) && Moves(t, n, p, q, fits)
    ensures OneName(Rename(t, p, n, q, m, fits))
  {
    var u := Rename(t, p, n, q, m, fits);
    forall d: nat, x: Name, y: Name, k: nat ensures Alone(u, d, x, y, k) {
      RenameNames(t, p, n, c, q, m, fits, d, x, k);
      RenameNames(t, p, n, c, q, m, fits, d, y, k);
      assert Alone(t, d, x, y, k) && Alone(t, d, x, n, k) && Alone(t, d, y, n, k);
    }
  }

  lemma RenameRefs(t: Tree, p: nat, n: Name, c: nat, q: nat, m: Name, fits: bool, k: nat)
    requires Movable(t, p, n, c, q, m)
    ensures |Refs(Rename(t, p, n, q, m, fits), k)| ==
            |Refs(t, k)| - if k == c && !(IsDir(t, q) && (p != q || fits)) then 1 else 0
  {
    if IsDir(t, q) && (p != q || fits) {
      RefsAdd(t, q, m, c, k);
      RefsDrop(AddEntry(t, q, m, c), p, n, k);
    } else {
      RefsDrop(t, p, n, k);
    }
  }

  lemma RenameCounts(t: Tree, p: nat, n: Name, c: nat, q: nat, m: Name, fits: bool)
    requires Consistent(t) && Movable(t, p, n, c, q, m)
    ensures Counts(Rename(t, p, n, q, m, fits)) <==> IsDir(t, q) && (p != q || fits)
  {
    var u := Rename(t, p, n, q, m, fits);
    assert Edge(t, p, n, c);
    forall k: nat | k in u ensures Counted(u, k) <==> k != c || (IsDir(t, q) && (p != q || fits)) {
      RenameRefs(t, p, n, c, q, m, fits, k);
      assert Counted(t, k);
    }
    assert Counted(u, c) <==> IsDir(t, q) && (p != q || fits);
  }

  /** Renaming keeps the tree consistent exactly when the old name is not "." or "..", the new
      parent is a directory, and, inside one directory, the new entry fits a block it had. */
  lemma RenameConsistentIff(t: Tree, p: nat, n: Name, c: nat, q: nat, m: Name, fits: bool)
    requires Consistent(t) && Movable(t, p, n, c, q, m)
    ensures Consistent(Rename(t, p, n, q, m, fits)) <==> Moves(t, n, p, q, fits)
  {
    var u := Rename(t, p, n, q, m, fits);
    RenameCounts(t, p, n, c, q, m, fits);
    assert Edge(t, p, n, c);
    if Dots(n) {
      assert !Home(u, p);
    } else if Moves(t, n, p, q, fits) {
      RenameEdges(t, p, n, c, q, m, fits);
      RenameHomes(t, p, n, c, q, m, fits);
      RenameOneName(t, p, n, c, q, m, fits);
      assert IsDir(u, ROOT);
    }
  }
}
