/** The ext4 namespace as it is stored: inodes with kind and link count, and for each directory its
    blocks. The operations of `Ext4Namespace` are carried out on the blocks; whether a name fits is
    read from their records, and the block layer only answers whether a new block can be had. */
module Ext4Mount {
  import opened Bytes
  import opened Ext4Common
  import B = Ext4DirBlock
  import opened Ext4DirMap
  import opened Ext4Names
  import opened Ext4Namespace
  import P = Ext4Paths

  datatype Stat = Stat(kind: Kind, links: nat)

  type Blocks = map<nat, seq<B.Block>>

  datatype Mounted = Mounted(inodes: map<nat, Stat>, blocks: Blocks)

  /** The block layer's answer when a new block is needed. */
  datatype Answer = Grants | Denies(why: Failure)

  /** What it answers for the content of a new inode, and for the growth of the parent. */
  datatype Spare = Spare(own: Answer, more: Answer)

  const INLINE_TARGET := 60   // a link target up to this length lies inside the inode

  predicate SuperOk(sb: Super) { 1024 <= sb.blockSize <= 4096 && ROOT <= sb.total < U32 }

  predicate HasBlocks(m: Mounted, d: nat) { d in m.inodes && m.inodes[d].kind == Directory }

  ghost predicate DirFormed(m: Mounted, sb: Super, d: nat) {
    && (d in m.blocks <==> HasBlocks(m, d))
    && (d in m.blocks ==> Dir(m.blocks[d]) && Sized(m.blocks[d], sb.blockSize))
  }

  /** Directories, and only they, have blocks, each tiled by records and without double names. */
  ghost predicate Formed(m: Mounted, sb: Super) {
    && SuperOk(sb)
    && (forall i: nat :: i in m.inodes ==> 0 < i <= sb.total)
    && (forall d: nat :: DirFormed(m, sb, d))
  }

  ghost function NodeOf(m: Mounted, i: nat): Node
    requires i in m.inodes
  {
    Node(m.inodes[i].kind, m.inodes[i].links, if i in m.blocks then DirMap(m.blocks[i]) else map[])
  }

  /** The tree of names that the blocks hold. */
  ghost function TreeOf(m: Mounted): Tree { map i: nat | i in m.inodes :: NodeOf(m, i) }

  predicate IsName(n: Name) { |n| <= 255 && forall k :: 0 <= k < |n| ==> 0 <= n[k] < 256 }

  function FileType(kind: Kind): Byte {
    match kind case Regular => 1 case Directory => 2 case Symlink => 7
  }

  // ----- the room for a name

  /** No block of directory d has room for a record of the name. */
  ghost predicate Full(m: Mounted, d: nat, n: Name)
    requires d in m.blocks
  {
    Packed(m.blocks[d], |m.blocks[d]|, B.DirentLen(|n|))
  }

  /** What adding the name finds; where the parent is no directory, only the block layer decides. */
  ghost function RoomAt(m: Mounted, d: nat, n: Name, spare: Spare): Room {
    if !IsName(n) then Refused(InvalidArgument)
    else if d in m.blocks && !Full(m, d, n) then Fits
    else if spare.more.Denies? then Refused(spare.more.why)
    else if d in m.blocks then Grows
    else Fits
  }

  ghost function RoomFor(m: Mounted, path: Path, spare: Spare): Room {
    var at := Locate(TreeOf(m), path);
    if at.At? then RoomAt(m, at.dir, at.name, spare) else Fits
  }

  /** A new directory needs a block of its own first, and so does a long link target. */
  ghost function Roomed(m: Mounted, op: Op<Spare>): Op<Room> {
    match op
    case OpCreate(path, spare) => OpCreate(path, RoomFor(m, path, spare))
    case OpSymlink(path, target, spare) =>
      var content := |target| > INLINE_TARGET && spare.own.Denies?;
      OpSymlink(path, target, if content then Refused(spare.own.why) else RoomFor(m, path, spare))
    case OpMkdir(path, spare) =>
      OpMkdir(path, if spare.own.Denies? then Refused(spare.own.why) else RoomFor(m, path, spare))
    case OpLink(from, path, spare) => OpLink(from, path, RoomFor(m, path, spare))
    case OpRemove(path) => OpRemove(path)
    case OpRmdir(path) => OpRmdir(path)
    case OpRename(from, path, spare) => OpRename(from, path, RoomFor(m, path, spare))
  }

  // ----- edits of the stored state

  /** The entry goes into the blocks of d, if it is a directory. */
  ghost function Put(blocks: Blocks, sb: Super, d: nat, n: Name, i: nat, kind: Kind): Blocks
    requires SuperOk(sb) && i < U32 && IsName(n)
  {
    if d in blocks then blocks[d := WithEntry(blocks[d], sb.blockSize, i, FileType(kind), n)] else blocks
  }

  ghost function Cut(blocks: Blocks, d: nat, n: Name): Blocks
    requires IsName(n)
  {
    if d in blocks then blocks[d := WithoutEntry(blocks[d], 0, n)] else blocks
  }

  function Linked(inodes: map<nat, Stat>, i: nat, links: nat): map<nat, Stat>
    requires i in inodes
  {
    inodes[i := inodes[i].(links := links)]
  }

  lemma LinkedTree(m: Mounted, sb: Super, i: nat, links: nat)
    requires Formed(m, sb) && i in m.inodes
    ensures var u := m.(inodes := Linked(m.inodes, i, links));
            Formed(u, sb) && TreeOf(u) == SetLinks(TreeOf(m), i, links)
  {
    var u := m.(inodes := Linked(m.inodes, i, links));
    forall d: nat ensures DirFormed(u, sb, d) { assert DirFormed(m, sb, d); }
    assert DirFormed(m, sb, i);
  }

  /** Editing the blocks of one directory edits its entries. */
  lemma EditedTree(m: Mounted, sb: Super, d: nat, blocks: seq<B.Block>)
    requires Formed(m, sb) && d in m.blocks && Dir(blocks) && Sized(blocks, sb.blockSize)
    ensures var u := m.(blocks := m.blocks[d := blocks]);
            && Formed(u, sb) && d in m.inodes
            && TreeOf(u) == TreeOf(m)[d := TreeOf(m)[d].(entries := DirMap(blocks))]
  {
    var u := m.(blocks := m.blocks[d := blocks]);
    assert DirFormed(m, sb, d);
    forall e: nat ensures DirFormed(u, sb, e) { assert DirFormed(m, sb, e); }
  }

  lemma PutTree(m: Mounted, sb: Super, d: nat, n: Name, i: nat, kind: Kind)
    requires Formed(m, sb) && d in m.inodes && n !in NodeOf(m, d).entries && 0 < i < U32 && IsName(n)
    ensures var u := m.(blocks := Put(m.blocks, sb, d, n, i, kind));
            Formed(u, sb) && TreeOf(u) == AddEntry(TreeOf(m), d, n, i)
  {
    assert DirFormed(m, sb, d);
    if d in m.blocks {
      WithEntryAdds(m.blocks[d], sb.blockSize, i, FileType(kind), n);
      EditsKeepSize(m.blocks[d], 0, sb.blockSize, i, FileType(kind), n);
      EditedTree(m, sb, d, WithEntry(m.blocks[d], sb.blockSize, i, FileType(kind), n));
    }
  }

  lemma CutTree(m: Mounted, sb: Super, d: nat, n: Name)
    requires Formed(m, sb) && d in m.inodes && n in NodeOf(m, d).entries
    ensures IsName(n) && d in m.blocks
    ensures var u := m.(blocks := Cut(m.blocks, d, n));
            Formed(u, sb) && TreeOf(u) == DropEntry(TreeOf(m), d, n)
  {
    assert DirFormed(m, sb, d);
    WithoutEntryDrops(m.blocks[d], 0, n);
    EditsKeepSize(m.blocks[d], 0, sb.blockSize, 0, 1, n);
    EditedTree(m, sb, d, WithoutEntry(m.blocks[d], 0, n));
  }

  // ----- what each operation leaves stored

  ghost function NewFile(m: Mounted, sb: Super, p: nat, n: Name, i: nat, kind: Kind): Mounted
    requires SuperOk(sb) && i < U32 && IsName(n)
  {
    Mounted(m.inodes[i := Stat(kind, 1)], Put(m.blocks, sb, p, n, i, kind))
  }

  ghost function NewDir(m: Mounted, sb: Super, p: nat, n: Name, i: nat): Mounted
    requires SuperOk(sb) && i < U32 && p < U32 && IsName(n) && p in m.inodes
  {
    var blocks := m.blocks[i := [B.Dots(sb.blockSize, i, p, FileType(Directory))]];
    Mounted(Linked(m.inodes[i := Stat(Directory, 2)], p, (m.inodes[p].links + 1) % LINK_WORD),
            Put(blocks, sb, p, n, i, Directory))
  }

  ghost function NewLink(m: Mounted, sb: Super, q: nat, n: Name, i: nat): Mounted
    requires SuperOk(sb) && i < U32 && IsName(n) && i in m.inodes
  {
    Mounted(Linked(m.inodes, i, (m.inodes[i].links + 1) % LINK_WORD), Put(m.blocks, sb, q, n, i, m.inodes[i].kind))
  }

  ghost function Unlinked(m: Mounted, p: nat, n: Name, i: nat): Mounted
    requires IsName(n) && i in m.inodes
  {
    Mounted(if m.inodes[i].links <= 1 then m.inodes - {i} else Linked(m.inodes, i, m.inodes[i].links - 1),
            Cut(m.blocks, p, n))
  }

  ghost function WithoutDir(m: Mounted, sb: Super, p: nat, n: Name, c: nat): Mounted
    requires IsName(n) && p in m.inodes
  {
    var inodes := Linked(m.inodes, p, if m.inodes[p].links > 0 then m.inodes[p].links - 1 else 0);
    var blocks := Cut(m.blocks, p, n);
    if c < sb.firstIno then Mounted(inodes, blocks) else Mounted(inodes - {c}, blocks - {c})
  }

  /** Within one directory the old name is removed through the older copy of the inode. */
  ghost function Moved(m: Mounted, sb: Super, p: nat, n: Name, i: nat, q: nat, to: Name): Mounted
    requires SuperOk(sb) && i < U32 && IsName(n) && IsName(to) && i in m.inodes
  {
    var kind := m.inodes[i].kind;
    m.(blocks := if p == q && p in m.blocks
                 then m.blocks[p := RenamedEntry(m.blocks[p], sb.blockSize, i, FileType(kind), n, to)]
                 else Cut(Put(m.blocks, sb, q, to, i, kind), p, n))
  }

  lemma NewInode(m: Mounted, sb: Super, i: nat, kind: Kind)
    requires Formed(m, sb) && i !in m.inodes && 0 < i <= sb.total && kind != Directory
    ensures var u := m.(inodes := m.inodes[i := Stat(kind, 1)]);
            Formed(u, sb) && TreeOf(u) == TreeOf(m)[i := Node(kind, 1, map[])]
  {
    var u := m.(inodes := m.inodes[i := Stat(kind, 1)]);
    forall d: nat ensures DirFormed(u, sb, d) { assert DirFormed(m, sb, d); }
    assert DirFormed(m, sb, i);
  }

  lemma NewFileTree(m: Mounted, sb: Super, p: nat, n: Name, i: nat, kind: Kind)
    requires Formed(m, sb) && Fresh(TreeOf(m), p, n, i) && 0 < i <= sb.total && IsName(n) && kind != Directory
    ensures var u := NewFile(m, sb, p, n, i, kind);
            Formed(u, sb) && TreeOf(u) == Create(TreeOf(m), p, n, i, kind)
  {
    NewInode(m, sb, i, kind);
    var w := m.(inodes := m.inodes[i := Stat(kind, 1)]);
    assert NodeOf(w, p) == TreeOf(w)[p] == TreeOf(m)[p];
    PutTree(w, sb, p, n, i, kind);
  }

  lemma NewDirInode(m: Mounted, sb: Super, i: nat, p: nat)
    requires Formed(m, sb) && i !in m.inodes && 0 < i <= sb.total && p in m.inodes
    ensures var u := Mounted(m.inodes[i := Stat(Directory, 2)],
                             m.blocks[i := [B.Dots(sb.blockSize, i, p, FileType(Directory))]]);
            Formed(u, sb) && TreeOf(u) == TreeOf(m)[i := Parented(i, p)]
  {
    var g := B.Dots(sb.blockSize, i, p, FileType(Directory));
    var u := Mounted(m.inodes[i := Stat(Directory, 2)], m.blocks[i := [g]]);
    B.DotsLists(sb.blockSize, i, p, FileType(Directory));
    DotsMap(g, i, p, FileType(Directory));
    forall d: nat ensures DirFormed(u, sb, d) { assert DirFormed(m, sb, d); }
  }

  lemma NewDirTree(m: Mounted, sb: Super, p: nat, n: Name, i: nat)
    requires Formed(m, sb) && Fresh(TreeOf(m), p, n, i) && 0 < i <= sb.total && IsName(n)
    ensures p < U32
    ensures var u := NewDir(m, sb, p, n, i);
            Formed(u, sb) && TreeOf(u) == Mkdir(TreeOf(m), p, n, i)
  {
    hide Dir, DirMap, Sized, B.Dots, WithEntry;
    NewDirInode(m, sb, i, p);
    var w := Mounted(m.inodes[i := Stat(Directory, 2)],
                     m.blocks[i := [B.Dots(sb.blockSize, i, p, FileType(Directory))]]);
    assert NodeOf(w, p) == TreeOf(w)[p] == TreeOf(m)[p];
    PutTree(w, sb, p, n, i, Directory);
    var x := w.(blocks := Put(w.blocks, sb, p, n, i, Directory));
    assert x.inodes[p].links == TreeOf(x)[p].links;
    LinkedTree(x, sb, p, (x.inodes[p].links + 1) % LINK_WORD);
  }

  lemma NewLinkTree(m: Mounted, sb: Super, q: nat, n: Name, i: nat)
    requires Formed(m, sb) && q in m.inodes && n !in NodeOf(m, q).entries && i in m.inodes && IsName(n)
    ensures var u := NewLink(m, sb, q, n, i);
            Formed(u, sb) && TreeOf(u) == Link(TreeOf(m), q, n, i)
  {
    PutTree(m, sb, q, n, i, m.inodes[i].kind);
    var x := m.(blocks := Put(m.blocks, sb, q, n, i, m.inodes[i].kind));
    assert x.inodes[i].links == TreeOf(x)[i].links;
    LinkedTree(x, sb, i, (x.inodes[i].links + 1) % LINK_WORD);
  }

  /** Freeing an inode, with the blocks it has if it is a directory. */
  lemma FreedTree(m: Mounted, sb: Super, i: nat)
    requires Formed(m, sb)
    ensures var u := Mounted(m.inodes - {i}, m.blocks - {i});
            Formed(u, sb) && TreeOf(u) == TreeOf(m) - {i}
  {
    var u := Mounted(m.inodes - {i}, m.blocks - {i});
    forall d: nat ensures DirFormed(u, sb, d) { assert DirFormed(m, sb, d); }
  }

  lemma UnlinkedTree(m: Mounted, sb: Super, p: nat, n: Name, i: nat)
    requires Formed(m, sb) && NamesAs(TreeOf(m), p, n, i) && i in m.inodes && m.inodes[i].kind != Directory
    ensures IsName(n)
    ensures var u := Unlinked(m, p, n, i);
            Formed(u, sb) && TreeOf(u) == Remove(TreeOf(m), p, n)
  {
    CutTree(m, sb, p, n);
    var x := m.(blocks := Cut(m.blocks, p, n));
    assert TreeOf(x)[i].links == m.inodes[i].links;
    if m.inodes[i].links <= 1 {
      FreedTree(x, sb, i);
      assert DirFormed(x, sb, i);
      assert x.blocks - {i} == x.blocks;
    } else {
      LinkedTree(x, sb, i, m.inodes[i].links - 1);
    }
  }

  lemma WithoutDirTree(m: Mounted, sb: Super, p: nat, n: Name, c: nat)
    requires Formed(m, sb) && NamesAs(TreeOf(m), p, n, c)
    ensures IsName(n)
    ensures var u := WithoutDir(m, sb, p, n, c);
            Formed(u, sb) && TreeOf(u) == Rmdir(TreeOf(m), p, n, sb.firstIno)
  {
    CutTree(m, sb, p, n);
    var x := m.(blocks := Cut(m.blocks, p, n));
    assert TreeOf(x)[p].links == m.inodes[p].links;
    var links := if m.inodes[p].links > 0 then m.inodes[p].links - 1 else 0;
    LinkedTree(x, sb, p, links);
    FreedTree(x.(inodes := Linked(x.inodes, p, links)), sb, c);
  }

  lemma MovedWithin(m: Mounted, sb: Super, p: nat, n: Name, i: nat, to: Name)
    requires Formed(m, sb) && NamesAs(TreeOf(m), p, n, i) && i in m.inodes
    requires to !in NodeOf(m, p).entries && IsName(to)
    ensures IsName(n) && p in m.blocks
    ensures var u := Moved(m, sb, p, n, i, p, to);
            && Formed(u, sb)
            && TreeOf(u) == Rename(TreeOf(m), p, n, p, to, !Full(m, p, to))
  {
    hide WithoutEntry, Packed;
    assert DirFormed(m, sb, p) && DirFormed(m, sb, i);
    var kind := FileType(m.inodes[i].kind);
    var added := WithEntry(m.blocks[p], sb.blockSize, i, kind, to);
    RenamedEntryMap(m.blocks[p], sb.blockSize, i, kind, n, to);
    EditsKeepSize(m.blocks[p], 0, sb.blockSize, i, kind, to);
    EditsKeepSize(added[..|m.blocks[p]|], 0, sb.blockSize, i, kind, n);
    EditedTree(m, sb, p, RenamedEntry(m.blocks[p], sb.blockSize, i, kind, n, to));
  }

  /** The rename of the tree, whose `fits` is what the blocks say. */
  lemma MovedTree(m: Mounted, sb: Super, p: nat, n: Name, i: nat, q: nat, to: Name)
    requires Formed(m, sb) && NamesAs(TreeOf(m), p, n, i) && i in m.inodes
    requires q in m.inodes && to !in NodeOf(m, q).entries && IsName(to)
    ensures IsName(n)
    ensures var u := Moved(m, sb, p, n, i, q, to);
            && Formed(u, sb)
            && TreeOf(u) == Rename(TreeOf(m), p, n, q, to, !(q in m.blocks && Full(m, q, to)))
  {
    assert DirFormed(m, sb, p);
    var kind := m.inodes[i].kind;
    if p == q {
      MovedWithin(m, sb, p, n, i, to);
    } else {
      PutTree(m, sb, q, to, i, kind);
      var x := m.(blocks := Put(m.blocks, sb, q, to, i, kind));
      assert NodeOf(x, p) == TreeOf(x)[p] == TreeOf(m)[p];
      CutTree(x, sb, p, n);
    }
  }

  // ----- one operation on the stored state

  lemma RoomIsName(m: Mounted, path: Path, spare: Spare, checked: bool)
    requires Vacant(TreeOf(m), path, checked).At? && !RoomFor(m, path, spare).Refused?
    ensures IsName(Vacant(TreeOf(m), path, checked).name)
  {}

  ghost predicate Sane(m: Mounted, sb: Super) { Formed(m, sb) && Good(TreeOf(m), sb) }

  /** The stored state after an operation. */
  ghost function After(m: Mounted, sb: Super, op: Op<Spare>): Mounted
    requires Sane(m, sb)
  {
    var t := TreeOf(m);
    if Refuses(t, sb, Roomed(m, op)) then m
    else
      match op
      case OpCreate(path, spare) =>
        var v := Vacant(t, path, true);
        RoomIsName(m, path, spare, true);
        NewFile(m, sb, v.dir, v.name, Free(t, sb), Regular)
      case OpSymlink(path, target, spare) =>
        var v := Vacant(t, path, false);
        RoomIsName(m, path, spare, false);
        NewFile(m, sb, v.dir, v.name, Free(t, sb), Symlink)
      case OpMkdir(path, spare) =>
        var v := Vacant(t, path, true);
        RoomIsName(m, path, spare, true);
        NewDir(m, sb, v.dir, v.name, Free(t, sb))
      case OpLink(from, path, spare) =>
        var v := Vacant(t, path, false);
        RoomIsName(m, path, spare, false);
        NewLink(m, sb, v.dir, v.name, Walk(t, ROOT, from).ino)
      case OpRemove(path) =>
        var e := Present(t, path);
        StoredName(m, sb, e.dir, e.name);
        Unlinked(m, e.dir, e.name, e.ino)
      case OpRmdir(path) =>
        var e := Present(t, path);
        StoredName(m, sb, e.dir, e.name);
        WithoutDir(m, sb, e.dir, e.name, e.ino)
      case OpRename(from, path, spare) =>
        var e, v := Present(t, from), Vacant(t, path, false);
        StoredName(m, sb, e.dir, e.name);
        RoomIsName(m, path, spare, false);
        Moved(m, sb, e.dir, e.name, e.ino, v.dir, v.name)
  }

  /** A name in the blocks is a name, of an inode in range. */
  lemma StoredName(m: Mounted, sb: Super, d: nat, n: Name)
    requires Sane(m, sb) && d in TreeOf(m) && n in TreeOf(m)[d].entries
    ensures IsName(n) && TreeOf(m)[d].entries[n] in m.inodes && TreeOf(m)[d].entries[n] <= sb.total
  {
    assert Edge(TreeOf(m), d, n, TreeOf(m)[d].entries[n]);
    assert DirFormed(m, sb, d);
  }

  /** The blocks and inodes left by an operation hold exactly the tree that it makes of the names. */
  lemma AfterIsStep(m: Mounted, sb: Super, op: Op<Spare>)
    requires Sane(m, sb)
    ensures Formed(After(m, sb, op), sb)
    ensures TreeOf(After(m, sb, op)) == Step(TreeOf(m), sb, Roomed(m, op)).tree
  {
    hide Formed, NodeOf, RoomFor, NewFile, NewDir, NewLink, Unlinked, WithoutDir, Moved;
    var t := TreeOf(m);
    RefusesIff(t, sb, Roomed(m, op));
    if !Refuses(t, sb, Roomed(m, op)) {
      match op {
        case OpCreate(path, spare) =>
          var v := Vacant(t, path, true);
          RoomIsName(m, path, spare, true);
          NewFileTree(m, sb, v.dir, v.name, Free(t, sb), Regular);
        case OpSymlink(path, target, spare) =>
          var v := Vacant(t, path, false);
          RoomIsName(m, path, spare, false);
          NewFileTree(m, sb, v.dir, v.name, Free(t, sb), Symlink);
        case OpMkdir(path, spare) =>
          var v := Vacant(t, path, true);
          RoomIsName(m, path, spare, true);
          NewDirTree(m, sb, v.dir, v.name, Free(t, sb));
        case OpLink(from, path, spare) => AfterLink(m, sb, from, path, spare);
        case OpRemove(path) => AfterRemove(m, sb, path);
        case OpRmdir(path) => AfterRmdir(m, sb, path);
        case OpRename(from, path, spare) => AfterRename(m, sb, from, path, spare);
      }
    }
  }

  lemma AfterLink(m: Mounted, sb: Super, from: Path, path: Path, spare: Spare)
    requires Sane(m, sb) && !Refuses(TreeOf(m), sb, Roomed(m, OpLink(from, path, spare)))
    ensures var op := OpLink(from, path, spare);
            && Formed(After(m, sb, op), sb)
            && TreeOf(After(m, sb, op)) == Step(TreeOf(m), sb, Roomed(m, op)).tree
  {
    hide Formed, RoomFor, NewLink;
    var t := TreeOf(m);
    var v := Vacant(t, path, false);
    RoomIsName(m, path, spare, false);
    NewLinkTree(m, sb, v.dir, v.name, Walk(t, ROOT, from).ino);
  }

  lemma AfterRemove(m: Mounted, sb: Super, path: Path)
    requires Sane(m, sb) && !Refuses(TreeOf(m), sb, Roomed(m, OpRemove(path)))
    ensures Formed(After(m, sb, OpRemove(path)), sb)
    ensures TreeOf(After(m, sb, OpRemove(path))) == Step(TreeOf(m), sb, Roomed(m, OpRemove(path))).tree
  {
    hide Formed, Unlinked;
    var e := Present(TreeOf(m), path);
    StoredName(m, sb, e.dir, e.name);
    UnlinkedTree(m, sb, e.dir, e.name, e.ino);
  }

  lemma AfterRmdir(m: Mounted, sb: Super, path: Path)
    requires Sane(m, sb) && !Refuses(TreeOf(m), sb, Roomed(m, OpRmdir(path)))
    ensures Formed(After(m, sb, OpRmdir(path)), sb)
    ensures TreeOf(After(m, sb, OpRmdir(path))) == Step(TreeOf(m), sb, Roomed(m, OpRmdir(path))).tree
  {
    hide Formed, WithoutDir;
    var e := Present(TreeOf(m), path);
    StoredName(m, sb, e.dir, e.name);
    WithoutDirTree(m, sb, e.dir, e.name, e.ino);
  }

  lemma AfterRename(m: Mounted, sb: Super, from: Path, path: Path, spare: Spare)
    requires Sane(m, sb) && !Refuses(TreeOf(m), sb, Roomed(m, OpRename(from, path, spare)))
    ensures var op := OpRename(from, path, spare);
            && Formed(After(m, sb, op), sb)
            && TreeOf(After(m, sb, op)) == Step(TreeOf(m), sb, Roomed(m, op)).tree
  {
    hide Formed, Moved, Full;
    var e, v := Present(TreeOf(m), from), Vacant(TreeOf(m), path, false);
    StoredName(m, sb, e.dir, e.name);
    RoomIsName(m, path, spare, false);
    MovedTree(m, sb, e.dir, e.name, e.ino, v.dir, v.name);
    RenamesByRoom(m, sb, e.dir, e.name, v.dir, v.name, spare);
  }

  /** In one directory a name fits exactly when the directory is not full. */
  lemma RenamesByRoom(m: Mounted, sb: Super, p: nat, n: Name, q: nat, to: Name, spare: Spare)
    requires Sane(m, sb) && p in m.inodes && q in m.inodes && n in TreeOf(m)[p].entries
    requires !RoomAt(m, q, to, spare).Refused?
    ensures Rename(TreeOf(m), p, n, q, to, !(q in m.blocks && Full(m, q, to))) ==
            Rename(TreeOf(m), p, n, q, to, RoomAt(m, q, to, spare) == Fits)
  {
    StoredName(m, sb, p, n);
    assert DirFormed(m, sb, p);
  }

  // ----- when the stored state stays consistent

  /** A rename to another directory, or within one that is not full. */
  ghost predicate SafeMove(m: Mounted, from: Path, path: Path) {
    var source, target := Locate(TreeOf(m), from), Locate(TreeOf(m), path);
    && source.At? && target.At? && !Dots(source.name) && target.dir in m.blocks
    && (source.dir == target.dir ==> !Full(m, target.dir, target.name))
  }

  /** What a caller can look at in the tree and the blocks before an operation that goes through. */
  ghost predicate SafeHere(m: Mounted, op: Op<Spare>) {
    match op
    case OpRename(from, path, _) => SafeMove(m, from, path)
    case _ => Safe(TreeOf(m), Roomed(m, op))
  }

  lemma SafeMoveIff(m: Mounted, sb: Super, from: Path, path: Path, spare: Spare)
    requires Sane(m, sb) && !Refuses(TreeOf(m), sb, Roomed(m, OpRename(from, path, spare)))
    ensures SafeMove(m, from, path) <==> Safe(TreeOf(m), Roomed(m, OpRename(from, path, spare)))
  {
    var v := Vacant(TreeOf(m), path, false);
    assert DirFormed(m, sb, v.dir);
  }

  /** One operation keeps the stored state consistent exactly when a guard refuses it or it is safe. */
  lemma SaneIff(m: Mounted, sb: Super, op: Op<Spare>)
    requires Sane(m, sb)
    ensures Sane(After(m, sb, op), sb) <==> Refuses(TreeOf(m), sb, Roomed(m, op)) || SafeHere(m, op)
  {
    hide Formed, SafeMove, After, RoomFor;
    AfterIsStep(m, sb, op);
    StepSafeIff(TreeOf(m), sb, Roomed(m, op));
    if op.OpRename? && !Refuses(TreeOf(m), sb, Roomed(m, op)) { SafeMoveIff(m, sb, op.from, op.path, op.room); }
  }

  ghost predicate RunSane(m: Mounted, sb: Super, ops: seq<Op<Spare>>)
    decreases |ops|
  {
    Sane(m, sb) && (ops == [] || RunSane(After(m, sb, ops[0]), sb, ops[1..]))
  }

  /** Every operation of the run is refused by a guard or safe where it comes. */
  ghost predicate RunSafeHere(m: Mounted, sb: Super, ops: seq<Op<Spare>>)
    requires Sane(m, sb)
    decreases |ops|
  {
    ops == [] ||
    var u := After(m, sb, ops[0]);
    && (Refuses(TreeOf(m), sb, Roomed(m, ops[0])) || SafeHere(m, ops[0]))
    && (Sane(u, sb) ==> RunSafeHere(u, sb, ops[1..]))
  }

  /** Along any run the inodes and blocks hold a consistent tree exactly when each operation is
      refused or safe, and all that counts of the blocks is whether a directory renamed within is
      full. */
  lemma {:induction false} RunSaneIff(m: Mounted, sb: Super, ops: seq<Op<Spare>>)
    requires Sane(m, sb)
    ensures RunSane(m, sb, ops) <==> RunSafeHere(m, sb, ops)
    decreases |ops|
  {
    if ops != [] {
      var u := After(m, sb, ops[0]);
      SaneIff(m, sb, ops[0]);
      if Sane(u, sb) { RunSaneIff(u, sb, ops[1..]); }
    }
  }

  /** The tree along a run is that of the tree operations, with the room that the blocks had. */
  ghost function RoomedAll(m: Mounted, sb: Super, ops: seq<Op<Spare>>): seq<Op<Room>>
    decreases |ops|
  {
    if ops == [] || !Sane(m, sb) then []
    else [Roomed(m, ops[0])] + RoomedAll(After(m, sb, ops[0]), sb, ops[1..])
  }

  lemma {:induction false} RunIsTreeRun(m: Mounted, sb: Super, ops: seq<Op<Spare>>)
    requires RunSane(m, sb, ops)
    ensures RunGood(TreeOf(m), sb, RoomedAll(m, sb, ops))
    decreases |ops|
  {
    if ops != [] {
      AfterIsStep(m, sb, ops[0]);
      RunIsTreeRun(After(m, sb, ops[0]), sb, ops[1..]);
      assert RoomedAll(m, sb, ops)[1..] == RoomedAll(After(m, sb, ops[0]), sb, ops[1..]);
    }
  }

  /** A rename within a full directory is answered as done and loses the name. */
  lemma FullLosesName(m: Mounted, sb: Super, from: Path, path: Path, spare: Spare)
    requires Sane(m, sb) && !Refuses(TreeOf(m), sb, Roomed(m, OpRename(from, path, spare)))
    requires var v := Vacant(TreeOf(m), path, false);
             Present(TreeOf(m), from).dir == v.dir && v.dir in m.blocks && Full(m, v.dir, v.name)
    ensures var t, op, e := TreeOf(m), OpRename(from, path, spare), Present(TreeOf(m), from);
            && TreeOf(After(m, sb, op)) == DropEntry(t, e.dir, e.name)
            && Step(t, sb, Roomed(m, op)).status == Ok
            && !Sane(After(m, sb, op), sb)
  {
    AfterIsStep(m, sb, OpRename(from, path, spare));
    RefusesIff(TreeOf(m), sb, Roomed(m, OpRename(from, path, spare)));
    SaneIff(m, sb, OpRename(from, path, spare));
  }

  // ----- a new volume

  function Start(sb: Super): Mounted
    requires SuperOk(sb)
  {
    Mounted(map[ROOT := Stat(Directory, 2)], map[ROOT := [B.Dots(sb.blockSize, ROOT, ROOT, 2)]])
  }

  lemma OneSized(g: B.Block, blockSize: nat)
    requires |g| == blockSize
    ensures Sized([g], blockSize)
  {}

  lemma StartSane(sb: Super)
    requires SuperOk(sb)
    ensures Sane(Start(sb), sb) && TreeOf(Start(sb)) == EMPTY
  {
    hide B.Dots, Dir, DirMap, Sized, Good;
    var m, g := Start(sb), B.Dots(sb.blockSize, ROOT, ROOT, 2);
    B.DotsLists(sb.blockSize, ROOT, ROOT, 2);
    DotsMap(g, ROOT, ROOT, FileType(Directory));
    OneSized(g, sb.blockSize);
    forall d: nat ensures DirFormed(m, sb, d) {}
    assert NodeOf(m, ROOT) == EMPTY[ROOT];
    assert TreeOf(m) == EMPTY;
    assert Formed(m, sb);
    EmptyIsGood(sb);
  }

  /** What an operation leaves and answers is what it does to the tree and its blocks. */
  ghost predicate Performed(m: Mounted, sb: Super, op: Op<Spare>, status: Status, u: Mounted)
    requires Sane(m, sb)
  {
    u == After(m, sb, op) && status == Step(TreeOf(m), sb, Roomed(m, op)).status
  }

  ghost predicate Harmless(m: Mounted, sb: Super, op: Op<Spare>) {
    Refuses(TreeOf(m), sb, Roomed(m, op)) || SafeHere(m, op)
  }

  lemma Rooted(m: Mounted, sb: Super)
    requires Sane(m, sb)
    ensures ROOT in m.inodes && ROOT in TreeOf(m) && Edges(TreeOf(m))
  {}

  lemma KnownInode(m: Mounted, sb: Super, i: nat)
    requires Sane(m, sb) && i in TreeOf(m)
    ensures i in m.inodes && m.inodes[i].kind == TreeOf(m)[i].kind && m.inodes[i].links == TreeOf(m)[i].links
    ensures 0 < i <= sb.total < U32 && NodeOf(m, i) == TreeOf(m)[i]
    ensures m.inodes[i].kind == Directory <==> i in m.blocks
  {
    assert DirFormed(m, sb, i);
  }

  /** A name that a directory lists is stored in its blocks. */
  lemma ListedName(m: Mounted, sb: Super, d: nat, n: Name, i: nat)
    requires Sane(m, sb) && NamesAs(TreeOf(m), d, n, i)
    ensures IsName(n) && d in m.blocks && d in m.inodes && i in m.inodes && 0 < i <= sb.total < U32
    ensures m.inodes[i].kind == TreeOf(m)[i].kind && m.inodes[i].links == TreeOf(m)[i].links
    ensures m.inodes[d].links == TreeOf(m)[d].links
    ensures m.blocks[d][..|m.blocks[d]|] == m.blocks[d] && Dir(m.blocks[d]) && n in DirMap(m.blocks[d])
    ensures m.inodes[i].kind == Directory <==> i in m.blocks
    ensures m.inodes[i].kind != Directory ==> sb.firstIno <= i
  {
    assert Edge(TreeOf(m), d, n, i);
    assert DirFormed(m, sb, d) && DirFormed(m, sb, i);
  }

  /** The older copy of the parent still lists the old name. */
  lemma OlderCopy(m: Mounted, sb: Super, p: nat, n: Name, i: nat, q: nat, to: Name)
    requires Sane(m, sb) && NamesAs(TreeOf(m), p, n, i) && i in m.inodes && i < U32
    requires q in m.inodes && to !in NodeOf(m, q).entries && IsName(to)
    ensures IsName(n) && p in m.blocks
    ensures var after := Put(m.blocks, sb, q, to, i, m.inodes[i].kind);
            && p in after && |m.blocks[p]| <= |after[p]| && Dir(after[p][..|m.blocks[p]|])
            && n in DirMap(after[p][..|m.blocks[p]|])
            && after[p := WithoutEntry(after[p][..|m.blocks[p]|], 0, n)] == Moved(m, sb, p, n, i, q, to).blocks
  {
    hide Good, WithoutEntry, FirstRoom, Sized, Dir, DirMap;
    ListedName(m, sb, p, n, i);
    KnownInode(m, sb, q);
    if p == q {
      var kind := FileType(m.inodes[i].kind);
      var dir := m.blocks[p];
      WithEntryAdds(dir, sb.blockSize, i, kind, to);
      if Packed(dir, |dir|, B.DirentLen(|to|)) {
        assert WithEntry(dir, sb.blockSize, i, kind, to)[..|dir|] == dir;
      } else {
        assert WithEntry(dir, sb.blockSize, i, kind, to)[..|dir|] == WithEntry(dir, sb.blockSize, i, kind, to);
      }
    }
  }

  // ----- the operations, in place

  /** The inodes and directory blocks of a mounted volume. */
  class Namespace {
    var inodes: map<nat, Stat>
    var blocks: Blocks
    const sb: Super

    ghost function Now(): Mounted
      reads this
    {
      Mounted(inodes, blocks)
    }

    ghost function Names(): Tree
      reads this
    {
      TreeOf(Now())
    }

    ghost predicate Valid()
      reads this
    {
      Sane(Now(), sb)
    }

    constructor (sb: Super)
      requires SuperOk(sb)
      ensures Valid() && Names() == EMPTY && this.sb == sb
    {
      var g := B.DotsBlock(sb.blockSize, ROOT, ROOT, 2);
      this.sb := sb;
      inodes, blocks := map[ROOT := Stat(Directory, 2)], map[ROOT := [g]];
      StartSane(sb);
    }

    /** Looks a name up in the blocks: the map's answer. */
    method FindChild(d: nat, n: Name) returns (r: Lookup)
      requires Formed(Now(), sb)
      ensures r == LookupChild(Names(), d, n)
    {
      hide Dir, DirMap, Sized;
      assert DirFormed(Now(), sb, d);
      if d !in inodes || inodes[d].kind != Directory { return Failed(InvalidArgument); }
      if !IsName(n) { return Failed(NotFound); }
      var dir := blocks[d];
      for l := 0 to |dir|
        invariant Absent(dir, l, n)
      {
        TiledAt(dir, l);
        var found, p := B.FindEntry(dir[l], n);
        if found {
          DirHas(dir, l, B.Dirent(n, B.Ino(dir[l], p), B.TypeAt(dir[l], p)));
          return Found(B.Ino(dir[l], p));
        }
        AbsentNext(dir, l, n);
      }
      DirLacks(dir, n);
      r := Failed(NotFound);
    }

    method LookupPath(path: Path) returns (r: Lookup)
      requires Formed(Now(), sb)
      ensures r == Walk(Names(), ROOT, path)
    {
      hide Formed, TreeOf;
      var current: nat, pos := ROOT, 0;
      assert path[0..] == path;
      while pos < |path|
        invariant 0 <= pos <= |path|
        invariant Walk(Names(), ROOT, path) == Walk(Names(), current, path[pos..])
      {
        var part := path[pos];
        assert path[pos..][0] == part && path[pos..][1..] == path[pos + 1..];
        if part != DOT {
          if part == DOTDOT { return Failed(NotSupported); }
          var child := FindChild(current, part);
          if child.Failed? { return child; }
          current := child.ino;
        }
        pos := pos + 1;
      }
      r := Found(current);
    }

    method SplitAndLookup(path: Path) returns (r: Target)
      requires Formed(Now(), sb)
      ensures r == Locate(Names(), path)
    {
      if path == [] { return Bad(InvalidArgument); }
      var dir := LookupPath(path[..|path| - 1]);
      r := if dir.Failed? then Bad(dir.why) else At(dir.ino, path[|path| - 1]);
    }

    /** Claims the lowest free inode. */
    method AllocateInode(kind: Kind) returns (ok: bool, i: nat)
      modifies `inodes
      ensures i == Free(old(Names()), sb) && ok == (i <= sb.total)
      ensures ok ==> i !in old(inodes)
      ensures inodes == if ok then old(inodes)[i := Stat(kind, if kind == Directory then 2 else 1)] else old(inodes)
    {
      i := 1;
      while i <= sb.total
        invariant 1 <= i <= sb.total + 1
        invariant FreeFrom(Names(), sb, 1) == FreeFrom(Names(), sb, i)
        decreases sb.total + 1 - i
      {
        if (i == ROOT || sb.firstIno <= i) && i !in inodes {
          inodes := inodes[i := Stat(kind, if kind == Directory then 2 else 1)];
          return true, i;
        }
        i := i + 1;
      }
      ok := false;
    }

    /** Reserved numbers and numbers past the last are refused. */
    method FreeInode(i: nat) returns (status: Status)
      modifies `inodes, `blocks
      ensures status == if i < sb.firstIno || i > sb.total then InvalidArgument else Ok
      ensures Now() == if status == Ok then Mounted(old(inodes) - {i}, old(blocks) - {i}) else old(Now())
    {
      if i < sb.firstIno || i > sb.total { return InvalidArgument; }
      inodes, blocks := inodes - {i}, blocks - {i};
      status := Ok;
    }

    /** Adds the entry to the first block with room, or to a new block if one can be had. */
    method AddDirent(d: nat, n: Name, c: nat, kind: Kind, spare: Spare) returns (status: Status)
      requires Formed(Now(), sb) && d in inodes && 0 < c <= sb.total
      modifies `blocks
      ensures var room := RoomAt(old(Now()), d, n, spare);
              if room.Refused? then status == room.why && blocks == old(blocks)
              else status == Ok && IsName(n) && blocks == Put(old(blocks), sb, d, n, c, kind)
    {
      hide Dir, DirMap, Sized;
      assert DirFormed(Now(), sb, d);
      if !IsName(n) { return InvalidArgument; }
      if inodes[d].kind == Directory {
        var done := AddToBlocks(d, n, c, kind);
        if done { return Ok; }
      }
      if spare.more.Denies? { return spare.more.why; }
      if inodes[d].kind == Directory {
        var g := B.FreshBlock(sb.blockSize, c, FileType(kind), n);
        blocks := blocks[d := blocks[d] + [g]];
      }
      status := Ok;
    }

    method AddToBlocks(d: nat, n: Name, c: nat, kind: Kind) returns (done: bool)
      requires Formed(Now(), sb) && d in blocks && 0 < c <= sb.total && IsName(n)
      modifies `blocks
      ensures done == !Full(old(Now()), d, n)
      ensures blocks == if done then Put(old(blocks), sb, d, n, c, kind) else old(blocks)
      ensures !done ==> FirstRoom(blocks[d], 0, B.DirentLen(|n|)) == |blocks[d]|
    {
      hide Dir, DirMap, Sized;
      assert DirFormed(Now(), sb, d);
      var dir, needed := blocks[d], B.DirentLen(|n|);
      for l := 0 to |dir|
        invariant blocks == old(blocks) && Packed(dir, l, needed)
        invariant FirstRoom(dir, 0, needed) == FirstRoom(dir, l, needed)
      {
        TiledAt(dir, l);
        var fits, g := B.InsertEntry(dir[l], c, FileType(kind), n);
        if fits {
          NotPacked(dir, l, needed);
          blocks := blocks[d := dir[l := g]];
          return true;
        }
        PackedNext(dir, l, needed);
      }
      done := false;
    }

    /** Clears the entry through a copy of the inode that knows the first `count` blocks. */
    method RemoveDirent(d: nat, n: Name, count: nat) returns (status: Status)
      requires d in blocks && count <= |blocks[d]| && Dir(blocks[d][..count]) && IsName(n)
      modifies `blocks
      ensures if n in DirMap(old(blocks)[d][..count])
              then status == Ok && blocks == old(blocks)[d := WithoutEntry(old(blocks)[d][..count], 0, n)]
              else status == NotFound && blocks == old(blocks)
    {
      hide Dir, DirMap;
      var dir := blocks[d][..count];
      for l := 0 to |dir|
        invariant blocks == old(blocks) && Absent(dir, l, n)
        invariant WithoutEntry(dir, 0, n) == WithoutEntry(dir, l, n)
      {
        TiledAt(dir, l);
        var found, p := B.FindEntry(dir[l], n);
        if found {
          DirHas(dir, l, B.Dirent(n, B.Ino(dir[l], p), B.TypeAt(dir[l], p)));
          var g := B.ClearEntry(dir[l], p);
          blocks := blocks[d := dir[l := g]];
          return Ok;
        }
        AbsentNext(dir, l, n);
      }
      DirLacks(dir, n);
      status := NotFound;
    }

    /** Does the directory hold no names but "." and ".."? */
    method DirIsEmpty(c: nat) returns (empty: bool)
      requires Formed(Now(), sb) && HasBlocks(Now(), c)
      ensures c in Names() && (empty <==> OnlyDotEntries(Names(), c))
    {
      hide Dir, DirMap, Sized;
      assert DirFormed(Now(), sb, c);
      var dir := blocks[c];
      DirDots(dir);
      DotKeys(DirMap(dir));
      for l := 0 to |dir|
        invariant DotsUpTo(dir, l)
      {
        TiledAt(dir, l);
        var only := B.OnlyDots(dir[l]);
        if !only { return false; }
        DotsNext(dir, l);
      }
      empty := true;
    }

    /** The inode is claimed before its content and its entry are stored, and given back when one of
        them cannot be. */
    method Place(p: nat, n: Name, kind: Kind, content: bool, spare: Spare) returns (status: Status)
      requires Valid() && p in inodes && n !in NodeOf(Now(), p).entries && kind != Directory
      modifies `inodes, `blocks
      ensures var m, i := old(Now()), Free(old(Names()), sb);
              var room := if content && spare.own.Denies? then Refused(spare.own.why) else RoomAt(m, p, n, spare);
              if i > sb.total then status == NoMemory && Now() == m
              else if room.Refused? then status == room.why && Now() == m
              else status == Ok && IsName(n) && Now() == NewFile(m, sb, p, n, i, kind)
    {
      hide Dir, DirMap, Sized, Packed, Consistent, Numbered;
      ghost var m := Now();
      Rooted(m, sb);
      var ok, i := AllocateInode(kind);
      if !ok { return NoMemory; }
      NewInode(m, sb, i, kind);
      assert DirFormed(m, sb, i);
      if content && spare.own.Denies? {
        status := FreeInode(i);
        assert Now() == m;
        return spare.own.why;
      }
      status := AddDirent(p, n, i, kind, spare);
      if status != Ok {
        var freed := FreeInode(i);
        assert Now() == m;
      }
    }

    method Open(path: Path, spare: Spare) returns (status: Status)
      requires Valid()
      modifies `inodes, `blocks
      ensures Performed(old(Now()), sb, OpCreate(path, spare), status, Now())
      ensures Valid()
      ensures forall i: nat :: P.Leads(old(Names()), ROOT, path, i) && i in old(inodes) ==>
                (status == Ok <==> old(inodes)[i].kind == Regular) && Now() == old(Now())
    {
      hide Formed, NodeOf, NewFile, RoomAt, Consistent, Numbered;
      ghost var m := Now();
      Rooted(m, sb);
      SaneIff(m, sb, OpCreate(path, spare));
      P.WalkMeans(Names(), ROOT, path);
      var found := LookupPath(path);
      if found.Found? {
        KnownInode(m, sb, found.ino);
        return if inodes[found.ino].kind == Regular then Ok else InvalidArgument;
      }
      if found.why != NotFound { return found.why; }
      var at := SplitAndLookup(path);
      if at.Bad? { return at.why; }
      KnownInode(m, sb, at.dir);
      if inodes[at.dir].kind != Directory { return InvalidArgument; }
      var child := FindChild(at.dir, at.name);
      if child.Found? { return AlreadyExists; }
      status := Place(at.dir, at.name, Regular, false, spare);
    }

    method SymlinkAt(target: seq<int>, path: Path, spare: Spare) returns (status: Status)
      requires Valid()
      modifies `inodes, `blocks
      ensures Performed(old(Now()), sb, OpSymlink(path, target, spare), status, Now())
      ensures Valid() <==> Harmless(old(Now()), sb, OpSymlink(path, target, spare))
    {
      hide Formed, NodeOf, NewFile, RoomAt, Consistent, Numbered;
      ghost var m := Now();
      Rooted(m, sb);
      SaneIff(m, sb, OpSymlink(path, target, spare));
      if |target| > 4096 { return InvalidArgument; }
      var at := SplitAndLookup(path);
      if at.Bad? { return at.why; }
      KnownInode(m, sb, at.dir);
      var child := FindChild(at.dir, at.name);
      if child.Found? { return AlreadyExists; }
      status := Place(at.dir, at.name, Symlink, |target| > INLINE_TARGET, spare);
    }

    method MakeDir(path: Path, spare: Spare) returns (status: Status)
      requires Valid()
      modifies `inodes, `blocks
      ensures Performed(old(Now()), sb, OpMkdir(path, spare), status, Now())
      ensures Valid() <==> Harmless(old(Now()), sb, OpMkdir(path, spare))
    {
      hide Formed, NodeOf, NewDir, RoomAt, Consistent, Numbered;
      ghost var m := Now();
      Rooted(m, sb);
      SaneIff(m, sb, OpMkdir(path, spare));
      var at := SplitAndLookup(path);
      if at.Bad? { return at.why; }
      KnownInode(m, sb, at.dir);
      if inodes[at.dir].kind != Directory { return InvalidArgument; }
      var child := FindChild(at.dir, at.name);
      if child.Found? { return AlreadyExists; }
      status := PlaceDir(at.dir, at.name, spare);
    }

    method PlaceDir(p: nat, n: Name, spare: Spare) returns (status: Status)
      requires Valid() && HasBlocks(Now(), p) && n !in NodeOf(Now(), p).entries
      modifies `inodes, `blocks
      ensures var m, i := old(Now()), Free(old(Names()), sb);
              var room := if spare.own.Denies? then Refused(spare.own.why) else RoomAt(m, p, n, spare);
              if i > sb.total then status == NoMemory && Now() == m
              else if room.Refused? then status == room.why && Now() == m
              else status == Ok && IsName(n) && p < U32 && Now() == NewDir(m, sb, p, n, i)
    {
      hide Dir, DirMap, Sized, Packed, Consistent, Numbered, B.Dots, WithEntry, B.DirentLen;
      ghost var m := Now();
      Rooted(m, sb);
      var links := inodes[p].links;
      var ok, i := AllocateInode(Directory);
      if !ok { return NoMemory; }
      assert DirFormed(m, sb, i) && DirFormed(m, sb, p);
      if spare.own.Denies? {
        status := FreeInode(i);
        assert Now() == m;
        return spare.own.why;
      }
      NewDirInode(m, sb, i, p);
      var g := B.DotsBlock(sb.blockSize, i, p, FileType(Directory));
      blocks := blocks[i := [g]];
      status := AddDirent(p, n, i, Directory, spare);
      if status != Ok {
        var freed := FreeInode(i);
        assert Now() == m;
        return;
      }
      inodes := Linked(inodes, p, (links + 1) % LINK_WORD);
    }

    method HardLink(from: Path, path: Path, spare: Spare) returns (status: Status)
      requires Valid()
      modifies `inodes, `blocks
      ensures Performed(old(Now()), sb, OpLink(from, path, spare), status, Now())
      ensures Valid() <==> Harmless(old(Now()), sb, OpLink(from, path, spare))
    {
      hide Formed, NodeOf, RoomAt, Consistent, Numbered;
      ghost var m := Now();
      Rooted(m, sb);
      SaneIff(m, sb, OpLink(from, path, spare));
      var found := LookupPath(from);
      if found.Failed? { return found.why; }
      var i := found.ino;
      KnownInode(m, sb, i);
      if inodes[i].kind == Directory { return InvalidArgument; }
      var at := SplitAndLookup(path);
      if at.Bad? { return at.why; }
      KnownInode(m, sb, at.dir);
      var child := FindChild(at.dir, at.name);
      if child.Found? { return AlreadyExists; }
      var links := inodes[i].links;
      status := AddDirent(at.dir, at.name, i, inodes[i].kind, spare);
      if status != Ok { return; }
      inodes := Linked(inodes, i, (links + 1) % LINK_WORD);
    }

    /** Unlinking never breaks the tree. */
    method RemoveFile(path: Path) returns (status: Status)
      requires Valid()
      modifies `inodes, `blocks
      ensures Performed(old(Now()), sb, OpRemove(path), status, Now())
      ensures Valid()
    {
      hide Formed, NodeOf, Consistent, Numbered, Dir, DirMap;
      ghost var m := Now();
      Rooted(m, sb);
      SaneIff(m, sb, OpRemove(path));
      var at := SplitAndLookup(path);
      if at.Bad? { return at.why; }
      var child := FindChild(at.dir, at.name);
      if child.Failed? { return child.why; }
      var i := child.ino;
      ListedName(m, sb, at.dir, at.name, i);
      if inodes[i].kind == Directory { return InvalidArgument; }
      var links := inodes[i].links;
      status := RemoveDirent(at.dir, at.name, |blocks[at.dir]|);
      if links > 0 { links := links - 1; }
      if links == 0 {
        status := FreeInode(i);
        assert blocks == Cut(m.blocks, at.dir, at.name);
      } else {
        inodes := Linked(inodes, i, links);
      }
    }

    method RemoveDir(path: Path) returns (status: Status)
      requires Valid()
      modifies `inodes, `blocks
      ensures Performed(old(Now()), sb, OpRmdir(path), status, Now())
      ensures Valid() <==> Harmless(old(Now()), sb, OpRmdir(path))
    {
      hide Formed, NodeOf, Consistent, Numbered, Dir, DirMap;
      ghost var m := Now();
      Rooted(m, sb);
      SaneIff(m, sb, OpRmdir(path));
      var at := SplitAndLookup(path);
      if at.Bad? { return at.why; }
      var child := FindChild(at.dir, at.name);
      if child.Failed? { return child.why; }
      var i := child.ino;
      ListedName(m, sb, at.dir, at.name, i);
      if inodes[i].kind != Directory { return NotFound; }
      var empty := DirIsEmpty(i);
      if !empty { return InvalidArgument; }
      var links := inodes[at.dir].links;
      status := RemoveDirent(at.dir, at.name, |blocks[at.dir]|);
      inodes := Linked(inodes, at.dir, if links > 0 then links - 1 else 0);
      status := FreeInode(i);
    }

    /** The entry goes in through one copy of the parent and out through another, read before; in
        one directory that copy has the old size. */
    method RenamePath(from: Path, path: Path, spare: Spare) returns (status: Status)
      requires Valid()
      modifies `inodes, `blocks
      ensures Performed(old(Now()), sb, OpRename(from, path, spare), status, Now())
      ensures Valid() <==> Harmless(old(Now()), sb, OpRename(from, path, spare))
    {
      hide Formed, NodeOf, Consistent, Numbered, RoomAt, Moved, SafeMove, Dir, DirMap;
      ghost var m := Now();
      Rooted(m, sb);
      SaneIff(m, sb, OpRename(from, path, spare));
      if from == [] || path == [] { return InvalidArgument; }
      var source := SplitAndLookup(from);
      var target := SplitAndLookup(path);
      if source.Bad? { return source.why; }
      if target.Bad? { return target.why; }
      var child := FindChild(source.dir, source.name);
      if child.Failed? { return child.why; }
      var existing := FindChild(target.dir, target.name);
      if existing.Found? { return AlreadyExists; }
      var i := child.ino;
      ListedName(m, sb, source.dir, source.name, i);
      KnownInode(m, sb, target.dir);
      if inodes[i].kind == Directory && source.dir != target.dir { return NotSupported; }
      status := Relocate(source.dir, source.name, i, target.dir, target.name, spare);
    }

    method Relocate(p: nat, n: Name, i: nat, q: nat, to: Name, spare: Spare) returns (status: Status)
      requires Valid() && NamesAs(Names(), p, n, i) && i in inodes && q in inodes && to !in NodeOf(Now(), q).entries
      modifies `blocks
      ensures var m, room := old(Now()), RoomAt(old(Now()), q, to, spare);
              if room.Refused? then status == room.why && Now() == m
              else status == Ok && i < U32 && IsName(n) && IsName(to) && Now() == Moved(m, sb, p, n, i, q, to)
    {
      hide RoomAt, Dir, DirMap, Good, Sized;
      ghost var m := Now();
      ListedName(m, sb, p, n, i);
      var count := |blocks[p]|;
      status := AddDirent(q, to, i, inodes[i].kind, spare);
      if status != Ok { return; }
      OlderCopy(m, sb, p, n, i, q, to);
      status := RemoveDirent(p, n, count);
    }
  }

  lemma TiledAt(dir: seq<B.Block>, l: nat)
    requires Dir(dir) && l < |dir|
    ensures B.Tiled(dir[l])
  {}

  lemma DotKeys(m: map<B.Name, nat>)
    ensures m.Keys <= {DOT, DOTDOT} <==> forall n :: n in m ==> Dots(n)
  {}
}
