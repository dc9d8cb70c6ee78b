/** The type byte that a directory record carries: along every run it tells what the inode it names is. */
module Ext4EntryTypes {
  import opened Bytes
  import opened Ext4Common
  import opened RecordChain
  import opened Ext4DirBlock
  import opened Ext4DirMap
  import N = Ext4Names
  import S = Ext4Namespace
  import opened Ext4Mount

  ghost predicate Lists(blocks: seq<Block>, e: Dirent) {
    exists l :: 0 <= l < |blocks| && e in Listing(blocks[l])
  }

  /** Every record of a directory carries the type of the inode that it names. */
  ghost predicate Typed(m: Mounted) {
    forall d: nat, e: Dirent :: d in m.blocks && Lists(m.blocks[d], e) ==>
      e.ino in m.inodes && e.fileType == FileType(m.inodes[e.ino].kind)
  }

  // ----- what an edit lists

  lemma WithEntryLists(blocks: seq<Block>, blockSize: nat, ino: nat, fileType: Byte, name: Name, e: Dirent)
    requires Dir(blocks) && 1024 <= blockSize <= 4096 && 0 < ino < U32
    requires Lists(WithEntry(blocks, blockSize, ino, fileType, name), e)
    ensures Lists(blocks, e) || e == Dirent(name, ino, fileType)
  {
    hide Listing, Tiled, NoRoom;
    var k := FirstRoom(blocks, 0, DirentLen(|name|));
    var after := WithEntry(blocks, blockSize, ino, fileType, name);
    var l :| 0 <= l < |after| && e in Listing(after[l]);
    if k < |blocks| && l == k {
      StartOf(blocks[k]);
      WithNameGains(blocks[k], 0, ino, fileType, name);
      assert e in Listing(blocks[k]) || e == Dirent(name, ino, fileType);
    } else if l == |blocks| {
      FreshLists(blockSize, ino, fileType, name);
    } else {
      assert after[l] == blocks[l];
    }
  }

  lemma StartOf(b: Block)
    requires Tiled(b)
    ensures Reaches(Read(b), |b|, 0, 0) && Tiles(Read(b), |b|, 0)
  {
    ReachesStart(Read(b), |b|);
  }

  lemma {:induction false} WithoutEntryLists(blocks: seq<Block>, l: nat, name: Name, e: Dirent)
    requires Dir(blocks) && l <= |blocks| && Lists(WithoutEntry(blocks, l, name), e)
    ensures Lists(blocks, e)
    decreases |blocks| - l
  {
    hide Listing, Tiled;
    if l < |blocks| {
      var b := blocks[l];
      var q := Position(b, 0, name);
      if q + HEADER <= |b| {
        var k :| 0 <= k < |blocks| && e in Listing(blocks[l := Cleared(b, q)][k]);
        if k == l {
          StartOf(b);
          PositionFinds(b, 0, name);
          ClearedDrops(b, q);
          assert e in Listing(b);
        }
      } else {
        WithoutEntryLists(blocks, l + 1, name, e);
      }
    }
  }

  lemma RenamedEntryLists(blocks: seq<Block>, blockSize: nat, ino: nat, fileType: Byte, from: Name, to: Name, e: Dirent)
    requires Dir(blocks) && to !in DirMap(blocks) && 1024 <= blockSize <= 4096 && 0 < ino < U32
    requires Lists(RenamedEntry(blocks, blockSize, ino, fileType, from, to), e)
    ensures Lists(blocks, e) || e == Dirent(to, ino, fileType)
  {
    hide Listing, Tiled, WithEntry, WithoutEntry, Packed;
    var added := WithEntry(blocks, blockSize, ino, fileType, to);
    WithEntryAdds(blocks, blockSize, ino, fileType, to);
    FirstBlocks(blocks, blockSize, ino, fileType, to);
    WithoutEntryLists(added[..|blocks|], 0, from, e);
    if Lists(added, e) { WithEntryLists(blocks, blockSize, ino, fileType, to, e); }
  }

  /** The blocks a directory had, after an entry was added: unchanged if it went to a new one. */
  lemma FirstBlocks(blocks: seq<Block>, blockSize: nat, ino: nat, fileType: Byte, to: Name)
    requires 1024 <= blockSize <= 4096 && ino < U32
    ensures var added := WithEntry(blocks, blockSize, ino, fileType, to);
            |added| >= |blocks| && (added[..|blocks|] == blocks || added[..|blocks|] == added)
  {}

  lemma PutLists(blocks: Blocks, sb: S.Super, d: nat, n: N.Name, i: nat, kind: N.Kind, x: nat, e: Dirent)
    requires SuperOk(sb) && 0 < i < U32 && IsName(n) && (d in blocks ==> Dir(blocks[d]))
    requires x in Put(blocks, sb, d, n, i, kind) && Lists(Put(blocks, sb, d, n, i, kind)[x], e)
    ensures x in blocks && (Lists(blocks[x], e) || e == Dirent(n, i, FileType(kind)))
  {
    hide Lists, WithEntry;
    if x == d { WithEntryLists(blocks[d], sb.blockSize, i, FileType(kind), n, e); }
  }

  lemma CutLists(blocks: Blocks, d: nat, n: N.Name, x: nat, e: Dirent)
    requires IsName(n) && (d in blocks ==> Dir(blocks[d])) && x in Ext4Mount.Cut(blocks, d, n)
    requires Lists(Ext4Mount.Cut(blocks, d, n)[x], e)
    ensures x in blocks && Lists(blocks[x], e)
  {
    hide Lists, WithoutEntry;
    if x == d { WithoutEntryLists(blocks[d], 0, n, e); }
  }

  // ----- what an operation leaves

  /** A listed entry was listed before, or tells the kind of what it names; inodes that stay keep their kind. */
  ghost predicate ComesFrom(m: Mounted, u: Mounted) {
    && (forall i :: i in m.inodes && i in u.inodes ==> u.inodes[i].kind == m.inodes[i].kind)
    && forall d: nat, e: Dirent :: d in u.blocks && Lists(u.blocks[d], e) && e.ino in u.inodes ==>
         (d in m.blocks && Lists(m.blocks[d], e)) || e.fileType == FileType(u.inodes[e.ino].kind)
  }

  lemma ListedIsLive(m: Mounted, sb: S.Super, d: nat, e: Dirent)
    requires Sane(m, sb) && d in m.blocks && Lists(m.blocks[d], e)
    ensures e.ino in m.inodes
  {
    hide Listing, Dir, DirMap;
    assert DirFormed(m, sb, d);
    var l :| 0 <= l < |m.blocks[d]| && e in Listing(m.blocks[d][l]);
    DirHas(m.blocks[d], l, e);
    assert N.NamesAs(TreeOf(m), d, e.name, e.ino);
    assert N.Edge(TreeOf(m), d, e.name, e.ino);
  }

  lemma StaysTyped(m: Mounted, u: Mounted, sb: S.Super)
    requires Typed(m) && Sane(u, sb) && ComesFrom(m, u)
    ensures Typed(u)
  {
    hide Lists, Sane, FileType;
    forall d: nat, e: Dirent | d in u.blocks && Lists(u.blocks[d], e)
      ensures e.ino in u.inodes && e.fileType == FileType(u.inodes[e.ino].kind)
    {
      ListedIsLive(u, sb, d, e);
    }
  }

  lemma PutComes(m: Mounted, u: Mounted, sb: S.Super, d: nat, n: N.Name, i: nat, kind: N.Kind)
    requires Formed(m, sb) && 0 < i < U32 && IsName(n) && i in u.inodes && u.inodes[i].kind == kind
    requires u.blocks == Put(m.blocks, sb, d, n, i, kind)
    requires forall j :: j in m.inodes && j in u.inodes ==> u.inodes[j].kind == m.inodes[j].kind
    ensures ComesFrom(m, u)
  {
    hide Lists, Put, Dir, Sized;
    assert DirFormed(m, sb, d);
    forall x: nat, e: Dirent | x in u.blocks && Lists(u.blocks[x], e) && e.ino in u.inodes
      ensures (x in m.blocks && Lists(m.blocks[x], e)) || e.fileType == FileType(u.inodes[e.ino].kind)
    {
      PutLists(m.blocks, sb, d, n, i, kind, x, e);
    }
  }

  lemma CutComes(m: Mounted, u: Mounted, sb: S.Super, d: nat, n: N.Name, gone: set<nat>)
    requires Formed(m, sb) && IsName(n) && u.blocks == Ext4Mount.Cut(m.blocks, d, n) - gone
    requires forall j :: j in m.inodes && j in u.inodes ==> u.inodes[j].kind == m.inodes[j].kind
    ensures ComesFrom(m, u)
  {
    hide Lists, Ext4Mount.Cut, Dir, Sized;
    assert DirFormed(m, sb, d);
    forall x: nat, e: Dirent | x in u.blocks && Lists(u.blocks[x], e) && e.ino in u.inodes
      ensures x in m.blocks && Lists(m.blocks[x], e)
    {
      CutLists(m.blocks, d, n, x, e);
    }
  }

  lemma DotsList(blockSize: nat, i: nat, p: nat, e: Dirent)
    requires 1024 <= blockSize <= 4096 && 0 < i < U32 && 0 < p < U32
    requires Lists([Dots(blockSize, i, p, FileType(N.Directory))], e)
    ensures e == Dirent(DOT, i, FileType(N.Directory)) || e == Dirent(DOTDOT, p, FileType(N.Directory))
  {
    DotsLists(blockSize, i, p, FileType(N.Directory));
  }

  lemma NewDirComes(m: Mounted, sb: S.Super, p: nat, n: N.Name, i: nat)
    requires Formed(m, sb) && i !in m.inodes && 0 < i <= sb.total && IsName(n) && HasBlocks(m, p)
    ensures p < U32 && ComesFrom(m, NewDir(m, sb, p, n, i))
  {
    hide Lists, Put, Dir, Sized, Dots;
    assert DirFormed(m, sb, p) && DirFormed(m, sb, i);
    var u := NewDir(m, sb, p, n, i);
    var blocks := m.blocks[i := [Dots(sb.blockSize, i, p, FileType(N.Directory))]];
    forall x: nat, e: Dirent | x in u.blocks && Lists(u.blocks[x], e) && e.ino in u.inodes
      ensures (x in m.blocks && Lists(m.blocks[x], e)) || e.fileType == FileType(u.inodes[e.ino].kind)
    {
      PutLists(blocks, sb, p, n, i, N.Directory, x, e);
      if x == i && Lists(blocks[x], e) { DotsList(sb.blockSize, i, p, e); }
    }
  }

  lemma MovedComes(m: Mounted, sb: S.Super, p: nat, n: N.Name, i: nat, q: nat, to: N.Name)
    requires Formed(m, sb) && i in m.inodes && IsName(n) && IsName(to) && (q in m.blocks ==> to !in DirMap(m.blocks[q]))
    ensures i < U32 && ComesFrom(m, Moved(m, sb, p, n, i, q, to))
  {
    hide Lists, Put, Ext4Mount.Cut, Dir, DirMap, Sized, RenamedEntry;
    assert DirFormed(m, sb, p) && DirFormed(m, sb, q) && DirFormed(m, sb, i);
    var u, kind := Moved(m, sb, p, n, i, q, to), m.inodes[i].kind;
    forall x: nat, e: Dirent | x in u.blocks && Lists(u.blocks[x], e) && e.ino in u.inodes
      ensures (x in m.blocks && Lists(m.blocks[x], e)) || e.fileType == FileType(u.inodes[e.ino].kind)
    {
      if p == q && p in m.blocks {
        if x == p { RenamedEntryLists(m.blocks[p], sb.blockSize, i, FileType(kind), n, to, e); }
      } else {
        var added := Put(m.blocks, sb, q, to, i, kind);
        PutKeepsOthers(m.blocks, sb, q, to, i, kind, p);
        CutLists(added, p, n, x, e);
        PutLists(m.blocks, sb, q, to, i, kind, x, e);
      }
    }
  }

  lemma PutKeepsOthers(blocks: Blocks, sb: S.Super, d: nat, n: N.Name, i: nat, kind: N.Kind, x: nat)
    requires SuperOk(sb) && 0 < i < U32 && IsName(n) && (x != d || d !in blocks)
    ensures var added := Put(blocks, sb, d, n, i, kind);
            (x in added <==> x in blocks) && (x in added ==> added[x] == blocks[x])
  {}

  // ----- along runs

  /** An operation that leaves the stored state consistent leaves the types right. */
  lemma AfterTyped(m: Mounted, sb: S.Super, op: S.Op<Spare>)
    requires Sane(m, sb) && Typed(m) && Sane(After(m, sb, op), sb)
    ensures Typed(After(m, sb, op))
  {
    hide Typed, ComesFrom, Formed, RoomFor, NewFile, NewDir, NewLink, Unlinked, WithoutDir, Moved;
    var t, u := TreeOf(m), After(m, sb, op);
    if !S.Refuses(t, sb, Roomed(m, op)) {
      AfterComes(m, sb, op);
      StaysTyped(m, u, sb);
    }
  }

  lemma AfterComes(m: Mounted, sb: S.Super, op: S.Op<Spare>)
    requires Sane(m, sb) && !S.Refuses(TreeOf(m), sb, Roomed(m, op))
    ensures ComesFrom(m, After(m, sb, op))
  {
    hide ComesFrom, Put, Ext4Mount.Cut, DirMap, Dir, Sized;
    var t := TreeOf(m);
    match op {
      case OpCreate(path, spare) =>
        var v, i := S.Vacant(t, path, true), S.Free(t, sb);
        RoomIsName(m, path, spare, true);
        PutComes(m, NewFile(m, sb, v.dir, v.name, i, N.Regular), sb, v.dir, v.name, i, N.Regular);
      case OpSymlink(path, target, spare) =>
        var v, i := S.Vacant(t, path, false), S.Free(t, sb);
        RoomIsName(m, path, spare, false);
        PutComes(m, NewFile(m, sb, v.dir, v.name, i, N.Symlink), sb, v.dir, v.name, i, N.Symlink);
      case OpMkdir(path, spare) =>
        var v, i := S.Vacant(t, path, true), S.Free(t, sb);
        RoomIsName(m, path, spare, true);
        NewDirComes(m, sb, v.dir, v.name, i);
      case OpLink(from, path, spare) =>
        var v, i := S.Vacant(t, path, false), S.Walk(t, N.ROOT, from).ino;
        RoomIsName(m, path, spare, false);
        PutComes(m, NewLink(m, sb, v.dir, v.name, i), sb, v.dir, v.name, i, m.inodes[i].kind);
      case OpRemove(path) =>
        var e := S.Present(t, path);
        StoredName(m, sb, e.dir, e.name);
        CutComes(m, Unlinked(m, e.dir, e.name, e.ino), sb, e.dir, e.name, {});
      case OpRmdir(path) =>
        var e := S.Present(t, path);
        StoredName(m, sb, e.dir, e.name);
        var gone := if e.ino < sb.firstIno then {} else {e.ino};
        CutComes(m, WithoutDir(m, sb, e.dir, e.name, e.ino), sb, e.dir, e.name, gone);
      case OpRename(from, path, spare) =>
        var e, v := S.Present(t, from), S.Vacant(t, path, false);
        StoredName(m, sb, e.dir, e.name);
        RoomIsName(m, path, spare, false);
        MovedComes(m, sb, e.dir, e.name, e.ino, v.dir, v.name);
    }
  }

  lemma StartTyped(sb: S.Super)
    requires SuperOk(sb)
    ensures Typed(Start(sb))
  {
    forall e: Dirent | Lists(Start(sb).blocks[N.ROOT], e)
      ensures e.ino == N.ROOT && e.fileType == FileType(N.Directory)
    {
      DotsList(sb.blockSize, N.ROOT, N.ROOT, e);
    }
  }

  ghost predicate RunTyped(m: Mounted, sb: S.Super, ops: seq<S.Op<Spare>>)
    requires RunSane(m, sb, ops)
    decreases |ops|
  {
    Typed(m) && (ops == [] || RunTyped(After(m, sb, ops[0]), sb, ops[1..]))
  }

  /** Along every run that stays consistent each record tells the kind of the inode that it names. */
  lemma {:induction false} TypesTell(m: Mounted, sb: S.Super, ops: seq<S.Op<Spare>>)
    requires RunSane(m, sb, ops) && Typed(m)
    ensures RunTyped(m, sb, ops)
    decreases |ops|
  {
    hide Typed, After, Sane;
    if ops != [] {
      AfterTyped(m, sb, ops[0]);
      TypesTell(After(m, sb, ops[0]), sb, ops[1..]);
    }
  }

  /** So they do from a new volume on. */
  lemma TypesTellFromNew(sb: S.Super, ops: seq<S.Op<Spare>>)
    requires SuperOk(sb) && RunSane(Start(sb), sb, ops)
    ensures RunTyped(Start(sb), sb, ops)
  {
    StartTyped(sb);
    TypesTell(Start(sb), sb, ops);
  }

  /** 1 is a file, 2 a directory and 7 a symlink. */
  lemma TypeCodes()
    ensures FileType(N.Regular) == 1 && FileType(N.Directory) == 2 && FileType(N.Symlink) == 7
  {}
}
