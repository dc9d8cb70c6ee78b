/** A directory inode as a map from names to inode numbers. */
module Ext4Directory {
  import opened Arithmetic
  import opened Bytes
  import opened RecordChain
  import opened Ext4Common
  import opened Ext4Volume
  import opened Ext4Extents
  import opened Ext4Space
  import opened Ext4File
  import opened Ext4Handle
  import opened Ext4DirBlock
  import opened Ext4DirMap

  // ----- a directory on the volume

  /** The blocks of a directory, as its file content. */
  ghost function DirBlocks(geo: Geometry, d: Disk, dir: Inode): (r: seq<Block>)
    requires Live(geo, d)
    ensures |r| == dir.size / geo.blockSize
  {
    seq(dir.size / geo.blockSize, l requires 0 <= l => Window(geo, d, dir.extents, l * geo.blockSize, geo.blockSize))
  }

  /** A directory inode of whole blocks that make a directory. */
  ghost predicate DirOk(geo: Geometry, d: Disk, dir: Inode)
    requires Live(geo, d)
  {
    && dir.kind == Directory && dir.size % geo.blockSize == 0 && dir.size > 0
    && dir.size + geo.blockSize <= FileLimit(geo) && Dir(DirBlocks(geo, d, dir))
  }

  /** What the directory says. */
  ghost function Names(geo: Geometry, d: Disk, dir: Inode): map<Name, nat>
    requires Live(geo, d)
  {
    DirMap(DirBlocks(geo, d, dir))
  }

  lemma BlockStart(bs: nat, l: nat)
    requires bs > 0
    ensures l * bs / bs == l && l * bs % bs == 0
  {
    DivUnique(l, 0, bs);
  }

  lemma BlocksApart(bs: nat, k: nat, l: nat, j: nat)
    requires bs > 0 && j < bs
    ensures l * bs <= k * bs + j < l * bs + bs <==> k == l
  {
    if k < l { MulStep(k, l, bs); }
    if l < k { MulStep(l, k, bs); }
  }

  /** Storing a whole block replaces that block of the file and no other. */
  lemma WindowsAfter(geo: Geometry, d: Disk, es: seq<Extent>, d': Disk, es': seq<Extent>, l: nat, g: Block, k: nat)
    requires Live(geo, d) && Live(geo, d') && |g| == geo.blockSize
    requires Shows(geo, d, es, d', es', l * geo.blockSize, g)
    ensures Window(geo, d', es', k * geo.blockSize, geo.blockSize) ==
            if k == l then g else Window(geo, d, es, k * geo.blockSize, geo.blockSize)
  {
    var bs := geo.blockSize;
    var w := Window(geo, d', es', k * bs, bs);
    forall j | 0 <= j < bs
      ensures w[j] == if k == l then g[j] else Window(geo, d, es, k * bs, bs)[j]
    {
      BlocksApart(bs, k, l, j);
      assert w[j] == ByteAt(geo, d', es', k * bs + j);
    }
  }

  lemma ZerosNotTiled(n: nat)
    requires n > 0
    ensures !Tiled(Zeros(n))
  {
    var b := Zeros(n);
    assert Read(b)(0) == RecordAt(b, 0);
    if HEADER <= n { assert b[4..6] == [0, 0]; }
  }

  /** A tiled block is mapped, and reading it yields the window. */
  lemma TiledIsMapped(geo: Geometry, d: Disk, ino: nat, dir: Inode, l: nat)
    requires Live(geo, d) && Owns(geo, d, ino, dir)
    requires Tiled(Window(geo, d, dir.extents, l * geo.blockSize, geo.blockSize))
    ensures var p := Phys(dir.extents, l);
            0 < p < geo.total && d.blocks[p] == Window(geo, d, dir.extents, l * geo.blockSize, geo.blockSize)
  {
    var p := Phys(dir.extents, l);
    BlockStart(geo.blockSize, l);
    if p != 0 { assert InUse(geo, d, p); }
    BlockWindow(geo, d, dir.extents, l * geo.blockSize, geo.blockSize);
    if p == 0 { ZerosNotTiled(geo.blockSize); }
    assert d.blocks[p][0..0 + geo.blockSize] == d.blocks[p];
  }

  lemma BlockCount(geo: Geometry, size: nat)
    requires geo.Valid() && size % geo.blockSize == 0 && size + geo.blockSize <= FileLimit(geo)
    ensures size == size / geo.blockSize * geo.blockSize
    ensures (size + geo.blockSize - 1) / geo.blockSize == size / geo.blockSize
    ensures size / geo.blockSize + 1 < U32 && (size / geo.blockSize + 1) * geo.blockSize == size + geo.blockSize
  {
    var n, bs := size / geo.blockSize, geo.blockSize;
    RoundUp(size, bs);
    assert size == n * bs + size % bs;
    assert (n + 1) * bs == n * bs + bs;
  }

  /** Storing a whole mapped block: one block of this file is replaced, nothing else moves. */
  method StoreBlock(v: Volume, ino: nat, inode: Inode, l: nat, p: nat, g: Block)
    requires Sound(v.geo, Snap(v), v.inodes, ino, inode) && p == Phys(inode.extents, l) != 0 && |g| == v.geo.blockSize
    modifies v`blocks
    ensures Sound(v.geo, Snap(v), v.inodes, ino, inode) && Untouched(v.geo, old(Snap(v)), Snap(v), ino)
    ensures Shows(v.geo, old(Snap(v)), inode.extents, Snap(v), inode.extents, l * v.geo.blockSize, g)
  {
    ghost var d := Snap(v);
    BlockStart(v.geo.blockSize, l);
    ChunkWritten(v.geo, d, v.inodes, ino, inode, l * v.geo.blockSize, g);
    WriteBlockPart(v, p, 0, g);
    assert Snap(v) == Stored(d, p, 0, g);
  }

  /** The directory with block l replaced. */
  lemma ReplacedBlocks(geo: Geometry, d: Disk, dir: Inode, d': Disk, l: nat, g: Block)
    requires Live(geo, d) && Live(geo, d') && |g| == geo.blockSize && l < dir.size / geo.blockSize
    requires Shows(geo, d, dir.extents, d', dir.extents, l * geo.blockSize, g)
    ensures DirBlocks(geo, d', dir) == DirBlocks(geo, d, dir)[l := g]
  {
    forall k | 0 <= k < dir.size / geo.blockSize
      ensures DirBlocks(geo, d', dir)[k] == if k == l then g else DirBlocks(geo, d, dir)[k]
    {
      WindowsAfter(geo, d, dir.extents, d', dir.extents, l, g, k);
    }
  }

  /** The directory with one block more. */
  lemma AppendedBlocks(geo: Geometry, d: Disk, dir: Inode, d': Disk, next: Inode, g: Block)
    requires Live(geo, d) && Live(geo, d') && |g| == geo.blockSize
    requires dir.size % geo.blockSize == 0 && next.size == dir.size + geo.blockSize
    requires Shows(geo, d, dir.extents, d', next.extents, dir.size / geo.blockSize * geo.blockSize, g)
    ensures DirBlocks(geo, d', next) == DirBlocks(geo, d, dir) + [g] && next.size % geo.blockSize == 0
  {
    var n, bs := dir.size / geo.blockSize, geo.blockSize;
    assert next.size == (n + 1) * bs;
    DivUnique(n + 1, 0, bs);
    forall k | 0 <= k <= n
      ensures DirBlocks(geo, d', next)[k] == (DirBlocks(geo, d, dir) + [g])[k]
    {
      WindowsAfter(geo, d, dir.extents, d', next.extents, n, g, k);
    }
  }

  /** Stores the edited block and the inode: the map has gained the entry. */
  method StoreEntry(v: Volume, dirIno: nat, dir: Inode, l: nat, p: nat, g: Block, e: Dirent)
    requires Sound(v.geo, Snap(v), v.inodes, dirIno, dir) && DirOk(v.geo, Snap(v), dir)
    requires l < dir.size / v.geo.blockSize && p == Phys(dir.extents, l) != 0 && |g| == v.geo.blockSize && Tiled(g)
    requires Gained(Listing(DirBlocks(v.geo, Snap(v), dir)[l]), Listing(g), e) && e.name !in Names(v.geo, Snap(v), dir)
    modifies v`blocks, v`inodes
    ensures Sound(v.geo, Snap(v), v.inodes, dirIno, dir) && Untouched(v.geo, old(Snap(v)), Snap(v), dirIno)
    ensures DirOk(v.geo, Snap(v), dir) && Names(v.geo, Snap(v), dir) == old(Names(v.geo, Snap(v), dir))[e.name := e.ino]
    ensures DirBlocks(v.geo, Snap(v), dir) == old(DirBlocks(v.geo, Snap(v), dir))[l := g]
    ensures v.inodes == old(v.inodes)[dirIno := dir]
  {
    ghost var d := Snap(v);
    StoreBlock(v, dirIno, dir, l, p, g);
    ReplacedBlocks(v.geo, d, dir, Snap(v), l, g);
    DirGains(DirBlocks(v.geo, d, dir), l, g, e);
    WriteInode(v, dirIno, dir);
  }

  /** Tries one block of the directory: the entry goes there exactly when there is room. */
  method AddInBlock(v: Volume, dirIno: nat, dir: Inode, logical: nat, child: nat, name: Name, fileType: Byte)
    returns (done: bool)
    requires Sound(v.geo, Snap(v), v.inodes, dirIno, dir) && DirOk(v.geo, Snap(v), dir)
    requires name !in Names(v.geo, Snap(v), dir) && 0 < child < U32 && logical < dir.size / v.geo.blockSize
    modifies v`ledger, v`blocks, v`owner, v`inodes
    ensures var g := old(DirBlocks(v.geo, Snap(v), dir))[logical];
            && Tiled(g) && (done <==> !NoRoom(g, 0, DirentLen(|name|)))
            && if done
               then Sound(v.geo, Snap(v), v.inodes, dirIno, dir) && Untouched(v.geo, old(Snap(v)), Snap(v), dirIno)
                    && DirOk(v.geo, Snap(v), dir) && v.inodes == old(v.inodes)[dirIno := dir] &&
                      v.ledger == old(v.ledger)
                    && Names(v.geo, Snap(v), dir) == old(Names(v.geo, Snap(v), dir))[name := child]
                    && DirBlocks(v.geo, Snap(v), dir) ==
                       old(DirBlocks(v.geo, Snap(v), dir))[logical := WithName(g, 0, child, fileType, name)]
               else Snap(v) == old(Snap(v)) && v.inodes == old(v.inodes)
  {
    BlockCount(v.geo, dir.size);
    ghost var blocks := DirBlocks(v.geo, Snap(v), dir);
    assert Tiled(blocks[logical]);
    TiledIsMapped(v.geo, Snap(v), dirIno, dir, logical);
    var status, next, physical := EnsureInodeBlock(v, dirIno, dir, logical);
    var g;
    done, g := InsertEntry(v.blocks[physical], child, fileType, name);
    if done { StoreEntry(v, dirIno, dir, logical, physical, g, Dirent(name, child, fileType)); }
  }

  /** What adding an entry takes: nothing, or one block behind those there are. */
  ghost function Adding(geo: Geometry, b: Books, blocks: seq<Block>, name: Name): Mapping
    requires b.ledger.Balanced(geo)
  {
    if Packed(blocks, |blocks|, DirentLen(|name|)) then MapOne(geo, b, |blocks|) else Mapping(Ok, b)
  }

  /** Adds a name that is absent: the map gains just that pair, in an existing block if one has room and
      otherwise in a new block behind them.  It fails exactly when no block has room and no new one
      can be mapped. */
  method AddDirent(v: Volume, dirIno: nat, dir: Inode, child: nat, name: Name, fileType: Byte)
    returns (status: Status, next: Inode)
    requires Sound(v.geo, Snap(v), v.inodes, dirIno, dir) && DirOk(v.geo, Snap(v), dir)
    requires name !in Names(v.geo, Snap(v), dir) && 0 < child < U32 &&
             dir.size + 2 * v.geo.blockSize <= FileLimit(v.geo)
    modifies v`ledger, v`blocks, v`owner, v`inodes
    ensures Sound(v.geo, Snap(v), v.inodes, dirIno, next) && Untouched(v.geo, old(Snap(v)), Snap(v), dirIno)
    ensures DirOk(v.geo, Snap(v), next)
    ensures status == Ok ==> Names(v.geo, Snap(v), next) == old(Names(v.geo, Snap(v), dir))[name := child]
    ensures status != Ok ==> Names(v.geo, Snap(v), next) == old(Names(v.geo, Snap(v), dir)) && next == dir
    ensures v.inodes == if status == Ok then old(v.inodes)[dirIno := next] else old(v.inodes)
    ensures next == dir || next.size == dir.size + v.geo.blockSize
    ensures status == Ok && next != dir ==>
              Sound(v.geo, Snap(v), v.inodes, dirIno, dir) && DirOk(v.geo, Snap(v), dir)
              && DirBlocks(v.geo, Snap(v), dir) == old(DirBlocks(v.geo, Snap(v), dir))
    ensures var blocks := old(DirBlocks(v.geo, Snap(v), dir));
            status == Ok ==>
              && DirBlocks(v.geo, Snap(v), next) == WithEntry(blocks, v.geo.blockSize, child, fileType, name)
              && (next == dir <==> !Packed(blocks, |blocks|, DirentLen(|name|)))
    ensures Mapping(status, Books(v.ledger, next.extents)) ==
            Adding(v.geo, Books(old(v.ledger), dir.extents), old(DirBlocks(v.geo, Snap(v), dir)), name)
  {
    hide MapOne, Live, Owns, OthersOwn, Dir, DirMap, Window, FileLimit, Tiled, Listing, Untouched, Ledger.Balanced;
    next := dir;
    ghost var d := Snap(v);
    LiveGeo(v.geo, d);
    var bs := v.geo.blockSize;
    BlockCount(v.geo, dir.size);
    var logicalBlocks := (dir.size + bs - 1) / bs;
    ghost var blocks := DirBlocks(v.geo, d, dir);
    for logical := 0 to logicalBlocks
      invariant Snap(v) == d && v.inodes == old(v.inodes)
      invariant Packed(blocks, logical, DirentLen(|name|))
      invariant FirstRoom(blocks, 0, DirentLen(|name|)) == FirstRoom(blocks, logical, DirentLen(|name|))
    {
      var done := AddInBlock(v, dirIno, dir, logical, child, name, fileType);
      if done {
        NotPacked(blocks, logical, DirentLen(|name|));
        return Ok, dir;
      }
      PackedNext(blocks, logical, DirentLen(|name|));
    }
    status, next := AddDirentBlock(v, dirIno, dir, child, name, fileType);
  }

  lemma LiveGeo(geo: Geometry, d: Disk)
    requires Live(geo, d)
    ensures geo.Valid() && 1024 <= geo.blockSize <= 4096 && 2 * geo.blockSize <= FileLimit(geo)
  {}

  /** What an inode maps does not depend on its size. */
  lemma OwnsResized(geo: Geometry, d: Disk, ino: nat, inode: Inode, size: nat)
    requires Live(geo, d) && Owns(geo, d, ino, inode)
    ensures Owns(geo, d, ino, inode.(size := size))
  {}

  /** The case of a new block. */
  method AddDirentBlock(v: Volume, dirIno: nat, dir: Inode, child: nat, name: Name, fileType: Byte)
    returns (status: Status, next: Inode)
    requires Sound(v.geo, Snap(v), v.inodes, dirIno, dir) && DirOk(v.geo, Snap(v), dir)
    requires name !in Names(v.geo, Snap(v), dir) && 0 < child < U32 &&
             dir.size + 2 * v.geo.blockSize <= FileLimit(v.geo)
    modifies v`ledger, v`blocks, v`owner, v`inodes
    ensures Sound(v.geo, Snap(v), v.inodes, dirIno, next) && Untouched(v.geo, old(Snap(v)), Snap(v), dirIno)
    ensures DirOk(v.geo, Snap(v), next)
    ensures status == Ok ==>
              Names(v.geo, Snap(v), next) == old(Names(v.geo, Snap(v), dir))[name := child]
              && next.size == dir.size + v.geo.blockSize
    ensures status != Ok ==> Names(v.geo, Snap(v), next) == old(Names(v.geo, Snap(v), dir)) && next == dir
    ensures v.inodes == if status == Ok then old(v.inodes)[dirIno := next] else old(v.inodes)
    ensures status == Ok && next != dir ==>
              Sound(v.geo, Snap(v), v.inodes, dirIno, dir) && DirOk(v.geo, Snap(v), dir)
              && DirBlocks(v.geo, Snap(v), dir) == old(DirBlocks(v.geo, Snap(v), dir))
    ensures status == Ok ==> DirBlocks(v.geo, Snap(v), next) ==
                             old(DirBlocks(v.geo, Snap(v), dir)) + [Fresh(v.geo.blockSize, child, fileType, name)]
    ensures Mapping(status, Books(v.ledger, next.extents)) ==
            MapOne(v.geo, Books(old(v.ledger), dir.extents), dir.size / v.geo.blockSize)
  {
    hide MapOne, Live, Owns, Dir, DirMap, Window, FileLimit, Shows, KeepsMap, Tiled, Listing, Geometry.Valid;
    ghost var d := Snap(v);
    LiveGeo(v.geo, d);
    BlockCount(v.geo, dir.size);
    var g := FreshBlock(v.geo.blockSize, child, fileType, name);
    status, next := PutBlock(v, dirIno, dir, dir.size / v.geo.blockSize, g);
    if status != Ok {
      SameBlocks(v.geo, d, dir, Snap(v));
      return;
    }
    OwnsResized(v.geo, Snap(v), dirIno, next, (dir.size / v.geo.blockSize + 1) * v.geo.blockSize);
    next := next.(size := (dir.size / v.geo.blockSize + 1) * v.geo.blockSize);
    AppendedBlocks(v.geo, d, dir, Snap(v), next, g);
    DirGrows(DirBlocks(v.geo, d, dir), g, Dirent(name, child, fileType));
    OlderCopy(v.geo, d, dir, Snap(v), next, dirIno, g);
    WriteInode(v, dirIno, next);
    return Ok, next;
  }

  /** Maps logical block l if need be and stores a whole block there. */
  method PutBlock(v: Volume, ino: nat, inode: Inode, l: nat, g: Block) returns (status: Status, next: Inode)
    requires Sound(v.geo, Snap(v), v.inodes, ino, inode) && l + 1 < U32 && |g| == v.geo.blockSize
    modifies v`ledger, v`blocks, v`owner
    ensures Sound(v.geo, Snap(v), v.inodes, ino, next) && Untouched(v.geo, old(Snap(v)), Snap(v), ino)
    ensures next == inode.(extents := next.extents, sectors := next.sectors)
    ensures status == Ok ==> Shows(v.geo, old(Snap(v)), inode.extents, Snap(v), next.extents, l * v.geo.blockSize, g)
    ensures KeepsMap(inode.extents, next.extents, l)
    ensures status != Ok ==> next == inode && SameBytes(v.geo, old(Snap(v)), inode.extents, Snap(v), next.extents)
    ensures Mapping(status, Books(v.ledger, next.extents)) == MapOne(v.geo, Books(old(v.ledger), inode.extents), l)
  {
    hide MapOne;
    ghost var d := Snap(v);
    var physical;
    status, next, physical := EnsureInodeBlock(v, ino, inode, l);
    if status != Ok { return; }
    ghost var mid := Snap(v);
    StoreBlock(v, ino, next, l, physical, g);
    SameThenShows(v.geo, d, inode.extents, mid, Snap(v), next.extents, l * v.geo.blockSize, g);
    UntouchedTrans(v.geo, d, mid, Snap(v), ino);
  }

  /** The second list answers as the first wherever that has an answer, and everywhere but at l. */
  ghost predicate KeepsMap(es: seq<Extent>, es': seq<Extent>, l: nat) {
    forall m: nat {:trigger Phys(es, m)} {:trigger Phys(es', m)} :: m != l || Phys(es, m) != 0 ==>
      Phys(es', m) == Phys(es, m)
  }

  /** A copy of the inode made before a block was added still describes the directory as it was. */
  lemma OlderCopy(geo: Geometry, d: Disk, dir: Inode, d': Disk, next: Inode, ino: nat, g: Block)
    requires Live(geo, d) && Live(geo, d') && Owns(geo, d, ino, dir) && Owns(geo, d', ino, next) && |g| == geo.blockSize
    requires Shows(geo, d, dir.extents, d', next.extents, dir.size / geo.blockSize * geo.blockSize, g)
    requires KeepsMap(dir.extents, next.extents, dir.size / geo.blockSize)
    ensures Owns(geo, d', ino, dir) && DirBlocks(geo, d', dir) == DirBlocks(geo, d, dir)
  {
    forall m: nat | Phys(dir.extents, m) != 0
      ensures var p := Phys(dir.extents, m); InUse(geo, d', p) && p in d'.owner && d'.owner[p] == (ino, m)
    {
      assert Phys(next.extents, m) == Phys(dir.extents, m);
    }
    var n := dir.size / geo.blockSize;
    forall k | 0 <= k < n ensures DirBlocks(geo, d', dir)[k] == DirBlocks(geo, d, dir)[k] {
      WindowsAfter(geo, d, dir.extents, d', next.extents, n, g, k);
      SameWindow(geo, d', dir.extents, next.extents, k);
    }
  }

  lemma SameWindow(geo: Geometry, d: Disk, es: seq<Extent>, es': seq<Extent>, k: nat)
    requires Live(geo, d) && Phys(es, k) == Phys(es', k)
    ensures Window(geo, d, es, k * geo.blockSize, geo.blockSize) ==
            Window(geo, d, es', k * geo.blockSize, geo.blockSize)
  {
    var bs := geo.blockSize;
    var w, w' := Window(geo, d, es, k * bs, bs), Window(geo, d, es', k * bs, bs);
    forall j | 0 <= j < bs ensures w[j] == w'[j] { DivUnique(k, j, bs); }
  }

  lemma SameBlocks(geo: Geometry, d: Disk, dir: Inode, d': Disk)
    requires Live(geo, d) && Live(geo, d') && SameBytes(geo, d, dir.extents, d', dir.extents)
    ensures DirBlocks(geo, d', dir) == DirBlocks(geo, d, dir)
  {
    forall l | 0 <= l < dir.size / geo.blockSize ensures DirBlocks(geo, d', dir)[l] == DirBlocks(geo, d, dir)[l] {
      var bs := geo.blockSize;
      forall j | 0 <= j < bs ensures Window(geo, d', dir.extents, l * bs, bs)[j] ==
        Window(geo, d, dir.extents, l * bs, bs)[j] {
        assert ByteAt(geo, d', dir.extents, l * bs + j) == ByteAt(geo, d, dir.extents, l * bs + j);
      }
    }
  }

  /** Clears the record at p of the block l and stores block and inode: the map has lost the name. */
  method ClearListed(v: Volume, dirIno: nat, dir: Inode, l: nat, physical: nat, p: nat, name: Name)
    returns (removed: nat)
    requires Sound(v.geo, Snap(v), v.inodes, dirIno, dir) && DirOk(v.geo, Snap(v), dir)
    requires l < dir.size / v.geo.blockSize && physical == Phys(dir.extents, l) != 0 && physical < |v.blocks|
    requires var b := v.blocks[physical];
             && b == DirBlocks(v.geo, Snap(v), dir)[l] && |b| == v.geo.blockSize && Tiled(b)
             && Reaches(Read(b), |b|, 0, p) && RecordOk(b, p) && Ino(b, p) != 0 && NameAt(b, p) == name
    modifies v`blocks, v`inodes
    ensures Sound(v.geo, Snap(v), v.inodes, dirIno, dir) && Untouched(v.geo, old(Snap(v)), Snap(v), dirIno)
    ensures DirOk(v.geo, Snap(v), dir) && v.inodes == old(v.inodes)[dirIno := dir]
    ensures DirBlocks(v.geo, Snap(v), dir) ==
            old(DirBlocks(v.geo, Snap(v), dir))[l := Cleared(old(v.blocks[physical]), p)]
    ensures var names := old(Names(v.geo, Snap(v), dir));
            name in names && removed == names[name] && Names(v.geo, Snap(v), dir) == names - {name}
  {
    ghost var d := Snap(v);
    removed := Ino(v.blocks[physical], p);
    var g := ClearEntry(v.blocks[physical], p);
    StoreBlock(v, dirIno, dir, l, physical, g);
    ReplacedBlocks(v.geo, d, dir, Snap(v), l, g);
    DirLoses(DirBlocks(v.geo, d, dir), l, g, Dirent(name, removed, TypeAt(d.blocks[physical], p)));
    WriteInode(v, dirIno, dir);
  }

  /** Removes a name: the map loses just that pair, or the name was not there. */
  method RemoveDirent(v: Volume, dirIno: nat, dir: Inode, name: Name) returns (status: Status, removed: nat)
    requires Sound(v.geo, Snap(v), v.inodes, dirIno, dir) && DirOk(v.geo, Snap(v), dir)
    modifies v`blocks, v`inodes
    ensures Sound(v.geo, Snap(v), v.inodes, dirIno, dir) && Untouched(v.geo, old(Snap(v)), Snap(v), dirIno)
    ensures DirOk(v.geo, Snap(v), dir)
    ensures status == if name in old(Names(v.geo, Snap(v), dir)) then Ok else NotFound
    ensures status == Ok ==> removed == old(Names(v.geo, Snap(v), dir))[name]
                             && Names(v.geo, Snap(v), dir) == old(Names(v.geo, Snap(v), dir)) - {name}
                             && v.inodes == old(v.inodes)[dirIno := dir]
    ensures status == Ok ==>
              DirBlocks(v.geo, Snap(v), dir) == WithoutEntry(old(DirBlocks(v.geo, Snap(v), dir)), 0, name)
    ensures status != Ok ==> Snap(v) == old(Snap(v)) && v.inodes == old(v.inodes)
  {
    hide UniqueNames, DirMap, Position, RecordOk, Reaches, Listing, Tiled, NameAt, Ino, AllLive, Shows, FileLimit,
         WithoutEntry, Cleared, TypeAt;
    ghost var d := Snap(v);
    ghost var blocks := DirBlocks(v.geo, d, dir);
    BlockCount(v.geo, dir.size);
    for l := 0 to dir.size / v.geo.blockSize
      invariant Snap(v) == d && v.inodes == old(v.inodes) && Absent(blocks, l, name)
      invariant WithoutEntry(blocks, 0, name) == WithoutEntry(blocks, l, name)
    {
      assert Tiled(blocks[l]);
      TiledIsMapped(v.geo, d, dirIno, dir, l);
      var physical := FileBlockNumber(dir.extents, l);
      var found, p := FindEntry(v.blocks[physical], name);
      WithoutAt(blocks, l, name, p);
      if found {
        removed := ClearListed(v, dirIno, dir, l, physical, p, name);
        return Ok, removed;
      }
      AbsentNext(blocks, l, name);
    }
    DirLacks(blocks, name);
    return NotFound, 0;
  }

  /** Looks a name up: exactly the map's answer. */
  method LookupChild(v: Volume, dirIno: nat, name: Name) returns (status: Status, child: nat)
    requires dirIno < |v.inodes| && Sound(v.geo, Snap(v), v.inodes, dirIno, v.inodes[dirIno])
    requires v.inodes[dirIno].kind == Directory ==> DirOk(v.geo, Snap(v), v.inodes[dirIno])
    ensures v.inodes[dirIno].kind != Directory ==> status == InvalidArgument
    ensures v.inodes[dirIno].kind == Directory ==>
              var names := Names(v.geo, Snap(v), v.inodes[dirIno]);
              if name in names then status == Ok && child == names[name] else status == NotFound
  {
    var dir := v.inodes[dirIno];
    if dir.kind != Directory { return InvalidArgument, 0; }
    ghost var blocks := DirBlocks(v.geo, Snap(v), dir);
    var bs := v.geo.blockSize;
    BlockCount(v.geo, dir.size);
    for l := 0 to dir.size / bs
      invariant Absent(blocks, l, name)
    {
      var g := ReadDirBlock(v, dirIno, dir, l);
      var found, p := FindEntry(g, name);
      if found {
        DirHas(blocks, l, Dirent(name, Ino(g, p), TypeAt(g, p)));
        return Ok, Ino(g, p);
      }
      AbsentNext(blocks, l, name);
    }
    DirLacks(blocks, name);
    return NotFound, 0;
  }

  method ReadDirBlock(v: Volume, ghost dirIno: nat, dir: Inode, l: nat) returns (g: Block)
    requires Sound(v.geo, Snap(v), v.inodes, dirIno, dir) && DirOk(v.geo, Snap(v), dir) &&
             l < dir.size / v.geo.blockSize
    ensures g == DirBlocks(v.geo, Snap(v), dir)[l] && Tiled(g)
  {
    hide UniqueNames, AllLive, Tiled, OthersOwn;
    var bs := v.geo.blockSize;
    BlockCount(v.geo, dir.size);
    OwnedInRange(v.geo, Snap(v), dirIno, dir);
    MulStep(l, dir.size / bs, bs);
    assert l * bs + bs <= dir.size;
    WindowIsContent(v.geo, Snap(v), dir, l * bs, bs);
    g := ReadInodeData(v, dir, l * bs, bs);
    assert g == Window(v.geo, Snap(v), dir.extents, l * bs, bs);
  }

  /** Is the map without names other than "." and ".."? */
  method DirIsEmpty(v: Volume, dirIno: nat, dir: Inode) returns (empty: bool)
    requires Sound(v.geo, Snap(v), v.inodes, dirIno, dir) && DirOk(v.geo, Snap(v), dir)
    ensures empty <==> Names(v.geo, Snap(v), dir).Keys <= {DOT, DOTDOT}
  {
    ghost var d := Snap(v);
    ghost var blocks := DirBlocks(v.geo, d, dir);
    BlockCount(v.geo, dir.size);
    DirDots(blocks);
    for l := 0 to dir.size / v.geo.blockSize
      invariant DotsUpTo(blocks, l)
    {
      assert Tiled(blocks[l]);
      TiledIsMapped(v.geo, d, dirIno, dir, l);
      var physical := FileBlockNumber(dir.extents, l);
      var only := OnlyDots(v.blocks[physical]);
      if !only { return false; }
      DotsNext(blocks, l);
    }
    return true;
  }

  lemma FirstBlock(geo: Geometry, d: Disk, dir: Inode, d': Disk, next: Inode, g: Block, ino: nat, parent: nat,
          fileType: Byte)
    requires Live(geo, d) && Live(geo, d') && |g| == geo.blockSize && dir.size == 0 && next.size == geo.blockSize
    requires next.kind == Directory && Shows(geo, d, dir.extents, d', next.extents, 0, g)
    requires Tiled(g) && Listing(g) == [Dirent(DOT, ino, fileType), Dirent(DOTDOT, parent, fileType)]
    ensures DirOk(geo, d', next) && Names(geo, d', next) == map[DOT := ino, DOTDOT := parent]
  {
    hide Shows, Tiled, Listing, Window, DirMap, Dir, Ledger.Balanced;
    LiveGeo(geo, d);
    assert 0 / geo.blockSize * geo.blockSize == 0;
    AppendedBlocks(geo, d, dir, d', next, g);
    assert DirBlocks(geo, d', next) == [g];
    DotsMap(g, ino, parent, fileType);
  }

  /** The first block of a directory that has just been allocated: "." names it and ".." its parent. */
  method InitDirectory(v: Volume, ino: nat, dir: Inode, parent: nat) returns (status: Status, next: Inode)
    requires Sound(v.geo, Snap(v), v.inodes, ino, dir) && dir.kind == Directory && dir.size == 0
    requires 0 < ino < U32 && 0 < parent < U32
    modifies v`ledger, v`blocks, v`owner, v`inodes
    ensures Sound(v.geo, Snap(v), v.inodes, ino, next) && Untouched(v.geo, old(Snap(v)), Snap(v), ino)
    ensures status == Ok ==> DirOk(v.geo, Snap(v), next) && v.inodes == old(v.inodes)[ino := next]
                             && Names(v.geo, Snap(v), next) == map[DOT := ino, DOTDOT := parent]
    ensures status != Ok ==> next == dir && v.inodes == old(v.inodes)
    ensures Mapping(status, Books(v.ledger, next.extents)) == MapOne(v.geo, Books(old(v.ledger), dir.extents), 0)
  {
    hide MapOne, Live, Owns, Window, FileLimit, Shows, KeepsMap, SameBytes, Tiled, Listing, Dots, DirOk, DirMap,
         Geometry.Valid, Untouched, Ledger.Balanced;
    ghost var d := Snap(v);
    LiveGeo(v.geo, d);
    var g := DotsBlock(v.geo.blockSize, ino, parent, 2);
    status, next := PutBlock(v, ino, dir, 0, g);
    if status != Ok { return; }
    OwnsResized(v.geo, Snap(v), ino, next, v.geo.blockSize);
    next := next.(size := v.geo.blockSize);
    FirstBlock(v.geo, d, dir, Snap(v), next, g, ino, parent, 2);
    WriteInode(v, ino, next);
  }

  /** Renaming inside one directory, as the source does it: the new name goes in through one copy
      of the inode and the old name comes out through another copy, read before.  The new name is
      there afterwards if and only if it fitted a block the directory already had; otherwise the
      second copy takes the growth back, and the name is lost together with the block it went to.
      The call fails, and then changes nothing, exactly when adding the new name fails. */
  method RenameWithin(v: Volume, dirIno: nat, oldName: Name, newName: Name, fileType: Byte) returns (status: Status)
    requires dirIno < |v.inodes| && Sound(v.geo, Snap(v), v.inodes, dirIno, v.inodes[dirIno])
    requires DirOk(v.geo, Snap(v), v.inodes[dirIno]) && v.inodes[dirIno].size + 2 * v.geo.blockSize <= FileLimit(v.geo)
    requires oldName in Names(v.geo, Snap(v), v.inodes[dirIno]) && newName !in Names(v.geo, Snap(v), v.inodes[dirIno])
    requires 0 < Names(v.geo, Snap(v), v.inodes[dirIno])[oldName] < U32
    modifies v`ledger, v`blocks, v`owner, v`inodes
    ensures |v.inodes| == |old(v.inodes)| && Sound(v.geo, Snap(v), v.inodes, dirIno, v.inodes[dirIno])
    ensures DirOk(v.geo, Snap(v), v.inodes[dirIno]) && OnlyEntry(old(v.inodes), v.inodes, dirIno)
    ensures var a := Adding(v.geo, old(Books(v.ledger, v.inodes[dirIno].extents)),
                            old(DirBlocks(v.geo, Snap(v), v.inodes[dirIno])), newName);
            status == a.status && v.ledger == a.books.ledger
    ensures v.inodes[dirIno].size == old(v.inodes[dirIno].size)
    ensures var names := old(Names(v.geo, Snap(v), v.inodes[dirIno]));
            status != Ok ==> v.inodes == old(v.inodes) && Names(v.geo, Snap(v), v.inodes[dirIno]) == names
    ensures Packed(old(DirBlocks(v.geo, Snap(v), v.inodes[dirIno])), old(v.inodes[dirIno].size) / v.geo.blockSize,
                   DirentLen(|newName|)) ==>
              v.inodes[dirIno].extents == old(v.inodes[dirIno].extents)
    ensures var blocks := old(DirBlocks(v.geo, Snap(v), v.inodes[dirIno]));
            var names := old(Names(v.geo, Snap(v), v.inodes[dirIno]));
            status == Ok ==>
              && DirBlocks(v.geo, Snap(v), v.inodes[dirIno]) ==
                 RenamedEntry(blocks, v.geo.blockSize, names[oldName], fileType, oldName, newName)
              && Names(v.geo, Snap(v), v.inodes[dirIno]) ==
                 if Packed(blocks, |blocks|, DirentLen(|newName|)) then names - {oldName}
                 else names[newName := names[oldName]] - {oldName}
  {
    hide MapOne, Owns, OthersOwn, Dir, DirMap, Window, FileLimit, Shows, Tiled, Listing, Untouched, Ledger.Balanced;
    LiveGeo(v.geo, Snap(v));
    ghost var blocks := DirBlocks(v.geo, Snap(v), v.inodes[dirIno]);
    var oldParent, newParent := v.inodes[dirIno], v.inodes[dirIno];
    var child;
    status, child := LookupChild(v, dirIno, oldName);
    status, newParent := AddDirent(v, dirIno, newParent, child, newName, fileType);
    if status != Ok { return; }
    OldSize(blocks, DirBlocks(v.geo, Snap(v), oldParent), v.geo.blockSize, child, fileType, newName);
    status, child := RemoveDirent(v, dirIno, oldParent, oldName);
  }

  /** What the older copy of the inode shows once the entry is added. */
  lemma OldSize(blocks: seq<Block>, now: seq<Block>, blockSize: nat, ino: nat, fileType: Byte, name: Name)
    requires 1024 <= blockSize <= 4096 && ino < U32
    requires now == if Packed(blocks, |blocks|, DirentLen(|name|)) then blocks
                    else WithEntry(blocks, blockSize, ino, fileType, name)
    ensures now == WithEntry(blocks, blockSize, ino, fileType, name)[..|blocks|]
  {}
}
