/** File data on the volume: mapping, reading, writing and truncating one inode while every
    other inode keeps its blocks and its bytes.

    A driver routine works on a copy of the inode (the `inode` parameter, `next` on return) that
    reaches the table only through `WriteInode`, as the source does. */
module Ext4File {
  import opened Arithmetic
  import opened Bytes
  import opened Ext4Common
  import opened Ext4Volume
  import opened Ext4Extents
  import opened Ext4Space

  /** The parts of a volume that data lives in. */
  datatype Disk = Disk(ledger: Ledger, blocks: seq<seq<Byte>>, owner: map<nat, (nat, nat)>)

  ghost function Snap(v: Volume): Disk
    reads v
  {
    Disk(v.ledger, v.blocks, v.owner)
  }

  ghost predicate Live(geo: Geometry, d: Disk) {
    && d.ledger.Balanced(geo) && |d.blocks| == geo.total
    && (forall b {:trigger d.blocks[b]} :: 0 <= b < |d.blocks| ==> |d.blocks[b]| == geo.blockSize)
    && (geo.first == 0 ==> d.ledger.Used(geo, 0))
  }

  ghost predicate InUse(geo: Geometry, d: Disk, b: nat)
    requires d.ledger.Shaped(geo)
  {
    geo.first <= b < geo.total && d.ledger.Used(geo, b)
  }

  /** Every block the inode maps is in use and belongs to just this inode and logical block. */
  ghost predicate Owns(geo: Geometry, d: Disk, ino: nat, inode: Inode)
    requires d.ledger.Shaped(geo)
  {
    && Sorted(inode.extents) && inode.sectors == Mapped(inode.extents) * (geo.blockSize / 512)
    && forall l: nat {:trigger Phys(inode.extents, l)} :: Phys(inode.extents, l) != 0 ==>
         var p := Phys(inode.extents, l); InUse(geo, d, p) && p in d.owner && d.owner[p] == (ino, l)
  }

  ghost predicate OthersOwn(geo: Geometry, d: Disk, inodes: seq<Inode>, ino: nat)
    requires d.ledger.Shaped(geo)
  {
    forall j {:trigger inodes[j]} :: 0 <= j < |inodes| && j != ino ==> Owns(geo, d, j, inodes[j])
  }

  /** The volume is sound with `inode` standing in for entry `ino` of the table. */
  ghost predicate Sound(geo: Geometry, d: Disk, inodes: seq<Inode>, ino: nat, inode: Inode) {
    Live(geo, d) && Owns(geo, d, ino, inode) && OthersOwn(geo, d, inodes, ino) && ino < |inodes|
  }

  /** No physical block is mapped by two (inode, logical block) pairs. */
  lemma NoDoubleMapping(geo: Geometry, d: Disk, inodes: seq<Inode>, i: nat, l: nat, j: nat, m: nat)
    requires Live(geo, d) && i < |inodes| && j < |inodes|
    requires forall k :: 0 <= k < |inodes| ==> Owns(geo, d, k, inodes[k])
    requires Phys(inodes[i].extents, l) == Phys(inodes[j].extents, m) != 0
    ensures i == j && l == m && InUse(geo, d, Phys(inodes[i].extents, l))
  {
    assert Owns(geo, d, i, inodes[i]) && Owns(geo, d, j, inodes[j]);
  }

  // ----- bytes of a file

  ghost function ByteAt(geo: Geometry, d: Disk, es: seq<Extent>, i: nat): Byte
    requires Live(geo, d)
  {
    var p := Phys(es, i / geo.blockSize);
    if p == 0 || p >= geo.total then 0 else d.blocks[p][i % geo.blockSize]
  }

  ghost function Content(geo: Geometry, d: Disk, inode: Inode): (c: seq<Byte>)
    requires Live(geo, d)
    ensures |c| == inode.size
  {
    seq(inode.size, i requires 0 <= i => ByteAt(geo, d, inode.extents, i))
  }

  /** Mapped bytes past the size are zero. */
  ghost predicate ZeroTail(geo: Geometry, d: Disk, inode: Inode)
    requires Live(geo, d)
  {
    forall i: nat {:trigger ByteAt(geo, d, inode.extents, i)} :: i >= inode.size ==>
      ByteAt(geo, d, inode.extents, i) == 0
  }

  // ----- what changes for the others: nothing

  /** Blocks in use that are not ours stay in use, keep their bytes and their owner. */
  ghost predicate Untouched(geo: Geometry, d: Disk, d': Disk, ino: nat)
    requires Live(geo, d) && Live(geo, d')
  {
    forall b: nat {:trigger InUse(geo, d, b)} :: InUse(geo, d, b) && (b in d.owner ==> d.owner[b].0 != ino) ==>
      && InUse(geo, d', b) && d'.blocks[b] == d.blocks[b]
      && (b in d'.owner <==> b in d.owner) && (b in d.owner ==> d'.owner[b] == d.owner[b])
  }

  lemma UntouchedTrans(geo: Geometry, a: Disk, b: Disk, c: Disk, ino: nat)
    requires Live(geo, a) && Live(geo, b) && Live(geo, c)
    requires Untouched(geo, a, b, ino) && Untouched(geo, b, c, ino)
    ensures Untouched(geo, a, c, ino)
  {
    forall x: nat | InUse(geo, a, x) && (x in a.owner ==> a.owner[x].0 != ino)
      ensures InUse(geo, c, x) && c.blocks[x] == a.blocks[x] && (x in c.owner <==> x in a.owner) &&
              (x in a.owner ==> c.owner[x] == a.owner[x])
    {
      assert InUse(geo, b, x);
    }
  }

  lemma OthersKept(geo: Geometry, d: Disk, d': Disk, inodes: seq<Inode>, ino: nat)
    requires Live(geo, d) && Live(geo, d') && Untouched(geo, d, d', ino) && OthersOwn(geo, d, inodes, ino)
    ensures OthersOwn(geo, d', inodes, ino)
    ensures forall j, i: nat {:trigger ByteAt(geo, d', inodes[j].extents, i)} :: 0 <= j < |inodes| && j != ino ==>
              ByteAt(geo, d', inodes[j].extents, i) == ByteAt(geo, d, inodes[j].extents, i)
  {
    forall j | 0 <= j < |inodes| && j != ino ensures Owns(geo, d', j, inodes[j]) {
      assert Owns(geo, d, j, inodes[j]);
      forall l: nat | Phys(inodes[j].extents, l) != 0
        ensures var p := Phys(inodes[j].extents, l); InUse(geo, d', p) && p in d'.owner && d'.owner[p] == (j, l)
      {
        assert InUse(geo, d, Phys(inodes[j].extents, l));
      }
    }
    forall j, i: nat | 0 <= j < |inodes| && j != ino
      ensures ByteAt(geo, d', inodes[j].extents, i) == ByteAt(geo, d, inodes[j].extents, i)
    {
      assert Owns(geo, d, j, inodes[j]);
      var p := Phys(inodes[j].extents, i / geo.blockSize);
      if p != 0 { assert InUse(geo, d, p); }
    }
  }

  // ----- mapping one block

  /** The bytes of a free block are nobody's. */
  lemma ScratchFree(geo: Geometry, d: Disk, b: nat, data: seq<Byte>, inodes: seq<Inode>, ino: nat, inode: Inode)
    requires Sound(geo, d, inodes, ino, inode) && geo.first <= b < geo.total && !d.ledger.Used(geo, b) &&
             |data| == geo.blockSize
    ensures var t := d.(blocks := d.blocks[b := data]);
            Sound(geo, t, inodes, ino, inode) && Untouched(geo, d, t, ino) &&
              SameBytes(geo, d, inode.extents, t, inode.extents)
  {
    var t := d.(blocks := d.blocks[b := data]);
    assert Live(geo, t) && Untouched(geo, d, t, ino);
    OthersKept(geo, d, t, inodes, ino);
    forall i: nat ensures ByteAt(geo, t, inode.extents, i) == ByteAt(geo, d, inode.extents, i) {
      var p := Phys(inode.extents, i / geo.blockSize);
      if p != 0 { assert InUse(geo, d, p); }
    }
  }

  ghost predicate SameBytes(geo: Geometry, d: Disk, es: seq<Extent>, d': Disk, es': seq<Extent>)
    requires Live(geo, d) && Live(geo, d')
  {
    forall i: nat {:trigger ByteAt(geo, d', es', i)} :: ByteAt(geo, d', es', i) == ByteAt(geo, d, es, i)
  }

  ghost predicate MapsTo(es: seq<Extent>, x: nat) { x != 0 && exists l: nat :: Phys(es, l) == x }

  /** Block x is in use, but not by the file with these extents. */
  ghost predicate Elsewhere(geo: Geometry, d: Disk, es: seq<Extent>, x: nat)
    requires d.ledger.Shaped(geo)
  {
    InUse(geo, d, x) && !MapsTo(es, x)
  }

  /** No block has been leaked or taken from elsewhere: what is in use besides the file's own blocks
      is the same. */
  ghost predicate Conserved(geo: Geometry, d: Disk, es: seq<Extent>, d': Disk, es': seq<Extent>)
    requires Live(geo, d) && Live(geo, d')
  {
    forall x: nat {:trigger Elsewhere(geo, d', es', x)} :: Elsewhere(geo, d', es', x) <==> Elsewhere(geo, d, es, x)
  }

  lemma ConservedSame(geo: Geometry, d: Disk, d': Disk, es: seq<Extent>)
    requires Live(geo, d) && Live(geo, d') && d'.ledger == d.ledger
    ensures Conserved(geo, d, es, d', es)
  {
    forall x: nat ensures Elsewhere(geo, d', es, x) <==> Elsewhere(geo, d, es, x) {
      assert InUse(geo, d', x) == InUse(geo, d, x);
    }
  }

  lemma ConservedTrans(geo: Geometry, a: Disk, ea: seq<Extent>, b: Disk, eb: seq<Extent>, c: Disk, ec: seq<Extent>)
    requires Live(geo, a) && Live(geo, b) && Live(geo, c)
    requires Conserved(geo, a, ea, b, eb) && Conserved(geo, b, eb, c, ec)
    ensures Conserved(geo, a, ea, c, ec)
  {
    forall x: nat ensures Elsewhere(geo, c, ec, x) <==> Elsewhere(geo, a, ea, x) {
      assert Elsewhere(geo, b, eb, x) <==> Elsewhere(geo, a, ea, x);
    }
  }

  /** The disk after free block b has been zeroed, taken and given to (ino, l). */
  ghost function Given(geo: Geometry, d: Disk, b: nat, ino: nat, l: nat): Disk
    requires Live(geo, d) && geo.first <= b < geo.total
  {
    Disk(d.ledger.Toggle(geo, b), d.blocks[b := Zeros(geo.blockSize)], d.owner[b := (ino, l)])
  }

  lemma GivenLive(geo: Geometry, d: Disk, b: nat, ino: nat, l: nat)
    requires Live(geo, d) && geo.first <= b < geo.total && !d.ledger.Used(geo, b)
    ensures Live(geo, Given(geo, d, b, ino, l)) && b != 0 && Untouched(geo, d, Given(geo, d, b, ino, l), ino)
    ensures forall x: nat {:trigger InUse(geo, Given(geo, d, b, ino, l), x)} ::
              InUse(geo, Given(geo, d, b, ino, l), x) == (x == b || InUse(geo, d, x))
  {
    d.ledger.ToggleMovesOne(geo, b);
  }

  lemma GivenOwns(geo: Geometry, d: Disk, b: nat, l: nat, ino: nat, inode: Inode, es': seq<Extent>)
    requires Live(geo, d) && Owns(geo, d, ino, inode) && geo.first <= b < geo.total && !d.ledger.Used(geo, b)
    requires AddsPair(inode.extents, es', l, b)
    ensures Owns(geo, Given(geo, d, b, ino, l), ino,
              inode.(extents := es', sectors := inode.sectors + geo.blockSize / 512))
  {
    var u := Given(geo, d, b, ino, l);
    GivenLive(geo, d, b, ino, l);
    forall m: nat | Phys(es', m) != 0
      ensures var p := Phys(es', m); InUse(geo, u, p) && p in u.owner && u.owner[p] == (ino, m)
    {
      var p := Phys(es', m);
      if m != l {
        assert p == Phys(inode.extents, m);
        assert InUse(geo, d, p) && d.owner[p] == (ino, m);
      }
      assert InUse(geo, u, p);
    }
    OneSectorMore(inode.sectors, Mapped(inode.extents), geo.blockSize / 512);
  }

  lemma OneSectorMore(sectors: nat, n: nat, k: nat)
    requires sectors == n * k
    ensures sectors + k == (n + 1) * k
  {}

  lemma GivenBytes(geo: Geometry, d: Disk, b: nat, l: nat, ino: nat, inode: Inode, es': seq<Extent>)
    requires Live(geo, d) && Owns(geo, d, ino, inode) && geo.first <= b < geo.total && !d.ledger.Used(geo, b)
    requires Phys(inode.extents, l) == 0 && AddsPair(inode.extents, es', l, b)
    ensures Live(geo, Given(geo, d, b, ino, l)) && SameBytes(geo, d, inode.extents, Given(geo, d, b, ino, l), es')
  {
    GivenLive(geo, d, b, ino, l);
    forall i: nat ensures ByteAt(geo, Given(geo, d, b, ino, l), es', i) == ByteAt(geo, d, inode.extents, i) {
      var m := i / geo.blockSize;
      if m != l && Phys(inode.extents, m) != 0 { assert InUse(geo, d, Phys(inode.extents, m)); }
    }
  }

  lemma GivenConserves(geo: Geometry, d: Disk, b: nat, l: nat, ino: nat, inode: Inode, es': seq<Extent>)
    requires Live(geo, d) && Owns(geo, d, ino, inode) && geo.first <= b < geo.total && !d.ledger.Used(geo, b)
    requires Phys(inode.extents, l) == 0 && AddsPair(inode.extents, es', l, b)
    ensures Live(geo, Given(geo, d, b, ino, l)) && Conserved(geo, d, inode.extents, Given(geo, d, b, ino, l), es')
  {
    var u := Given(geo, d, b, ino, l);
    GivenLive(geo, d, b, ino, l);
    forall x: nat ensures Elsewhere(geo, u, es', x) <==> Elsewhere(geo, d, inode.extents, x) {
      assert InUse(geo, u, x) == (x == b || InUse(geo, d, x));
      assert Phys(es', l) == b;
      if m: nat :| Phys(es', m) == x && x != 0 && x != b { assert Phys(inode.extents, m) == x; }
      if m: nat :| Phys(inode.extents, m) == x && x != 0 { assert Phys(es', m) == x; }
    }
  }

  /** A zeroed block mapped where a hole was leaves every byte of every file as it was. */
  lemma GivenIsHarmless(geo: Geometry, d: Disk, b: nat, l: nat, inodes: seq<Inode>, ino: nat, inode: Inode,
          es': seq<Extent>)
    requires Sound(geo, d, inodes, ino, inode) && geo.first <= b < geo.total && !d.ledger.Used(geo, b)
    requires Phys(inode.extents, l) == 0 && AddsPair(inode.extents, es', l, b)
    ensures var u := Given(geo, d, b, ino, l);
            && Sound(geo, u, inodes, ino, inode.(extents := es', sectors := inode.sectors + geo.blockSize / 512))
            && Untouched(geo, d, u, ino) && SameBytes(geo, d, inode.extents, u, es') &&
              Conserved(geo, d, inode.extents, u, es')
  {
    hide Conserved;
    GivenLive(geo, d, b, ino, l);
    GivenConserves(geo, d, b, l, ino, inode, es');
    OthersKept(geo, d, Given(geo, d, b, ino, l), inodes, ino);
    GivenOwns(geo, d, b, l, ino, inode, es');
    GivenBytes(geo, d, b, l, ino, inode, es');
  }

  /** Finds or makes the block behind a logical block.  Content never changes; a failure gives
      back bitmap, counters and map exactly as they were. */
  method EnsureInodeBlock(v: Volume, ino: nat, inode: Inode, l: nat)
    returns (status: Status, next: Inode, physical: nat)
    requires Sound(v.geo, Snap(v), v.inodes, ino, inode) && l + 1 < U32
    modifies v`ledger, v`blocks, v`owner
    ensures Sound(v.geo, Snap(v), v.inodes, ino, next) && Untouched(v.geo, old(Snap(v)), Snap(v), ino)
    ensures SameBytes(v.geo, old(Snap(v)), inode.extents, Snap(v), next.extents)
    ensures Conserved(v.geo, old(Snap(v)), inode.extents, Snap(v), next.extents)
    ensures next == inode.(extents := next.extents, sectors := next.sectors)
    ensures forall m: nat {:trigger Phys(next.extents, m)} :: m != l ==> Phys(next.extents, m) == Phys(inode.extents, m)
    ensures status == Ok ==> physical == Phys(next.extents, l) != 0
    ensures Phys(inode.extents, l) != 0 ==> status == Ok && next == inode && Snap(v) == old(Snap(v))
    ensures status != Ok ==> next == inode && v.ledger == old(v.ledger) && v.owner == old(v.owner)
    ensures Mapping(status, Books(v.ledger, next.extents)) == MapOne(v.geo, Books(old(v.ledger), inode.extents), l)
  {
    hide Conserved, WithBlock, CanMap;
    next := inode;
    ghost var d := Snap(v);
    ConservedSame(v.geo, d, d, inode.extents);
    physical := FileBlockNumber(inode.extents, l);
    if physical != 0 { return Ok, inode, physical; }
    assert v.Valid();
    var block: nat;
    status, block := v.AllocateBlock();
    if status != Ok {
      ConservedSame(v.geo, d, Snap(v), inode.extents);
      return status, inode, 0;
    }
    GivenLive(v.geo, d, block, ino, l);
    var es': seq<Extent>;
    status, es' := SetInodeBlock(inode.extents, l, block);
    if status != Ok {
      var freed := v.FreeBlock(block);
      d.ledger.ToggleTwice(v.geo, block);
      ScratchFree(v.geo, d, block, Zeros(v.geo.blockSize), v.inodes, ino, inode);
      ConservedSame(v.geo, d, Snap(v), inode.extents);
      return status, inode, 0;
    }
    v.owner := v.owner[block := (ino, l)];
    GivenIsHarmless(v.geo, d, block, l, v.inodes, ino, inode, es');
    next := inode.(extents := es', sectors := inode.sectors + v.geo.blockSize / 512);
    return Ok, next, block;
  }

  // ----- moving bytes

  /** 32-bit chunk length: the remaining count is truncated before the minimum is taken. */
  function Chunk(remaining: nat, room: nat): nat {
    if remaining % U32 < room then remaining % U32 else room
  }

  /** Below 4 GiB every chunk makes progress and stays inside its block. */
  lemma ChunkProgress(remaining: nat, bs: nat, a: nat)
    requires 0 < remaining < U32 && bs > 0
    ensures 0 < Chunk(remaining, bs - a % bs) <= remaining && a % bs + Chunk(remaining, bs - a % bs) <= bs
  {}

  lemma SplitIndex(bs: nat, a: nat, i: nat)
    requires bs > 0
    ensures i == i / bs * bs + i % bs
    ensures i / bs == a / bs <==> a - a % bs <= i < a - a % bs + bs
    ensures i / bs == a / bs ==> i % bs == a % bs + (i - a)
  {
    assert i == i / bs * bs + i % bs && a == a / bs * bs + a % bs;
    if i / bs < a / bs { MulStep(i / bs, a / bs, bs); }
    if i / bs > a / bs { MulStep(a / bs, i / bs, bs); }
  }

  /** `es'` shows what `es` showed with `data` laid over it from `offset`. */
  ghost predicate Shows(geo: Geometry, d: Disk, es: seq<Extent>, d': Disk, es': seq<Extent>, offset: nat,
          data: seq<Byte>)
    requires Live(geo, d) && Live(geo, d')
  {
    forall i: nat {:trigger ByteAt(geo, d', es', i)} :: ByteAt(geo, d', es', i) ==
      if offset <= i < offset + |data| then data[i - offset] else ByteAt(geo, d, es, i)
  }

  ghost function Stored(d: Disk, p: nat, offset: nat, chunk: seq<Byte>): Disk
    requires p < |d.blocks| && offset + |chunk| <= |d.blocks[p]|
  {
    d.(blocks := d.blocks[p := Overwrite(d.blocks[p], offset, chunk)])
  }

  /** Writing inside one mapped block changes just those bytes of just this file. */
  lemma ChunkWritten(geo: Geometry, d: Disk, inodes: seq<Inode>, ino: nat, inode: Inode, a: nat, chunk: seq<Byte>)
    requires Sound(geo, d, inodes, ino, inode)
    requires Phys(inode.extents, a / geo.blockSize) != 0 && a % geo.blockSize + |chunk| <= geo.blockSize
    ensures var p := Phys(inode.extents, a / geo.blockSize);
            && p < |d.blocks| && |d.blocks[p]| == geo.blockSize
            && var d' := Stored(d, p, a % geo.blockSize, chunk);
            && Sound(geo, d', inodes, ino, inode) && Untouched(geo, d, d', ino)
            && Shows(geo, d, inode.extents, d', inode.extents, a, chunk)
  {
    var bs, l := geo.blockSize, a / geo.blockSize;
    var p := Phys(inode.extents, l);
    assert InUse(geo, d, p) && d.owner[p] == (ino, l);
    var d' := Stored(d, p, a % bs, chunk);
    assert Live(geo, d') && Untouched(geo, d, d', ino);
    OthersKept(geo, d, d', inodes, ino);
    forall i: nat ensures ByteAt(geo, d', inode.extents, i) ==
                          if a <= i < a + |chunk| then chunk[i - a] else ByteAt(geo, d, inode.extents, i)
    {
      SplitIndex(bs, a, i);
      var q := Phys(inode.extents, i / bs);
      if i / bs != l && q != 0 { assert d.owner[q] == (ino, i / bs); }
    }
  }

  method WriteBlockPart(v: Volume, p: nat, offset: nat, chunk: seq<Byte>)
    requires p < |v.blocks| && offset + |chunk| <= |v.blocks[p]|
    modifies v`blocks
    ensures v.blocks == old(v.blocks)[p := Overwrite(old(v.blocks[p]), offset, chunk)]
  {
    v.blocks := v.blocks[p := Overwrite(v.blocks[p], offset, chunk)];
  }

  /** The end of the part of a file that 32-bit block numbers can address. */
  function FileLimit(geo: Geometry): nat { (U32 - 1) * geo.blockSize }

  /** One step of a write: map the block, then store the bytes that fall into it. */
  method WriteChunk(v: Volume, ino: nat, inode: Inode, a: nat, chunk: seq<Byte>) returns (status: Status, next: Inode)
    requires Sound(v.geo, Snap(v), v.inodes, ino, inode) && a < FileLimit(v.geo)
    requires a % v.geo.blockSize + |chunk| <= v.geo.blockSize
    modifies v`ledger, v`blocks, v`owner
    ensures Sound(v.geo, Snap(v), v.inodes, ino, next) && Untouched(v.geo, old(Snap(v)), Snap(v), ino)
    ensures Shows(v.geo, old(Snap(v)), inode.extents, Snap(v), next.extents, a, if status == Ok then chunk else [])
    ensures Conserved(v.geo, old(Snap(v)), inode.extents, Snap(v), next.extents)
    ensures next == inode.(extents := next.extents, sectors := next.sectors)
    ensures Mapping(status, Books(v.ledger, next.extents)) ==
            MapOne(v.geo, Books(old(v.ledger), inode.extents), a / v.geo.blockSize)
  {
    hide Conserved, MapOne;
    ghost var d := Snap(v);
    BlockBelowLimit(v.geo, a);
    var physical;
    status, next, physical := EnsureInodeBlock(v, ino, inode, a / v.geo.blockSize);
    if status != Ok { return; }
    ghost var before := Snap(v);
    ChunkWritten(v.geo, before, v.inodes, ino, next, a, chunk);
    WriteBlockPart(v, physical, a % v.geo.blockSize, chunk);
    assert Snap(v) == Stored(before, physical, a % v.geo.blockSize, chunk);
    UntouchedTrans(v.geo, d, before, Snap(v), ino);
    SameThenShows(v.geo, d, inode.extents, before, Snap(v), next.extents, a, chunk);
    ConservedSame(v.geo, before, Snap(v), next.extents);
    ConservedTrans(v.geo, d, inode.extents, before, next.extents, Snap(v), next.extents);
  }

  lemma SameThenShows(geo: Geometry, a: Disk, ea: seq<Extent>, b: Disk, c: Disk, eb: seq<Extent>, offset: nat,
          data: seq<Byte>)
    requires Live(geo, a) && Live(geo, b) && Live(geo, c)
    requires SameBytes(geo, a, ea, b, eb) && Shows(geo, b, eb, c, eb, offset, data)
    ensures Shows(geo, a, ea, c, eb, offset, data)
  {
    forall i: nat ensures ByteAt(geo, c, eb, i) ==
                          if offset <= i < offset + |data| then data[i - offset] else ByteAt(geo, a, ea, i)
    {
      assert ByteAt(geo, b, eb, i) == ByteAt(geo, a, ea, i);
    }
  }

  lemma Boundary(bs: nat, a: nat)
    requires bs > 0
    ensures a / bs * bs <= a && (a % bs == 0 ==> a == a / bs * bs)
    ensures var c := a + (bs - a % bs); c / bs == a / bs + 1 && c % bs == 0
  {
    var l := a / bs;
    assert a == l * bs + a % bs;
    assert (l + 1) * bs == l * bs + bs;
    DivUnique(l + 1, 0, bs);
  }

  lemma ChunkStart(bs: nat, offset: nat, written: nat)
    requires bs > 0 && (written == 0 || (offset + written) % bs == 0)
    ensures written == BytesBefore(bs, (offset + written) / bs, offset)
  {
    Boundary(bs, offset + written);
  }

  /** One round of a write ends at a block boundary or with the data. */
  lemma ChunkEnd(bs: nat, offset: nat, n: nat, written: nat, copy: nat)
    requires bs > 0 && written < n
    requires var room := bs - (offset + written) % bs; copy == if n - written < room then n - written else room
    ensures var l, more := (offset + written) / bs, written + copy;
            && l < BlockEnd(bs, offset, n)
            && if more < n then (offset + more) / bs == l + 1 && (offset + more) % bs == 0
               else BlockEnd(bs, offset, n) == l + 1
  {
    var a := offset + written;
    if written + copy < n {
      Boundary(bs, a);
      BlockMonotone(bs, a + copy, offset + n - 1);
    } else {
      InBlock(bs, a, copy - 1);
      assert a + (copy - 1) == offset + n - 1;
    }
  }

  /** Where the mapping stops is how much of the data was stored. */
  lemma FillStops(geo: Geometry, b: Books, offset: nat, n: nat, now: Books, l: nat, written: nat)
    requires b.ledger.Balanced(geo) && now.ledger.Balanced(geo) && written <= n
    requires var end := BlockEnd(geo.blockSize, offset, n);
             && l < end && MapRange(geo, b, offset / geo.blockSize, end) == MapRange(geo, now, l, end)
    requires MapOne(geo, now, l).status != Ok && written == BytesBefore(geo.blockSize, l, offset)
    ensures Filled(geo, b, offset, n).status == MapOne(geo, now, l).status && Filled(geo, b, offset, n).books == now
    ensures StoredBytes(geo, b, offset, n) == written
  {
    hide MapOne, BlockEnd, Phys, BytesBefore;
    assert MapRange(geo, now, l, BlockEnd(geo.blockSize, offset, n)) == Fill(l, MapOne(geo, now, l).status, now);
  }

  lemma FillEnds(geo: Geometry, b: Books, offset: nat, n: nat, now: Books)
    requires b.ledger.Balanced(geo) && now.ledger.Balanced(geo)
    requires var end := BlockEnd(geo.blockSize, offset, n);
             MapRange(geo, b, offset / geo.blockSize, end) == MapRange(geo, now, end, end)
    ensures Filled(geo, b, offset, n).status == Ok && Filled(geo, b, offset, n).books == now
    ensures StoredBytes(geo, b, offset, n) == n
  {}

  lemma FillGoes(geo: Geometry, now: Books, l: nat, end: nat)
    requires now.ledger.Balanced(geo) && l < end && MapOne(geo, now, l).status == Ok
    ensures MapRange(geo, now, l, end) == MapRange(geo, MapOne(geo, now, l).books, l + 1, end)
  {}

  /** The file once the first `written` bytes of a write are stored. */
  ghost predicate Partway(geo: Geometry, d: Disk, inode: Inode, c: Disk, inodes: seq<Inode>, ino: nat, next: Inode,
          offset: nat, shown: seq<Byte>)
  {
    && Live(geo, d) && Sound(geo, c, inodes, ino, next) && Untouched(geo, d, c, ino)
    && Shows(geo, d, inode.extents, c, next.extents, offset, shown)
    && Conserved(geo, d, inode.extents, c, next.extents)
    && next == inode.(extents := next.extents, sectors := next.sectors)
  }

  lemma PartwayStart(geo: Geometry, d: Disk, inodes: seq<Inode>, ino: nat, inode: Inode, offset: nat)
    requires Sound(geo, d, inodes, ino, inode)
    ensures Partway(geo, d, inode, d, inodes, ino, inode, offset, [])
  {
    ConservedSame(geo, d, d, inode.extents);
  }

  lemma PartwayMore(geo: Geometry, d: Disk, inode: Inode, b: Disk, next: Inode, inodes: seq<Inode>, ino: nat,
          offset: nat, first: seq<Byte>, c: Disk, more: Inode, second: seq<Byte>)
    requires Partway(geo, d, inode, b, inodes, ino, next, offset, first)
    requires Sound(geo, c, inodes, ino, more) && Untouched(geo, b, c, ino)
    requires Shows(geo, b, next.extents, c, more.extents, offset + |first|, second)
    requires Conserved(geo, b, next.extents, c, more.extents)
    requires more == next.(extents := more.extents, sectors := more.sectors)
    ensures Partway(geo, d, inode, c, inodes, ino, more, offset, first + second)
  {
    hide Conserved, Shows, Untouched, Owns, OthersOwn;
    UntouchedTrans(geo, d, b, c, ino);
    ConservedTrans(geo, d, inode.extents, b, next.extents, c, more.extents);
    ShowsThen(geo, d, inode.extents, b, next.extents, c, more.extents, offset, first, second);
  }

  lemma PartwayLive(geo: Geometry, d: Disk, inode: Inode, c: Disk, inodes: seq<Inode>, ino: nat, next: Inode,
          offset: nat, shown: seq<Byte>)
    requires Partway(geo, d, inode, c, inodes, ino, next, offset, shown)
    ensures Live(geo, d) && Live(geo, c) && geo.Valid() && geo.blockSize > 0 && Sound(geo, c, inodes, ino, next)
    ensures d.ledger.Balanced(geo) && c.ledger.Balanced(geo)
  {}

  /** The rest of the range decides as the whole did. */
  ghost predicate Going(geo: Geometry, b: Books, now: Books, offset: nat, n: nat, written: nat, l: nat)
    requires b.ledger.Balanced(geo) && now.ledger.Balanced(geo)
  {
    var bs, end := geo.blockSize, BlockEnd(geo.blockSize, offset, n);
    && written <= n && l <= end && (if written < n then l == (offset + written) / bs else l == end)
    && (written == 0 || written == n || (offset + written) % bs == 0)
    && MapRange(geo, b, offset / bs, end) == MapRange(geo, now, l, end)
  }

  lemma GoingStart(geo: Geometry, b: Books, offset: nat, n: nat)
    requires b.ledger.Balanced(geo)
    ensures Going(geo, b, b, offset, n, 0, offset / geo.blockSize)
  {
    hide MapRange;
    if n > 0 { BlockMonotone(geo.blockSize, offset, offset + n - 1); }
  }

  lemma GoingOn(geo: Geometry, b: Books, now: Books, offset: nat, n: nat, written: nat, l: nat, copy: nat)
    requires b.ledger.Balanced(geo) && now.ledger.Balanced(geo)
    requires Going(geo, b, now, offset, n, written, l) && written < n && MapOne(geo, now, l).status == Ok
    requires var room := geo.blockSize - (offset + written) % geo.blockSize;
             copy == if n - written < room then n - written else room
    ensures Going(geo, b, MapOne(geo, now, l).books, offset, n, written + copy, l + 1)
  {
    hide MapOne, BlockEnd, Phys;
    ChunkEnd(geo.blockSize, offset, n, written, copy);
    FillGoes(geo, now, l, BlockEnd(geo.blockSize, offset, n));
  }

  lemma GoingStops(geo: Geometry, b: Books, now: Books, offset: nat, n: nat, written: nat, l: nat)
    requires b.ledger.Balanced(geo) && now.ledger.Balanced(geo)
    requires Going(geo, b, now, offset, n, written, l)
    requires written < n ==> MapOne(geo, now, l).status != Ok
    ensures var f := Filled(geo, b, offset, n);
            && f.books == now && f.status == (if written < n then MapOne(geo, now, l).status else Ok)
            && StoredBytes(geo, b, offset, n) == written
  {
    hide MapOne, BlockEnd, Phys, MapRange, BytesBefore;
    if written < n {
      ChunkStart(geo.blockSize, offset, written);
      var room := geo.blockSize - (offset + written) % geo.blockSize;
      ChunkEnd(geo.blockSize, offset, n, written, if n - written < room then n - written else room);
      FillStops(geo, b, offset, n, now, l, written);
    } else {
      FillEnds(geo, b, offset, n, now);
    }
  }

  lemma WithinLimit(geo: Geometry, offset: nat, n: nat, written: nat)
    requires written < n && offset + n <= FileLimit(geo)
    ensures offset + written < FileLimit(geo)
  {}

  lemma GoingAt(geo: Geometry, b: Books, now: Books, offset: nat, n: nat, written: nat, l: nat)
    requires b.ledger.Balanced(geo) && now.ledger.Balanced(geo) && written < n &&
             Going(geo, b, now, offset, n, written, l)
    ensures l == (offset + written) / geo.blockSize
  {}

  /** One round of a write: as much as fits the block that it has come to. */
  method WriteRound(v: Volume, ino: nat, next: Inode, offset: nat, data: seq<Byte>, written: nat,
          ghost d: Disk, ghost inode: Inode, ghost l: nat)
    returns (status: Status, more: Inode, copy: nat)
    requires written < |data| < U32 && offset + |data| <= FileLimit(v.geo)
    requires Partway(v.geo, d, inode, Snap(v), v.inodes, ino, next, offset, data[..written])
    requires Going(v.geo, Books(d.ledger, inode.extents), Books(v.ledger, next.extents), offset, |data|, written, l)
    modifies v`ledger, v`blocks, v`owner
    ensures status == Ok ==>
              && 0 < copy <= |data| - written
              && Partway(v.geo, d, inode, Snap(v), v.inodes, ino, more, offset, data[..written + copy])
              && Going(v.geo, Books(d.ledger, inode.extents), Books(v.ledger, more.extents), offset, |data|, written +
                  copy, l + 1)
    ensures status != Ok ==>
              && Partway(v.geo, d, inode, Snap(v), v.inodes, ino, more, offset, data[..written])
              && var b := Books(d.ledger, inode.extents);
              && status == Filled(v.geo, b, offset, |data|).status
              && Books(v.ledger, more.extents) == Filled(v.geo, b, offset, |data|).books
              && StoredBytes(v.geo, b, offset, |data|) == written
  {
    hide Conserved, FileLimit, ByteAt, InUse, MapOne, MapRange, Filled, StoredBytes, BlockEnd, BytesBefore, Phys, Shows,
         Untouched, Going, Live, Owns, OthersOwn, Sound, Partway, Ledger.Balanced;
    PartwayLive(v.geo, d, inode, Snap(v), v.inodes, ino, next, offset, data[..written]);
    WithinLimit(v.geo, offset, |data|, written);
    GoingAt(v.geo, Books(d.ledger, inode.extents), Books(v.ledger, next.extents), offset, |data|, written, l);
    var a := offset + written;
    ChunkProgress(|data| - written, v.geo.blockSize, a);
    copy := Chunk(|data| - written, v.geo.blockSize - a % v.geo.blockSize);
    ghost var before, b := Snap(v), Books(d.ledger, inode.extents);
    var chunk := data[written..written + copy];
    status, more := WriteChunk(v, ino, next, a, chunk);
    ghost var second := if status == Ok then chunk else [];
    assert data[..written] + second == data[..written + |second|];
    PartwayMore(v.geo, d, inode, before, next, v.inodes, ino, offset, data[..written], Snap(v), more, second);
    if status != Ok {
      GoingStops(v.geo, b, Books(before.ledger, next.extents), offset, |data|, written, l);
    } else {
      GoingOn(v.geo, b, Books(before.ledger, next.extents), offset, |data|, written, l, copy);
    }
  }

  /** Writes with growth.  Whether it succeeds, what it takes of the volume and how many bytes reach
      the file are settled beforehand by `Filled`.  On success the file shows `data` at `offset`, its
      size covers the write and the table holds the new inode.  On failure that many bytes have been
      written, but size and table are as before.  Either way nobody else is touched. */
  method WriteInodeDataGrow(v: Volume, ino: nat, inode: Inode, offset: nat, data: seq<Byte>)
    returns (status: Status, next: Inode, done: nat)
    requires Sound(v.geo, Snap(v), v.inodes, ino, inode)
    requires |data| < U32 && offset + |data| <= FileLimit(v.geo)
    modifies v`ledger, v`blocks, v`owner, v`inodes
    ensures Sound(v.geo, Snap(v), v.inodes, ino, next) && Untouched(v.geo, old(Snap(v)), Snap(v), ino)
    ensures var b := Books(old(v.ledger), inode.extents);
            && status == Filled(v.geo, b, offset, |data|).status
            && Books(v.ledger, next.extents) == Filled(v.geo, b, offset, |data|).books
            && Shows(v.geo, old(Snap(v)), inode.extents, Snap(v), next.extents, offset,
                     data[..StoredBytes(v.geo, b, offset, |data|)])
    ensures Conserved(v.geo, old(Snap(v)), inode.extents, Snap(v), next.extents)
    ensures next.kind == inode.kind && next.links == inode.links
    ensures status == Ok ==>
              done == |data| && next.size == (if offset + |data| > inode.size then offset + |data| else inode.size)
              && v.inodes == old(v.inodes)[ino := next]
    ensures status != Ok ==> done == 0 && next.size == inode.size && v.inodes == old(v.inodes)
  {
    hide Conserved, FileLimit, ByteAt, InUse, MapOne, MapRange, Filled, StoredBytes, BlockEnd, BytesBefore, Phys,
         Shows, Untouched, Going;
    next, done := inode, 0;
    var written := 0;
    ghost var d, b := Snap(v), Books(v.ledger, inode.extents);
    ghost var l: nat := offset / v.geo.blockSize;
    PartwayStart(v.geo, d, v.inodes, ino, inode, offset);
    GoingStart(v.geo, b, offset, |data|);
    while written < |data|
      invariant written <= |data| && v.inodes == old(v.inodes)
      invariant Partway(v.geo, d, inode, Snap(v), v.inodes, ino, next, offset, data[..written])
      invariant Going(v.geo, b, Books(v.ledger, next.extents), offset, |data|, written, l)
    {
      var copy;
      status, next, copy := WriteRound(v, ino, next, offset, data, written, d, inode, l);
      if status != Ok { return status, next, 0; }
      written := written + copy;
      l := l + 1;
    }
    assert data[..written] == data;
    GoingStops(v.geo, b, Books(v.ledger, next.extents), offset, |data|, written, l);
    if offset + written > next.size { next := next.(size := offset + written); }
    WriteInode(v, ino, next);
    return Ok, next, written;
  }

  lemma BlockBelowLimit(geo: Geometry, a: nat)
    requires geo.Valid() && a < FileLimit(geo)
    ensures a / geo.blockSize + 1 < U32
  {
    assert a == a / geo.blockSize * geo.blockSize + a % geo.blockSize;
  }

  lemma ShowsThen(geo: Geometry, a: Disk, ea: seq<Extent>, b: Disk, eb: seq<Extent>, c: Disk, ec: seq<Extent>,
                  offset: nat, first: seq<Byte>, second: seq<Byte>)
    requires Live(geo, a) && Live(geo, b) && Live(geo, c)
    requires Shows(geo, a, ea, b, eb, offset, first) && Shows(geo, b, eb, c, ec, offset + |first|, second)
    ensures Shows(geo, a, ea, c, ec, offset, first + second)
  {
    forall i: nat ensures ByteAt(geo, c, ec, i) ==
        if offset <= i < offset + |first + second| then (first + second)[i - offset] else ByteAt(geo, a, ea, i)
    {
      assert ByteAt(geo, b, eb, i) == if offset <= i < offset + |first| then first[i - offset]
             else ByteAt(geo, a, ea, i);
    }
  }

  method WriteInode(v: Volume, ino: nat, inode: Inode)
    requires ino < |v.inodes|
    modifies v`inodes
    ensures v.inodes == old(v.inodes)[ino := inode]
  {
    v.inodes := v.inodes[ino := inode];
  }

  /** The bytes a file shows from a to a + n. */
  ghost function Window(geo: Geometry, d: Disk, es: seq<Extent>, a: nat, n: nat): seq<Byte>
    requires Live(geo, d)
  {
    seq<Byte>(n, i requires 0 <= i => ByteAt(geo, d, es, a + i))
  }

  lemma WindowIsContent(geo: Geometry, d: Disk, inode: Inode, a: nat, n: nat)
    requires Live(geo, d) && a + n <= inode.size
    ensures Window(geo, d, inode.extents, a, n) == Content(geo, d, inode)[a..a + n]
  {}

  lemma WindowConcat(geo: Geometry, d: Disk, es: seq<Extent>, a: nat, n: nat, m: nat)
    requires Live(geo, d)
    ensures Window(geo, d, es, a, n) + Window(geo, d, es, a + n, m) == Window(geo, d, es, a, n + m)
  {}

  /** Inside one block the window is a slice of it, or zeros for a hole. */
  lemma BlockWindow(geo: Geometry, d: Disk, es: seq<Extent>, a: nat, n: nat)
    requires Live(geo, d) && Phys(es, a / geo.blockSize) < geo.total && a % geo.blockSize + n <= geo.blockSize
    ensures var p, at := Phys(es, a / geo.blockSize), a % geo.blockSize;
            Window(geo, d, es, a, n) == if p == 0 then Zeros(n) else d.blocks[p][at..at + n]
  {
    var w := Window(geo, d, es, a, n);
    var p, at := Phys(es, a / geo.blockSize), a % geo.blockSize;
    forall k | 0 <= k < n ensures w[k] == if p == 0 then 0 else d.blocks[p][at + k] { InBlock(geo.blockSize, a, k); }
  }

  /** The kth block's worth of a file is the physical block that its extents give, byte for byte, or zeros. */
  lemma BlocksInOrder(geo: Geometry, d: Disk, inode: Inode, k: nat)
    requires Live(geo, d) && Phys(inode.extents, k) < geo.total && k * geo.blockSize + geo.blockSize <= inode.size
    ensures var p, at := Phys(inode.extents, k), k * geo.blockSize;
            Content(geo, d, inode)[at..at + geo.blockSize] == if p == 0 then Zeros(geo.blockSize) else d.blocks[p]
  {
    var at := k * geo.blockSize;
    LiveBlockSize(geo, d);
    DivUnique(k, 0, geo.blockSize);
    BlockWindow(geo, d, inode.extents, at, geo.blockSize);
    WindowIsContent(geo, d, inode, at, geo.blockSize);
  }

  method ReadChunk(v: Volume, es: seq<Extent>, a: nat, n: nat) returns (piece: seq<Byte>)
    requires Live(v.geo, Snap(v)) && (forall l: nat :: Phys(es, l) < v.geo.total)
    requires a % v.geo.blockSize + n <= v.geo.blockSize
    ensures piece == Window(v.geo, Snap(v), es, a, n)
  {
    var physical := FileBlockNumber(es, a / v.geo.blockSize);
    BlockWindow(v.geo, Snap(v), es, a, n);
    if physical == 0 { return Zeros(n); }
    piece := v.blocks[physical][a % v.geo.blockSize..a % v.geo.blockSize + n];
  }

  lemma InBlock(bs: nat, a: nat, k: nat)
    requires bs > 0 && a % bs + k < bs
    ensures (a + k) / bs == a / bs && (a + k) % bs == a % bs + k
  {
    assert a + k == a / bs * bs + (a % bs + k);
    DivUnique(a / bs, a % bs + k, bs);
  }

  lemma LiveBlockSize(geo: Geometry, d: Disk)
    requires Live(geo, d)
    ensures geo.blockSize > 0
  {}

  lemma ContentSize(geo: Geometry, d: Disk, inode: Inode)
    requires Live(geo, d)
    ensures |Content(geo, d, inode)| == inode.size
  {}

  /** Reads what the file shows, up to its size; holes read as zero. */
  method ReadInodeData(v: Volume, inode: Inode, offset: nat, size: nat) returns (buffer: seq<Byte>)
    requires Live(v.geo, Snap(v)) && (forall l: nat :: Phys(inode.extents, l) < v.geo.total)
    requires size < U32 && inode.size <= FileLimit(v.geo)
    ensures buffer == Slice(Content(v.geo, Snap(v), inode), offset, size)
  {
    hide FileLimit, ByteAt, Content, Phys, Geometry.Valid;
    LiveBlockSize(v.geo, Snap(v));
    ContentSize(v.geo, Snap(v), inode);
    if offset >= inode.size { return []; }
    var remaining := if inode.size - offset > size then size else inode.size - offset;
    buffer := [];
    while |buffer| < remaining
      invariant |buffer| <= remaining <= size
      invariant buffer == Window(v.geo, Snap(v), inode.extents, offset, |buffer|)
      decreases remaining - |buffer|
    {
      var a := offset + |buffer|;
      ChunkProgress(remaining - |buffer|, v.geo.blockSize, a);
      var copy := Chunk(remaining - |buffer|, v.geo.blockSize - a % v.geo.blockSize);
      var piece := ReadChunk(v, inode.extents, a, copy);
      WindowConcat(v.geo, Snap(v), inode.extents, offset, |buffer|, copy);
      buffer := buffer + piece;
    }
    WindowIsContent(v.geo, Snap(v), inode, offset, remaining);
  }
}
