/** A volume with one free block left: what a write and a growth that run out of space do to it. */
module Ext4FullVolume {
  import opened Bytes
  import opened Ext4Common
  import opened Ext4Volume
  import opened Ext4Extents
  import opened Ext4Space
  import opened Ext4File
  import opened Ext4Handle
  import opened Ext4Runs

  /** With one block free, mapping two holes one after the other stops at the second. */
  lemma SecondHoleStops(geo: Geometry, b: Books, l: nat, end: nat)
    requires Workable(geo, b) && b.ledger.superFree == 1 && |b.extents| < EXTENT_SLOTS && l + 2 <= end < U32
    requires Phys(b.extents, l) == 0 && Phys(b.extents, l + 1) == 0
    ensures var r := MapRange(geo, b, l, end);
            r.status == NoMemory && r.stop == l + 1 && Phys(r.books.extents, l) != 0
  {
    hide Phys, Sorted;
    MapOneTakes(geo, b, l);
    NoneFree(geo, b.ledger);
    var one := MapOne(geo, b, l).books;
    MapOneTakes(geo, one, l + 1);
    NoneFree(geo, one.ledger);
    assert MapRange(geo, one, l + 1, end).status == NoMemory;
  }

  const TINY := Geometry(1024, 8, 2, 1)

  /** A volume of one block, and an empty file open on it for writing. */
  method OneBlockVolume() returns (v: Volume, h: Handle)
    ensures fresh(v) && fresh(h) && v.geo == TINY && v.ledger.superFree == 1
    ensures InStep(v, h) && h.writable && !h.append && h.position == 0
    ensures h.inode == Inode(Regular, 1, 0, 0, []) && v.inodes == [h.inode] && h.ino == 0
  {
    var bits := seq(8, _ => false);
    var ledger := Ledger([bits], [1], 1);
    assert ClearCount(bits, 1) == ClearCount(bits, 0) + 1;
    assert Sum([1]) == Sum([1][..0]) + 1;
    assert TINY.Cap(0) == 1 && TINY.Groups() == 1;
    v := new Volume(TINY, ledger, [Zeros(1024), Zeros(1024)], [Inode(Regular, 1, 0, 0, [])]);
    h := new Handle(v, 0, true, false);
    forall l: nat ensures Phys([], l) == 0 {}
  }

  function Sevens(n: nat): (s: seq<Byte>)
    ensures |s| == n && forall k :: 0 <= k < n ==> s[k] == 7
  {
    seq(n, _ => 7)
  }

  lemma TwoBlocks(b: Books, n: nat)
    requires Workable(TINY, b) && b.ledger.superFree == 1 && b.extents == [] && 1024 < n <= 2048
    ensures var f := Filled(TINY, b, 0, n);
            && f.status == NoMemory && f.stop == 1 && Phys(f.books.extents, 0) != 0
            && StoredBytes(TINY, b, 0, n) == 1024 && GrowthKept(TINY, b, 0, n) == 0 && Holes([], 0, 1) == 1
  {
    SecondHoleStops(TINY, b, 0, 2);
    assert BlockEnd(1024, 0, n) == 2;
    assert Holes([], 1, 1) == 0;
  }

  const WRITING := Mode(true, false)

  lemma BothStop(s: Session)
    requires Workable(TINY, s.books) && s.books.ledger.superFree == 1 && s.books.extents == [] && s.file == File([], 0)
    ensures Stops(TINY, s, WRITING, Writes(Sevens(1025))) && Loses(TINY, s, WRITING, Writes(Sevens(1025)))
    ensures Stops(TINY, s, WRITING, Truncates(2048)) && Loses(TINY, s, WRITING, Truncates(2048))
  {
    hide Filled, StoredBytes, GrowthKept;
    TwoBlocks(s.books, 1025);
    TwoBlocks(s.books, 2048);
    EndOfNothing(1024, 0);
  }

  /** A write of 1025 bytes, and likewise a growth to 2048, fails and the block it has taken is lost: it
      is in use and no inode of the table maps it. */
  method RunOut(grow: bool) returns (ok: bool, v: Volume, ghost d: Disk)
    ensures !ok && v.geo == TINY && |v.inodes| == 1 && Live(TINY, d) && Live(TINY, Snap(v))
    ensures !Conserved(TINY, d, [], Snap(v), v.inodes[0].extents)
  {
    hide Loses, Stops, Conserved, Live, ZeroTail, Owns, OthersOwn, Remains, NextBooks, Does, Content, OthersSafe;
    var h;
    v, h := OneBlockVolume();
    d := Snap(v);
    SoundWorkable(TINY, d, v.inodes, 0, h.inode);
    BothStop(SessionOf(v, h));
    var answer, next;
    ghost var held;
    ok, answer, next, held := Perform(v, h, if grow then Truncates(2048) else Writes(Sevens(1025)));
    SoundLive(TINY, Snap(v), v.inodes, 0, held);
  }

  /** The failed write has stored its first block. */
  method FailedWrite() returns (failed: Status, done: nat, v: Volume, h: Handle)
    ensures fresh(v) && fresh(h) && failed == NoMemory && done == 0
    ensures v.geo == TINY && h.Valid(v) && h.writable && !h.append && h.position == 0 && h.inode.size == 0
    ensures Phys(h.inode.extents, 0) != 0
    ensures forall i: nat {:trigger ByteAt(TINY, Snap(v), h.inode.extents, i)} ::
              i < 1024 ==> ByteAt(TINY, Snap(v), h.inode.extents, i) == 7
  {
    hide Filled, ZeroTail, Owns, OthersOwn, Conserved, Untouched, Phys, Splice, ByteAt, Ledger.Balanced;
    v, h := OneBlockVolume();
    ghost var b := Books(v.ledger, []);
    SoundWorkable(TINY, Snap(v), v.inodes, 0, h.inode);
    TwoBlocks(b, 1025);
    failed, done := h.Write(v, Sevens(1025));
    assert |StoredPart(TINY, b, 0, Sevens(1025))| == 1024;
  }

  /** One byte written into a block that is mapped is stored. */
  lemma OneByteFits(b: Books)
    requires Workable(TINY, b) && Phys(b.extents, 0) != 0
    ensures Filled(TINY, b, 5, 1).status == Ok && StoredPart(TINY, b, 5, [1]) == [1]
  {
    assert BlockEnd(1024, 5, 1) == 1;
    AlreadyMapped(TINY, b, 0, 1);
  }

  /** The bytes that the failed write stored lie past the end of the file.  One byte written at 5 makes
      them show where a gap should read as zeros. */
  method GapShowsFailedWrite() returns (failed: Status, done: nat, shown: seq<Byte>)
    ensures failed == NoMemory && done == 0 && shown == [7, 7, 7, 7, 7, 1]
  {
    hide Filled, StoredPart, ZeroTail, Owns, OthersOwn, Conserved, Untouched, Phys, Splice, ByteAt, Ledger.Balanced;
    var v, h;
    failed, done, v, h := FailedWrite();
    SoundWorkable(TINY, Snap(v), v.inodes, h.ino, h.inode);
    OneByteFits(Books(v.ledger, h.inode.extents));
    var sought := h.Seek(5, SeekSet);
    var status, count := h.Write(v, [1]);
    sought := h.Seek(0, SeekSet);
    shown := h.Read(v, 6);
    assert forall i: nat :: i < 6 ==> ByteAt(TINY, Snap(v), h.inode.extents, i) == if i == 5 then 1 else 7;
  }
}
