/** Whole runs over one open file: reads, writes, seeks and truncations act as on one sequence of
    bytes and one position, and no block is leaked or taken from another file. */
module Ext4Runs {
  import opened Arithmetic
  import opened Bytes
  import opened Ext4Common
  import opened Ext4Volume
  import opened Ext4Extents
  import opened Ext4Space
  import opened Ext4File
  import opened Ext4Handle

  /** A truncation is by path: the file is closed before it and opened again after it. */
  datatype FileOp =
    | Reads(size: nat)
    | Writes(data: seq<Byte>)
    | Seeks(offset: int, origin: Origin)
    | Truncates(size: nat)

  datatype Answer = Got(bytes: seq<Byte>) | Wrote(count: nat) | Done | Refused

  datatype Mode = Mode(writable: bool, append: bool)

  datatype File = File(bytes: seq<Byte>, position: nat)

  function CutOrPadded(c: seq<Byte>, size: nat): (r: seq<Byte>)
    ensures |r| == size
  {
    if size <= |c| then c[..size] else c + Zeros(size - |c|)
  }

  function WriteAt(f: File, mode: Mode): nat { if mode.append then |f.bytes| else f.position }

  /** What an operation makes of a sequence of bytes and a position, and what it answers. */
  function Does(f: File, mode: Mode, op: FileOp): (File, Answer) {
    match op
    case Reads(size) =>
      var got := Slice(f.bytes, f.position, size);
      (f.(position := f.position + |got|), Got(got))
    case Writes(data) =>
      if !mode.writable then (f, Refused)
      else (File(Splice(f.bytes, WriteAt(f, mode), data), WriteAt(f, mode) + |data|), Wrote(|data|))
    case Seeks(offset, origin) =>
      var next := offset + (match origin case SeekSet => 0 case SeekCur => f.position case SeekEnd => |f.bytes|);
      if next < 0 then (f, Refused) else (f.(position := next), Done)
    case Truncates(size) =>
      (File(CutOrPadded(f.bytes, size), if mode.append then size else 0), Done)
  }

  function DoesAll(f: File, mode: Mode, ops: seq<FileOp>): (File, seq<Answer>)
    decreases |ops|
  {
    if ops == [] then (f, [])
    else
      var one := Does(f, mode, ops[0]);
      var rest := DoesAll(one.0, mode, ops[1..]);
      (rest.0, [one.1] + rest.1)
  }

  /** What was written is read back from where it was written. */
  lemma WrittenReadsBack(f: File, mode: Mode, data: seq<Byte>)
    requires mode.writable
    ensures var at := WriteAt(f, mode);
            DoesAll(f, mode, [Writes(data), Seeks(at, SeekSet), Reads(|data|)]).1 == [Wrote(|data|), Done, Got(data)]
  {
    var at := WriteAt(f, mode);
    var ops := [Writes(data), Seeks(at, SeekSet), Reads(|data|)];
    assert ops[1..] == [Seeks(at, SeekSet), Reads(|data|)] && ops[1..][1..] == [Reads(|data|)] &&
           ops[1..][1..][1..] == [];
    var g := Does(f, mode, ops[0]).0;
    assert Slice(g.bytes, at, |data|) == data;
    var h := Does(g, mode, ops[1]).0;
    assert DoesAll(h, mode, [Reads(|data|)]).1 == [Got(data)] + DoesAll(Does(h, mode, ops[2]).0, mode, []).1;
    assert DoesAll(g, mode, ops[1..]).1 == [Done] + DoesAll(h, mode, [Reads(|data|)]).1;
  }

  lemma OneOp(f: File, mode: Mode, op: FileOp)
    ensures DoesAll(f, mode, [op]) == (Does(f, mode, op).0, [Does(f, mode, op).1])
  {
    hide Does;
    var one := Does(f, mode, op);
    assert [op][1..] == [] && DoesAll(one.0, mode, [op][1..]) == (one.0, []);
    assert [one.1] + [] == [one.1];
  }

  lemma TwoOps(f: File, mode: Mode, a: FileOp, b: FileOp)
    ensures var one := Does(f, mode, a);
            var two := Does(one.0, mode, b);
            DoesAll(f, mode, [a, b]) == (two.0, [one.1, two.1])
  {
    hide Does;
    assert [a, b][1..] == [b];
    var one := Does(f, mode, a);
    OneOp(one.0, mode, b);
    assert [one.1] + [Does(one.0, mode, b).1] == [one.1, Does(one.0, mode, b).1];
  }

  /** A read never changes the bytes, and two reads in a row give what one read of both lengths gives. */
  lemma ReadsJoin(f: File, mode: Mode, a: nat, b: nat)
    ensures var both := Does(f, mode, Reads(a + b));
            && both.0.bytes == f.bytes && both.1.Got?
            && |both.1.bytes| == (if f.position >= |f.bytes| then 0
                                  else if f.position + a + b <= |f.bytes| then a + b else |f.bytes| - f.position)
            && (exists x, y :: DoesAll(f, mode, [Reads(a), Reads(b)]) == (both.0, [Got(x), Got(y)])
                               && x + y == both.1.bytes)
            && forall k :: 0 <= k < |both.1.bytes| ==> both.1.bytes[k] == f.bytes[f.position + k]
  {
    hide DoesAll;
    TwoOps(f, mode, Reads(a), Reads(b));
    var one := Does(f, mode, Reads(a));
    var two := Does(one.0, mode, Reads(b));
    assert one.1.bytes + two.1.bytes == Does(f, mode, Reads(a + b)).1.bytes;
  }

  /** Going back by what was read, the same is read again. */
  lemma ReadAgain(f: File, mode: Mode, n: nat)
    ensures var got := Does(f, mode, Reads(n)).1;
            && got.Got?
            && DoesAll(f, mode, [Reads(n), Seeks(-|got.bytes|, SeekCur)]) == (f, [got, Done])
  {
    var got := Does(f, mode, Reads(n)).1;
    TwoOps(f, mode, Reads(n), Seeks(-|got.bytes|, SeekCur));
  }

  /** A write at the end, found by a seek or by a handle that appends, puts the bytes behind the file. */
  lemma WrittenBehind(f: File, mode: Mode, data: seq<Byte>)
    requires mode.writable
    ensures DoesAll(f, mode, [Seeks(0, SeekEnd), Writes(data)]) ==
            (File(f.bytes + data, |f.bytes| + |data|), [Done, Wrote(|data|)])
    ensures mode.append ==> Does(f, mode, Writes(data)) == (File(f.bytes + data, |f.bytes| + |data|), Wrote(|data|))
  {
    TwoOps(f, mode, Seeks(0, SeekEnd), Writes(data));
    assert Splice(f.bytes, |f.bytes|, data) == f.bytes + data;
  }

  /** A seek counts from the start, the position or the end; one that would go before the start, and a
      write through a handle that is only read, are refused and change nothing. */
  lemma SeeksTo(f: File, mode: Mode, offset: int, data: seq<Byte>)
    ensures offset >= 0 ==> Does(f, mode, Seeks(offset, SeekSet)) == (File(f.bytes, offset), Done)
    ensures f.position + offset >= 0 ==>
              Does(f, mode, Seeks(offset, SeekCur)) == (File(f.bytes, f.position + offset), Done)
    ensures |f.bytes| + offset >= 0 ==>
              Does(f, mode, Seeks(offset, SeekEnd)) == (File(f.bytes, |f.bytes| + offset), Done)
    ensures offset < 0 ==> Does(f, mode, Seeks(offset, SeekSet)) == (f, Refused)
    ensures f.position + offset < 0 ==> Does(f, mode, Seeks(offset, SeekCur)) == (f, Refused)
    ensures |f.bytes| + offset < 0 ==> Does(f, mode, Seeks(offset, SeekEnd)) == (f, Refused)
    ensures !mode.writable ==> Does(f, mode, Writes(data)) == (f, Refused)
  {}

  /** Cutting a file and growing it again keeps what was below the cut and shows zeros above it. */
  lemma CutThenGrown(f: File, mode: Mode, size: nat, more: nat, i: nat)
    requires size <= |f.bytes| && size <= more && i < more
    ensures var g := DoesAll(f, mode, [Truncates(size), Truncates(more)]).0;
            |g.bytes| == more && g.bytes[i] == if i < size then f.bytes[i] else 0
  {
    var ops := [Truncates(size), Truncates(more)];
    assert ops[1..] == [Truncates(more)] && ops[1..][1..] == [];
    var g := Does(f, mode, ops[0]).0;
    assert DoesAll(f, mode, ops).0 == DoesAll(Does(g, mode, ops[1]).0, mode, []).0;
  }

  /** Within what 32-bit block numbers and lengths can address. */
  predicate InReach(f: File, mode: Mode, op: FileOp, limit: nat) {
    match op
    case Reads(size) => size < U32
    case Writes(data) => |data| < U32 && (mode.writable ==> WriteAt(f, mode) + |data| <= limit)
    case Seeks(_, _) => true
    case Truncates(size) => size <= limit && (size > |f.bytes| ==> size - |f.bytes| < U32)
  }

  predicate AllInReach(f: File, mode: Mode, ops: seq<FileOp>, limit: nat)
    decreases |ops|
  {
    ops != [] ==> InReach(f, mode, ops[0], limit) && AllInReach(Does(f, mode, ops[0]).0, mode, ops[1..], limit)
  }

  // ----- which operations run out of space

  /** The file, and what decides whether it can grow. */
  datatype Session = Session(file: File, books: Books)

  /** Only a write or a growth can stop, and it does when a block that it needs cannot be mapped. */
  ghost predicate Stops(geo: Geometry, s: Session, mode: Mode, op: FileOp)
    requires s.books.ledger.Balanced(geo)
  {
    match op
    case Writes(data) => mode.writable && Filled(geo, s.books, WriteAt(s.file, mode), |data|).status != Ok
    case Truncates(size) => Filled(geo, s.books, |s.file.bytes|, Growth(|s.file.bytes|, size)).status != Ok
    case _ => false
  }

  ghost function NextBooks(geo: Geometry, s: Session, mode: Mode, op: FileOp): (b: Books)
    requires s.books.ledger.Balanced(geo)
    ensures b.ledger.Balanced(geo)
  {
    match op
    case Writes(data) => if mode.writable then Filled(geo, s.books, WriteAt(s.file, mode), |data|).books else s.books
    case Truncates(size) => TruncatedBooks(geo, s.books, |s.file.bytes|, size)
    case _ => s.books
  }

  /** How many operations of a run are carried out. */
  ghost function Lasts(geo: Geometry, s: Session, mode: Mode, ops: seq<FileOp>): (n: nat)
    requires s.books.ledger.Balanced(geo)
    ensures n <= |ops|
    decreases |ops|
  {
    if ops == [] || Stops(geo, s, mode, ops[0]) then 0
    else 1 + Lasts(geo, After(geo, s, mode, ops[0]), mode, ops[1..])
  }

  /** An operation that stops leaves blocks mapped that the stored inode does not map: the holes it
      filled before it stopped, save those of the part of a growth that lasts. */
  ghost predicate Loses(geo: Geometry, s: Session, mode: Mode, op: FileOp)
    requires s.books.ledger.Balanced(geo)
  {
    var size := |s.file.bytes|;
    && Stops(geo, s, mode, op)
    && match op
       case Writes(data) =>
         var at := WriteAt(s.file, mode);
         Holes(s.books.extents, at / geo.blockSize, Filled(geo, s.books, at, |data|).stop) > 0
       case Truncates(next) =>
         var n := Growth(size, next);
         Holes(s.books.extents, BlockEnd(geo.blockSize, size, GrowthKept(geo, s.books, size, n)),
               Filled(geo, s.books, size, n).stop) > 0
       case _ => false
  }

  /** The bytes that an operation that stops leaves in the driver's copy. */
  ghost function Remains(geo: Geometry, s: Session, mode: Mode, op: FileOp): seq<Byte>
    requires s.books.ledger.Balanced(geo)
  {
    var bytes := s.file.bytes;
    match op
    case Writes(data) =>
      var at := WriteAt(s.file, mode);
      Splice(bytes, at, StoredPart(geo, s.books, at, data))[..|bytes|]
    case Truncates(next) => bytes + Zeros(GrowthKept(geo, s.books, |bytes|, Growth(|bytes|, next)))
    case _ => bytes
  }

  ghost function After(geo: Geometry, s: Session, mode: Mode, op: FileOp): (t: Session)
    requires s.books.ledger.Balanced(geo)
    ensures t.books.ledger.Balanced(geo)
  {
    Session(Does(s.file, mode, op).0, NextBooks(geo, s, mode, op))
  }

  /** The session before the operation that stops, or at the end. */
  ghost function Reached(geo: Geometry, s: Session, mode: Mode, ops: seq<FileOp>): (t: Session)
    requires s.books.ledger.Balanced(geo)
    ensures t.books.ledger.Balanced(geo)
    decreases |ops|
  {
    if ops == [] || Stops(geo, s, mode, ops[0]) then s else Reached(geo, After(geo, s, mode, ops[0]), mode, ops[1..])
  }

  /** That session holds what the operations before make of the bytes, and the next one stops there. */
  lemma {:induction false} ReachedIs(geo: Geometry, s: Session, mode: Mode, ops: seq<FileOp>)
    requires s.books.ledger.Balanced(geo)
    ensures var n, t := Lasts(geo, s, mode, ops), Reached(geo, s, mode, ops);
            t.file == DoesAll(s.file, mode, ops[..n]).0 && (n < |ops| ==> Stops(geo, t, mode, ops[n]))
    decreases |ops|
  {
    hide Stops, After, Does;
    if ops != [] && !Stops(geo, s, mode, ops[0]) {
      AfterIs(geo, s, mode, ops[0]);
      ReachedIs(geo, After(geo, s, mode, ops[0]), mode, ops[1..]);
      var n := Lasts(geo, s, mode, ops);
      assert ops[..n][1..] == ops[1..][..n - 1] && ops[..n][0] == ops[0];
    }
  }

  lemma AfterIs(geo: Geometry, s: Session, mode: Mode, op: FileOp)
    requires s.books.ledger.Balanced(geo)
    ensures After(geo, s, mode, op).file == Does(s.file, mode, op).0
  {}

  /** A write of nothing past the end takes no block, so it never stops, and it grows the file. */
  lemma EmptyWriteGrows(geo: Geometry, s: Session, mode: Mode)
    requires s.books.ledger.Balanced(geo) && mode.writable && !mode.append && s.file.position > |s.file.bytes|
    ensures !Stops(geo, s, mode, Writes([])) && After(geo, s, mode, Writes([])).books == s.books
    ensures var grown := s.file.bytes + Zeros(s.file.position - |s.file.bytes|);
            Does(s.file, mode, Writes([])) == (s.file.(bytes := grown), Wrote(0))
  {
    FilledNone(geo, s.books, s.file.position);
    var c, gap := s.file.bytes, Zeros(s.file.position - |s.file.bytes|);
    assert Splice(c, s.file.position, []) == c + gap;
  }

  /** Blocks that only the driver's copy maps are lost, and there are some exactly when a hole of the
      stored list has been filled. */
  lemma LosesIff(geo: Geometry, d: Disk, was: seq<Extent>, d': Disk, ino: nat, held: Inode, stored: seq<Extent>,
          l: nat, stop: nat)
    requires Live(geo, d) && Live(geo, d') && Owns(geo, d', ino, held) && Conserved(geo, d, was, d', held.extents)
    requires forall m: nat :: Phys(stored, m) != 0 ==> Phys(held.extents, m) == Phys(stored, m)
    requires forall m: nat :: m < l || stop <= m ==> Phys(held.extents, m) == Phys(stored, m)
    requires forall m: nat :: l <= m < stop ==> Phys(held.extents, m) != 0
    ensures Conserved(geo, d, was, d', stored) <==> Holes(stored, l, stop) == 0
  {
    NoHoles(stored, l, stop);
    forall x: nat ensures Elsewhere(geo, d', held.extents, x) <==> Elsewhere(geo, d, was, x) {}
    if m: nat :| l <= m < stop && Phys(stored, m) == 0 {
      var x := Phys(held.extents, m);
      assert InUse(geo, d', x) && d'.owner[x] == (ino, m);
      forall k: nat | Phys(held.extents, k) == x ensures k == m { assert d'.owner[Phys(held.extents, k)] == (ino, k); }
      assert Elsewhere(geo, d', stored, x) && !Elsewhere(geo, d', held.extents, x);
    } else {
      forall x: nat ensures Elsewhere(geo, d', stored, x) <==> Elsewhere(geo, d, was, x) {
        assert MapsTo(stored, x) <==> MapsTo(held.extents, x) by {
          if k: nat :| Phys(held.extents, k) == x { assert Phys(stored, k) == x; }
          if k: nat :| Phys(stored, k) == x && x != 0 { assert Phys(held.extents, k) == x; }
        }
      }
    }
  }

  lemma WriteLosesIff(geo: Geometry, d: Disk, was: Inode, d': Disk, ino: nat, held: Inode, at: nat, n: nat)
    requires Live(geo, d) && Live(geo, d') && Owns(geo, d', ino, held) &&
             Conserved(geo, d, was.extents, d', held.extents)
    requires Workable(geo, Books(d.ledger, was.extents)) && geo.blockSize > 0 && at + n <= FileLimit(geo)
    requires var f := Filled(geo, Books(d.ledger, was.extents), at, n);
             f.status != Ok && held.extents == f.books.extents
    ensures Conserved(geo, d, was.extents, d', was.extents) <==>
            Holes(was.extents, at / geo.blockSize, Filled(geo, Books(d.ledger, was.extents), at, n).stop) == 0
  {
    hide FileLimit, Conserved, Holes, Owns, Workable, BlockEnd;
    var b := Books(d.ledger, was.extents);
    EndBelow(geo, at, n);
    MapRangeMaps(geo, b, at / geo.blockSize, BlockEnd(geo.blockSize, at, n));
    LosesIff(geo, d, was.extents, d', ino, held, was.extents, at / geo.blockSize, Filled(geo, b, at, n).stop);
  }

  /** The part of a growth that lasts ends before the block that could not be mapped. */
  lemma KeptEnds(geo: Geometry, b: Books, size: nat, n: nat)
    requires b.ledger.Balanced(geo) && Filled(geo, b, size, n).status != Ok
    ensures var e, stop := BlockEnd(geo.blockSize, size, GrowthKept(geo, b, size, n)), Filled(geo, b, size, n).stop;
            size / geo.blockSize <= e <= stop
  {
    var bs, kept, stop := geo.blockSize, GrowthKept(geo, b, size, n), Filled(geo, b, size, n).stop;
    if kept > 0 {
      var last := size + kept - 1;
      assert last == last / bs * bs + last % bs;
      if stop < last / bs { MulStep(stop, last / bs, bs); }
    }
  }

  /** What lasts of a growth is mapped, and mapping the rest from there stops as the whole does. */
  lemma KeptThenRest(geo: Geometry, b: Books, size: nat, n: nat)
    requires b.ledger.Balanced(geo) && Filled(geo, b, size, n).status != Ok
    ensures var kept := Filled(geo, b, size, GrowthKept(geo, b, size, n));
            && kept.status == Ok
            && MapRange(geo, kept.books, BlockEnd(geo.blockSize, size, GrowthKept(geo, b, size, n)),
                BlockEnd(geo.blockSize, size, n))
               == Filled(geo, b, size, n)
  {
    hide MapOne, GrowthKept, BlockEnd;
    var bs, kept := geo.blockSize, GrowthKept(geo, b, size, n);
    KeptEnds(geo, b, size, n);
    MapRangeSplits(geo, b, size / bs, BlockEnd(bs, size, kept), BlockEnd(bs, size, n));
  }

  lemma GrowthLosesIff(geo: Geometry, d: Disk, was: Inode, d': Disk, ino: nat, held: Inode, n: nat)
    requires Live(geo, d) && Live(geo, d') && Owns(geo, d', ino, held) &&
             Conserved(geo, d, was.extents, d', held.extents)
    requires Workable(geo, Books(d.ledger, was.extents)) && geo.blockSize > 0 && was.size + n <= FileLimit(geo)
    requires var f := Filled(geo, Books(d.ledger, was.extents), was.size, n);
             f.status != Ok && held.extents == f.books.extents
    ensures var b := Books(d.ledger, was.extents);
            var kept := GrowthKept(geo, b, was.size, n);
            Conserved(geo, d, was.extents, d', Filled(geo, b, was.size, kept).books.extents) <==>
            Holes(was.extents, BlockEnd(geo.blockSize, was.size, kept), Filled(geo, b, was.size, n).stop) == 0
  {
    hide FileLimit, Conserved, Holes, Owns, Workable, BlockEnd, GrowthKept, MapOne, Phys;
    var b, bs := Books(d.ledger, was.extents), geo.blockSize;
    var kept := GrowthKept(geo, b, was.size, n);
    var stored, e, end := Filled(geo, b, was.size, kept).books, BlockEnd(bs, was.size, kept), BlockEnd(bs, was.size, n);
    EndBelow(geo, was.size, n);
    KeptEnds(geo, b, was.size, n);
    KeptThenRest(geo, b, was.size, n);
    MapRangeMaps(geo, b, was.size / bs, e);
    MapRangeMaps(geo, stored, e, end);
    LosesIff(geo, d, was.extents, d', ino, held, stored.extents, e, Filled(geo, b, was.size, n).stop);
    HolesSame(was.extents, stored.extents, e, Filled(geo, b, was.size, n).stop);
  }

  /** The handle's copy of the inode is the stored one, and the bytes past the end are zero. */
  ghost predicate InStep(v: Volume, h: Handle)
    reads v, h
  {
    h.Valid(v) && ZeroTail(v.geo, Snap(v), h.inode) && v.inodes[h.ino] == h.inode
  }

  ghost function Shown(v: Volume, h: Handle): File
    requires h.Valid(v)
    reads v, h
  {
    File(h.Bytes(v), h.position)
  }

  ghost function SessionOf(v: Volume, h: Handle): (s: Session)
    requires h.Valid(v)
    ensures s.books.ledger.Balanced(v.geo)
    reads v, h
  {
    Session(Shown(v, h), Books(v.ledger, h.inode.extents))
  }

  function ModeOf(h: Handle): Mode { Mode(h.writable, h.append) }

  /** Nothing has happened to other files, and the blocks in use besides this file's are the same. */
  ghost predicate OthersSafe(geo: Geometry, d: Disk, was: Inode, d': Disk, now: Inode, ino: nat)
    requires Live(geo, d) && Live(geo, d')
  {
    Untouched(geo, d, d', ino) && Conserved(geo, d, was.extents, d', now.extents)
  }

  lemma OthersSafeSelf(geo: Geometry, d: Disk, was: Inode, ino: nat)
    requires Live(geo, d)
    ensures OthersSafe(geo, d, was, d, was, ino)
  {
    ConservedSame(geo, d, d, was.extents);
  }

  lemma OthersSafeTrans(geo: Geometry, a: Disk, was: Inode, b: Disk, mid: Inode, c: Disk, now: Inode, ino: nat)
    requires Live(geo, a) && Live(geo, b) && Live(geo, c)
    requires OthersSafe(geo, a, was, b, mid, ino) && OthersSafe(geo, b, mid, c, now, ino)
    ensures OthersSafe(geo, a, was, c, now, ino)
  {
    UntouchedTrans(geo, a, b, c, ino);
    ConservedTrans(geo, a, was.extents, b, mid.extents, c, now.extents);
  }

  lemma ConservedOn(geo: Geometry, a: Disk, ea: seq<Extent>, b: Disk, eb: seq<Extent>, c: Disk, ec: seq<Extent>)
    requires Live(geo, a) && Live(geo, b) && Live(geo, c) && Conserved(geo, a, ea, b, eb)
    ensures Conserved(geo, a, ea, c, ec) <==> Conserved(geo, b, eb, c, ec)
  {
    forall x: nat ensures Elsewhere(geo, a, ea, x) <==> Elsewhere(geo, b, eb, x) {
      assert Elsewhere(geo, b, eb, x) <==> Elsewhere(geo, a, ea, x);
    }
  }

  /** What a stopped operation leaves: the inode that the driver holds is sound and nobody else is
      touched, but blocks are lost to the table exactly when the call said so beforehand. */
  ghost predicate Stopped(geo: Geometry, s: Session, mode: Mode, op: FileOp, d: Disk, was: Inode, d': Disk, held: Inode,
          stored: Inode)
    requires s.books.ledger.Balanced(geo) && Live(geo, d) && Live(geo, d')
  {
    && Content(geo, d', held) == Remains(geo, s, mode, op)
    && (Conserved(geo, d, was.extents, d', stored.extents) <==> !Loses(geo, s, mode, op))
  }

  lemma StoppedFromBefore(geo: Geometry, s: Session, mode: Mode, op: FileOp, a: Disk, first: Inode, b: Disk, was: Inode,
          c: Disk, held: Inode, stored: Inode, ino: nat)
    requires s.books.ledger.Balanced(geo) && Live(geo, a) && Live(geo, b) && Live(geo, c)
    requires OthersSafe(geo, a, first, b, was, ino) && Stopped(geo, s, mode, op, b, was, c, held, stored)
    ensures Stopped(geo, s, mode, op, a, first, c, held, stored)
  {
    hide Conserved, Loses, Remains, Content;
    ConservedOn(geo, a, first.extents, b, was.extents, c, stored.extents);
  }

  lemma WriteStopped(geo: Geometry, s: Session, mode: Mode, data: seq<Byte>, d: Disk, was: Inode, d': Disk, ino: nat,
          held: Inode)
    requires Live(geo, d) && Live(geo, d') && Owns(geo, d', ino, held) &&
             Conserved(geo, d, was.extents, d', held.extents)
    requires s.books == Books(d.ledger, was.extents) && s.file.bytes == Content(geo, d, was)
    requires Workable(geo, s.books) && geo.blockSize > 0 && Stops(geo, s, mode, Writes(data))
    requires var at := WriteAt(s.file, mode);
             && at + |data| <= FileLimit(geo) && Written(geo, d, was, d', held, at, data, false)
             && held.extents == Filled(geo, s.books, at, |data|).books.extents
    ensures Stopped(geo, s, mode, Writes(data), d, was, d', held, was)
  {
    hide Conserved, Filled, Owns, Workable, FileLimit, Splice, StoredPart, ZeroTail, Shows, Content;
    WriteLosesIff(geo, d, was, d', ino, held, WriteAt(s.file, mode), |data|);
  }

  lemma GrowthStopped(geo: Geometry, s: Session, mode: Mode, size: nat, d: Disk, was: Inode, d': Disk, ino: nat,
          held: Inode, stored: Inode)
    requires Live(geo, d) && Live(geo, d') && Owns(geo, d', ino, held) &&
             Conserved(geo, d, was.extents, d', held.extents)
    requires s.books == Books(d.ledger, was.extents) && s.file.bytes == Content(geo, d, was)
    requires Workable(geo, s.books) && geo.blockSize > 0 && Stops(geo, s, mode, Truncates(size)) &&
             size <= FileLimit(geo)
    requires held.extents == Filled(geo, s.books, was.size, Growth(was.size, size)).books.extents
    requires var kept := GrowthKept(geo, s.books, was.size, Growth(was.size, size));
             && Content(geo, d', held) == s.file.bytes + Zeros(kept)
             && if kept == 0 then stored == was
                else stored.extents == Filled(geo, s.books, was.size, kept).books.extents
    ensures Stopped(geo, s, mode, Truncates(size), d, was, d', held, stored)
  {
    hide Conserved, Filled, Owns, Workable, FileLimit, GrowthKept, Content;
    assert |s.file.bytes| == was.size by { ContentSize(geo, d, was); }
    FilledNone(geo, s.books, was.size);
    GrowthFits(geo, was.size, size);
    GrowthLosesIff(geo, d, was, d', ino, held, Growth(was.size, size));
  }

  lemma StopGrows(geo: Geometry, b: Books, size: nat, next: nat)
    requires b.ledger.Balanced(geo) && Filled(geo, b, size, Growth(size, next)).status != Ok
    ensures next > size && TruncatedBooks(geo, b, size, next) == Filled(geo, b, size, Growth(size, next)).books
  {
    FilledNone(geo, b, size);
  }

  lemma GrowthFits(geo: Geometry, size: nat, next: nat)
    requires next <= FileLimit(geo)
    ensures next > size ==> size + Growth(size, next) <= FileLimit(geo)
  {}

  /** One operation.  It is carried out exactly when it does not stop for want of space; whether it
      does, what it takes and whether it loses blocks is settled beforehand by the free blocks, the
      extent list and the file.  Everybody else's blocks and bytes are as before in any case. */
  method Perform(v: Volume, h: Handle, op: FileOp) returns (ok: bool, answer: Answer, next: Handle, ghost held: Inode)
    requires InStep(v, h) && InReach(Shown(v, h), ModeOf(h), op, FileLimit(v.geo))
    modifies h`position, h`inode, v`ledger, v`blocks, v`owner, v`inodes
    ensures next.ino == h.ino && ModeOf(next) == ModeOf(h) && (next == h || fresh(next))
    ensures Sound(v.geo, Snap(v), v.inodes, h.ino, held)
    ensures OthersSafe(v.geo, old(Snap(v)), old(h.inode), Snap(v), held, h.ino)
    ensures OnlyEntry(old(v.inodes), v.inodes, h.ino)
    ensures Books(v.ledger, held.extents) == NextBooks(v.geo, old(SessionOf(v, h)), ModeOf(h), op)
    ensures ok <==> !Stops(v.geo, old(SessionOf(v, h)), ModeOf(h), op)
    ensures ok ==>
              InStep(v, next) && next.inode == held
              && (Shown(v, next), answer) == Does(old(Shown(v, h)), ModeOf(h), op)
    ensures !ok ==>
              Stopped(v.geo, old(SessionOf(v, h)), ModeOf(h), op, old(Snap(v)), old(h.inode), Snap(v), held,
                  v.inodes[h.ino])
  {
    hide ZeroTail, Untouched, Conserved, Owns, OthersOwn, FileLimit, Filled, TruncatedBooks, GrowthKept, Stopped;
    ghost var d, was := Snap(v), h.inode;
    OthersSafeSelf(v.geo, d, was, h.ino);
    next, held := h, h.inode;
    match op {
      case Reads(size) =>
        var buffer := h.Read(v, size);
        return true, Got(buffer), h, h.inode;
      case Writes(data) =>
        ok, answer := DoWrite(v, h, data);
        held := h.inode;
      case Seeks(offset, origin) =>
        var status := h.Seek(offset, origin);
        return true, if status == Ok then Done else Refused, h, h.inode;
      case Truncates(size) =>
        ok, answer, next, held := DoTruncate(v, h, size);
    }
  }

  method DoTruncate(v: Volume, h: Handle, size: nat) returns (ok: bool, answer: Answer, next: Handle, ghost held: Inode)
    requires InStep(v, h) && InReach(Shown(v, h), ModeOf(h), Truncates(size), FileLimit(v.geo))
    modifies v`ledger, v`blocks, v`owner, v`inodes
    ensures next.ino == h.ino && ModeOf(next) == ModeOf(h) && (next == h || fresh(next))
    ensures Sound(v.geo, Snap(v), v.inodes, h.ino, held)
    ensures OthersSafe(v.geo, old(Snap(v)), h.inode, Snap(v), held, h.ino)
    ensures OnlyEntry(old(v.inodes), v.inodes, h.ino)
    ensures Books(v.ledger, held.extents) == NextBooks(v.geo, old(SessionOf(v, h)), ModeOf(h), Truncates(size))
    ensures ok <==> !Stops(v.geo, old(SessionOf(v, h)), ModeOf(h), Truncates(size))
    ensures ok ==>
              InStep(v, next) && next.inode == held
              && (Shown(v, next), answer) == Does(old(Shown(v, h)), ModeOf(h), Truncates(size))
    ensures !ok ==>
              Stopped(v.geo, old(SessionOf(v, h)), ModeOf(h), Truncates(size), old(Snap(v)), h.inode, Snap(v), held,
                      v.inodes[h.ino])
  {
    hide ZeroTail, Untouched, Conserved, Owns, OthersOwn, FileLimit, Filled, TruncatedBooks, GrowthKept, Stopped,
         Workable,
         Content, ByteAt, Live, Ledger.Balanced;
    ghost var d, was, s := Snap(v), h.inode, SessionOf(v, h);
    SoundWorkable(v.geo, d, v.inodes, h.ino, h.inode);
    if h.inode.size < size { StallsIff(size - h.inode.size); }
    var status, inode := TruncateInode(v, h.ino, v.inodes[h.ino], size);
    held := inode;
    next, answer, ok := h, Refused, status == Ok;
    if status != Ok {
      StopGrows(v.geo, s.books, was.size, size);
      GrowthStopped(v.geo, s, ModeOf(h), size, d, was, Snap(v), h.ino, inode, v.inodes[h.ino]);
      return;
    }
    answer := Done;
    next := new Handle(v, h.ino, h.writable, h.append);
  }

  method DoWrite(v: Volume, h: Handle, data: seq<Byte>) returns (ok: bool, answer: Answer)
    requires InStep(v, h) && InReach(Shown(v, h), ModeOf(h), Writes(data), FileLimit(v.geo))
    modifies h`position, h`inode, v`ledger, v`blocks, v`owner, v`inodes
    ensures h.Valid(v) && OthersSafe(v.geo, old(Snap(v)), old(h.inode), Snap(v), h.inode, h.ino)
    ensures OnlyEntry(old(v.inodes), v.inodes, h.ino)
    ensures Books(v.ledger, h.inode.extents) == NextBooks(v.geo, old(SessionOf(v, h)), ModeOf(h), Writes(data))
    ensures ok <==> !Stops(v.geo, old(SessionOf(v, h)), ModeOf(h), Writes(data))
    ensures ok ==> InStep(v, h) && (Shown(v, h), answer) == Does(old(Shown(v, h)), ModeOf(h), Writes(data))
    ensures !ok ==>
              Stopped(v.geo, old(SessionOf(v, h)), ModeOf(h), Writes(data), old(Snap(v)), old(h.inode), Snap(v),
                  h.inode,
                      v.inodes[h.ino])
  {
    hide ZeroTail, Untouched, Conserved, Owns, OthersOwn, FileLimit, Filled, Stopped, StoredPart, Shows, Splice,
         Workable;
    ghost var d, was, s := Snap(v), h.inode, SessionOf(v, h);
    SoundWorkable(v.geo, d, v.inodes, h.ino, h.inode);
    if !h.writable {
      OthersSafeSelf(v.geo, Snap(v), h.inode, h.ino);
      return true, Refused;
    }
    var status, done := h.Write(v, data);
    ok, answer := status == Ok, Wrote(done);
    if !ok { WriteStopped(v.geo, s, ModeOf(h), data, d, was, Snap(v), h.ino, h.inode); }
  }

  /** Any run of operations answers as the sequence of bytes does and leaves what it leaves, exactly as
      far as `Lasts` says: up to the first write or growth that needs a block which cannot be mapped.
      All along, other files keep their bytes and blocks, and the blocks in use besides this file's
      are the same. */
  method Replay(v: Volume, h: Handle, ops: seq<FileOp>)
    returns (answers: seq<Answer>, last: Handle, ghost held: Inode)
    requires InStep(v, h) && AllInReach(Shown(v, h), ModeOf(h), ops, FileLimit(v.geo))
    modifies h`position, h`inode, v`ledger, v`blocks, v`owner, v`inodes
    ensures |answers| == Lasts(v.geo, old(SessionOf(v, h)), ModeOf(h), ops)
    ensures answers == DoesAll(old(Shown(v, h)), ModeOf(h), ops[..|answers|]).1
    ensures last.ino == h.ino && Sound(v.geo, Snap(v), v.inodes, h.ino, held)
    ensures OthersSafe(v.geo, old(Snap(v)), old(h.inode), Snap(v), held, h.ino)
    ensures OnlyEntry(old(v.inodes), v.inodes, h.ino)
    ensures var end := Reached(v.geo, old(SessionOf(v, h)), ModeOf(h), ops);
            if |answers| == |ops|
            then InStep(v, last) && last.inode == held && SessionOf(v, last) == end
            else Stopped(v.geo, end, ModeOf(h), ops[|answers|], old(Snap(v)), old(h.inode), Snap(v), held,
                v.inodes[h.ino])
    decreases |ops|
  {
    hide InStep, InReach, Does, OthersSafe, Sound, Stops, Stopped, NextBooks;
    SoundStart(v, h);
    if ops == [] { return [], h, h.inode; }
    ghost var s, mode, d, was := SessionOf(v, h), ModeOf(h), Snap(v), h.inode;
    var ok, first, next;
    ok, first, next, held := Perform(v, h, ops[0]);
    SoundLive(v.geo, Snap(v), v.inodes, h.ino, held);
    if !ok { return [], next, held; }
    ghost var mid, between := Snap(v), held;
    SoundStart(v, next);
    var rest;
    rest, last, held := Replay(v, next, ops[1..]);
    answers := [first] + rest;
    SoundLive(v.geo, Snap(v), v.inodes, h.ino, held);
    OthersSafeTrans(v.geo, d, was, mid, between, Snap(v), held, h.ino);
    assert ops[..|answers|][1..] == ops[1..][..|rest|];
    if |answers| < |ops| {
      StoppedFromBefore(v.geo, Reached(v.geo, s, mode, ops), mode, ops[|answers|], d, was, mid, between, Snap(v), held,
                        v.inodes[h.ino], h.ino);
    }
  }

  lemma SoundStart(v: Volume, h: Handle)
    requires InStep(v, h)
    ensures Live(v.geo, Snap(v)) && Sound(v.geo, Snap(v), v.inodes, h.ino, h.inode) && h.Valid(v)
    ensures OthersSafe(v.geo, Snap(v), h.inode, Snap(v), h.inode, h.ino)
  {
    OthersSafeSelf(v.geo, Snap(v), h.inode, h.ino);
  }

  lemma SoundLive(geo: Geometry, d: Disk, inodes: seq<Inode>, ino: nat, inode: Inode)
    requires Sound(geo, d, inodes, ino, inode)
    ensures Live(geo, d) && ino < |inodes|
  {}
}
