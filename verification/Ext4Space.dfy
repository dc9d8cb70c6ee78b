/** What decides whether a file can have another block: the free blocks and its own extent list. The
    functions here say beforehand how far the mapping of a range of blocks gets and what it takes. */
module Ext4Space {
  import opened Arithmetic
  import opened Bytes
  import opened Ext4Common
  import opened Ext4Volume
  import opened Ext4Extents

  datatype Books = Books(ledger: Ledger, extents: seq<Extent>)

  datatype Mapping = Mapping(status: Status, books: Books)

  /** One logical block: a hole takes the lowest free block, if there is one and the extent list has
      a place for it. */
  ghost function MapOne(geo: Geometry, b: Books, l: nat): (r: Mapping)
    requires b.ledger.Balanced(geo)
    ensures r.books.ledger.Balanced(geo) && (r.status != Ok ==> r.books == b)
  {
    var p := b.ledger.LowestFree(geo, geo.first);
    if Phys(b.extents, l) != 0 then Mapping(Ok, b)
    else if p == geo.total then Mapping(NoMemory, b)
    else if !CanMap(b.extents, l, p) then Mapping(NotSupported, b)
    else Mapping(Ok, Books(b.ledger.Toggle(geo, p), WithBlock(b.extents, l, p)))
  }

  /** How far the blocks from `l` up to `end` can be mapped, one after another. */
  datatype Fill = Fill(stop: nat, status: Status, books: Books)

  ghost function MapRange(geo: Geometry, b: Books, l: nat, end: nat): (r: Fill)
    requires b.ledger.Balanced(geo)
    ensures r.books.ledger.Balanced(geo) && l <= r.stop && (l <= end ==> r.stop <= end)
    ensures r.status == Ok ==> r.stop >= end
    ensures r.status != Ok ==> r.stop < end
    decreases if l <= end then end - l else 0
  {
    var one := MapOne(geo, b, l);
    if l >= end then Fill(l, Ok, b)
    else if one.status != Ok then Fill(l, one.status, b)
    else MapRange(geo, one.books, l + 1, end)
  }

  lemma {:induction false} MapRangeSplits(geo: Geometry, b: Books, l: nat, m: nat, end: nat)
    requires b.ledger.Balanced(geo) && l <= m <= end
    ensures var a := MapRange(geo, b, l, m);
            MapRange(geo, b, l, end) == if a.status == Ok then MapRange(geo, a.books, m, end) else a
    decreases m - l
  {
    if l < m && MapOne(geo, b, l).status == Ok { MapRangeSplits(geo, MapOne(geo, b, l).books, l + 1, m, end); }
  }

  // ----- what a range takes

  /** How many blocks from `l` up to `end` are holes. */
  function Holes(es: seq<Extent>, l: nat, end: nat): nat
    decreases if l <= end then end - l else 0
  {
    if l >= end then 0 else Holes(es, l + 1, end) + if Phys(es, l) == 0 then 1 else 0
  }

  lemma {:induction false} HolesSame(es: seq<Extent>, es': seq<Extent>, l: nat, end: nat)
    requires forall m: nat :: l <= m < end ==> (Phys(es, m) == 0 <==> Phys(es', m) == 0)
    ensures Holes(es, l, end) == Holes(es', l, end)
    decreases if l <= end then end - l else 0
  {
    if l < end { HolesSame(es, es', l + 1, end); }
  }

  lemma {:induction false} NoHoles(es: seq<Extent>, l: nat, end: nat)
    ensures Holes(es, l, end) == 0 <==> forall m: nat :: l <= m < end ==> Phys(es, m) != 0
    decreases if l <= end then end - l else 0
  {
    if l < end { NoHoles(es, l + 1, end); }
  }

  lemma {:induction false} SumZero(s: seq<nat>)
    ensures Sum(s) == 0 <==> forall g :: 0 <= g < |s| ==> s[g] == 0
  {
    if s != [] {
      var t := s[..|s| - 1];
      SumZero(t);
      assert forall g :: 0 <= g < |t| ==> t[g] == s[g];
    }
  }

  /** The superblock counts no free block exactly when there is none. */
  lemma NoneFree(geo: Geometry, l: Ledger)
    requires l.Balanced(geo)
    ensures l.superFree == 0 <==> l.LowestFree(geo, geo.first) == geo.total
  {
    SumZero(l.groupFree);
    var p := l.LowestFree(geo, geo.first);
    forall g | 0 <= g < |l.bitmap| ensures l.groupFree[g] == 0 <==> forall i :: 0 <= i < geo.Cap(g) ==> l.bitmap[g][i] {
      ClearCountZero(l.bitmap[g], geo.Cap(g));
    }
    if p < geo.total {
      geo.Locate(p);
      assert !l.bitmap[geo.GroupOf(p)][geo.BitOf(p)];
    } else {
      forall g, i | 0 <= g < |l.bitmap| && 0 <= i < geo.Cap(g) ensures l.bitmap[g][i] {
        geo.Unlocate(g, i);
        assert l.Used(geo, geo.Number(g, i));
      }
    }
  }

  /** The list after one more block is mapped, and the number of free blocks. */
  lemma MapOneTakes(geo: Geometry, b: Books, l: nat)
    requires b.ledger.Balanced(geo) && Sorted(b.extents) && l + 1 < U32 && (geo.first == 0 ==> b.ledger.Used(geo, 0))
    ensures var r := MapOne(geo, b, l);
            && Sorted(r.books.extents) && (geo.first == 0 ==> r.books.ledger.Used(geo, 0))
            && (r.status == Ok ==>
                  && Phys(r.books.extents, l) != 0
                  && (forall m: nat :: m != l ==> Phys(r.books.extents, m) == Phys(b.extents, m))
                  && r.books.ledger.superFree == b.ledger.superFree - if Phys(b.extents, l) == 0 then 1 else 0)
            && (r.status != Ok ==>
                  Phys(b.extents, l) == 0 && r.books == b && (r.status == NoMemory <==> b.ledger.superFree == 0))
  {
    NoneFree(geo, b.ledger);
    var p := b.ledger.LowestFree(geo, geo.first);
    if Phys(b.extents, l) == 0 && p < geo.total && CanMap(b.extents, l, p) {
      WithBlockAdds(b.extents, l, p);
      geo.Locate(p);
      b.ledger.ToggleMovesOne(geo, p);
    }
  }

  lemma WithBlockAdds(es: seq<Extent>, l: nat, p: nat)
    requires Sorted(es) && Phys(es, l) == 0 && p > 0 && l + 1 < U32 && CanMap(es, l, p)
    ensures AddsPair(es, WithBlock(es, l, p), l, p)
  {
    hide Sorted, Phys, AddsPair, InsertedAt, SlotFor;
    var i, k := Continued(es, l, p, 0), SlotFor(es, l, |es|);
    if i < |es| {
      MergeAddsPair(es, i, l, p);
    } else {
      SlotSplits(es, l, |es|);
      InsertForm(es, k, Extent(l, 1, p));
      InsertAddsPair(es, es[..k] + [Extent(l, 1, p)] + es[k..], k, l, p);
    }
  }

  lemma InsertForm(es: seq<Extent>, k: nat, e: Extent)
    requires k <= |es|
    ensures InsertedAt(es, es[..k] + [e] + es[k..], k, e)
  {}

  lemma {:induction false} SlotSplits(es: seq<Extent>, l: nat, k: nat)
    requires Sorted(es) && k <= |es|
    ensures var s := SlotFor(es, l, k);
            (forall j :: 0 <= j < s ==> es[j].block <= l) && (forall j :: s <= j < k ==> es[j].block > l)
  {
    if k > 0 {
      if es[k - 1].block > l {
        SlotSplits(es, l, k - 1);
      } else {
        forall j | 0 <= j < k ensures es[j].block <= l {
          if j < k - 1 { assert Proper(es[j]) && es[j].block + es[j].len <= es[k - 1].block; }
        }
      }
    }
  }

  /** A list that can be worked on, on a volume whose block 0, if it is one of its blocks, is taken. */
  ghost predicate Workable(geo: Geometry, b: Books) {
    b.ledger.Balanced(geo) && Sorted(b.extents) && (geo.first == 0 ==> b.ledger.Used(geo, 0))
  }

  lemma MapOneWorks(geo: Geometry, b: Books, l: nat)
    requires Workable(geo, b) && l + 1 < U32
    ensures Workable(geo, MapOne(geo, b, l).books)
    ensures var r := MapOne(geo, b, l);
            && (r.status == Ok ==> Phys(r.books.extents, l) != 0)
            && (r.status != Ok ==> Phys(b.extents, l) == 0 && r.books == b)
            && (Phys(b.extents, l) != 0 ==> r.books == b)
            && forall m: nat :: m != l ==> Phys(r.books.extents, m) == Phys(b.extents, m)
  {
    MapOneTakes(geo, b, l);
  }

  /** The blocks of the range up to where it stops are mapped, no other block moves, and it stops at
      a hole. */
  lemma {:induction false} MapRangeMaps(geo: Geometry, b: Books, l: nat, end: nat)
    requires Workable(geo, b) && l <= end < U32
    ensures var r := MapRange(geo, b, l, end);
            && Workable(geo, r.books)
            && (forall m: nat :: l <= m < r.stop ==> Phys(r.books.extents, m) != 0)
            && (forall m: nat :: m < l || r.stop <= m ==> Phys(r.books.extents, m) == Phys(b.extents, m))
            && (forall m: nat :: Phys(b.extents, m) != 0 ==> Phys(r.books.extents, m) == Phys(b.extents, m))
            && (r.status != Ok ==> Phys(b.extents, r.stop) == 0)
    decreases end - l
  {
    hide MapOne, Phys, Sorted, Ledger.Balanced;
    if l < end {
      MapOneWorks(geo, b, l);
      var one := MapOne(geo, b, l);
      if one.status == Ok { MapRangeMaps(geo, one.books, l + 1, end); }
    }
  }

  lemma MapOneCounts(geo: Geometry, b: Books, l: nat)
    requires Workable(geo, b) && l + 1 < U32
    ensures var r := MapOne(geo, b, l);
            && r.books.ledger.superFree ==
               b.ledger.superFree - (if r.status == Ok && Phys(b.extents, l) == 0 then 1 else 0)
            && (r.status != Ok ==> (r.status == NoMemory <==> b.ledger.superFree == 0))
  {
    MapOneTakes(geo, b, l);
  }

  /** Mapping a range takes one free block for each hole up to where it stops; it stops for want of
      memory exactly when those holes took all there was, and otherwise because the extent list has
      no place. */
  lemma {:induction false} MapRangeTakes(geo: Geometry, b: Books, l: nat, end: nat)
    requires Workable(geo, b) && l <= end < U32
    ensures var r := MapRange(geo, b, l, end);
            && r.books.ledger.superFree == b.ledger.superFree - Holes(b.extents, l, r.stop)
            && (r.status != Ok ==> (r.status == NoMemory <==> Holes(b.extents, l, r.stop) == b.ledger.superFree))
    decreases end - l
  {
    hide MapOne, Phys, Sorted, Ledger.Balanced;
    if l < end {
      var one := MapOne(geo, b, l);
      MapOneWorks(geo, b, l);
      MapOneCounts(geo, b, l);
      if one.status == Ok {
        MapRangeTakes(geo, one.books, l + 1, end);
        HolesSame(b.extents, one.books.extents, l + 1, MapRange(geo, b, l, end).stop);
      }
    }
  }

  // ----- bytes

  /** The block behind the last that n bytes from `a` on touch. */
  function BlockEnd(bs: nat, a: nat, n: nat): (e: nat)
    requires bs > 0
    ensures e >= a / bs
  {
    if n == 0 then a / bs else BlockMonotone(bs, a, a + n - 1); (a + n - 1) / bs + 1
  }

  lemma BlockMonotone(bs: nat, a: nat, c: nat)
    requires bs > 0 && a <= c
    ensures a / bs <= c / bs
  {
    assert a == a / bs * bs + a % bs && c == c / bs * bs + c % bs;
    if c / bs < a / bs { MulStep(c / bs, a / bs, bs); }
  }

  /** What becomes of a write of n bytes at `a`. */
  ghost function Filled(geo: Geometry, b: Books, a: nat, n: nat): (r: Fill)
    requires b.ledger.Balanced(geo)
    ensures r.books.ledger.Balanced(geo) && a / geo.blockSize <= r.stop <= BlockEnd(geo.blockSize, a, n)
  {
    MapRange(geo, b, a / geo.blockSize, BlockEnd(geo.blockSize, a, n))
  }

  /** How much of the bytes from `a` on lies before a block. */
  function BytesBefore(bs: nat, stop: nat, a: nat): nat { if stop * bs <= a then 0 else stop * bs - a }

  /** How many of them reach the file. */
  ghost function StoredBytes(geo: Geometry, b: Books, a: nat, n: nat): (r: nat)
    requires b.ledger.Balanced(geo)
    ensures r <= n
  {
    var f := Filled(geo, b, a, n);
    if f.status == Ok then n else StopsInside(geo.blockSize, a, n, f.stop); BytesBefore(geo.blockSize, f.stop, a)
  }

  lemma StopsInside(bs: nat, a: nat, n: nat, stop: nat)
    requires bs > 0 && stop < BlockEnd(bs, a, n)
    ensures BytesBefore(bs, stop, a) <= n
  {
    if n == 0 {
      assert a == a / bs * bs + a % bs;
      if stop < a / bs { MulStep(stop, a / bs, bs); }
    } else {
      var last := a + n - 1;
      assert last == last / bs * bs + last % bs;
      if stop < last / bs { MulStep(stop, last / bs, bs); }
    }
  }

  // ----- releasing

  /** The ledger once the blocks mapped from `f` up to `end` are free. */
  ghost function Freed(geo: Geometry, ledger: Ledger, es: seq<Extent>, f: nat, end: nat): (r: Ledger)
    requires ledger.Balanced(geo)
    ensures r.Balanced(geo)
    decreases end
  {
    if end <= f then ledger
    else
      var before, p := Freed(geo, ledger, es, f, end - 1), Phys(es, end - 1);
      if p != 0 && geo.first <= p < geo.total && before.Used(geo, p) then before.Toggle(geo, p) else before
  }

  lemma {:induction false} FreedSkips(geo: Geometry, ledger: Ledger, es: seq<Extent>, f: nat, a: nat, b: nat)
    requires ledger.Balanced(geo) && a <= b
    requires forall l: nat :: a <= l < b && f <= l ==> Phys(es, l) == 0
    ensures Freed(geo, ledger, es, f, b) == Freed(geo, ledger, es, f, a)
    decreases b
  {
    if a < b { FreedSkips(geo, ledger, es, f, a, b - 1); }
  }

  /** What cutting a file at block `f` leaves. */
  ghost function CutBooks(geo: Geometry, b: Books, f: nat): (r: Books)
    requires b.ledger.Balanced(geo)
    ensures r.ledger.Balanced(geo)
  {
    Books(Freed(geo, b.ledger, b.extents, f, Last(b.extents)), Keep(b.extents, f))
  }

  // ----- writes one after another

  lemma BlocksHaveBytes(geo: Geometry, b: Books)
    requires b.ledger.Balanced(geo)
    ensures geo.blockSize > 0
  {}

  /** Where bytes that follow begin: in the block behind those before, or inside the last of them. */
  lemma BlockJoins(bs: nat, a: nat, m: nat, k: nat)
    requires bs > 0
    ensures k > 0 ==> BlockEnd(bs, a + m, k) == BlockEnd(bs, a, m + k)
    ensures m > 0 ==>
              var e, l := BlockEnd(bs, a, m), (a + m) / bs;
              && a / bs < e && a + m <= e * bs && (l == e || (l == e - 1 && a / bs <= l))
  {
    if m > 0 {
      var last := a + m - 1;
      BlockMonotone(bs, a, last);
      assert last == last / bs * bs + last % bs;
      assert (last / bs + 1) * bs == last / bs * bs + bs;
      if last % bs == bs - 1 {
        DivUnique(last / bs + 1, 0, bs);
      } else {
        assert a + m == last / bs * bs + (last % bs + 1);
        DivUnique(last / bs, last % bs + 1, bs);
      }
    }
  }

  /** A write and the one behind it go as far as both in one. */
  lemma FilledMore(geo: Geometry, b: Books, a: nat, m: nat, k: nat)
    requires Workable(geo, b) && BlockEnd(geo.blockSize, a, m + k) < U32 && Filled(geo, b, a, m).status == Ok
    ensures var f, g := Filled(geo, b, a, m + k), Filled(geo, Filled(geo, b, a, m).books, a + m, k);
            f.status == g.status && f.books == g.books && (g.status != Ok ==> f.stop == g.stop)
  {
    hide MapOne, Phys, Sorted, Ledger.Balanced, BlockEnd;
    BlocksHaveBytes(geo, b);
    var bs := geo.blockSize;
    var e, end, l := BlockEnd(bs, a, m), BlockEnd(bs, a, m + k), (a + m) / bs;
    var now := Filled(geo, b, a, m).books;
    EndOfNothing(bs, a + m);
    EndOfNothing(bs, a);
    BlockJoins(bs, a, m, k);
    if k > 0 && m > 0 {
      EndMonotone(bs, a, m, k);
      MapRangeSplits(geo, b, a / bs, e, end);
      MapRangeMaps(geo, b, a / bs, e);
      if l < e { AlreadyMapped(geo, now, l, end); }
    }
  }

  lemma EndOfNothing(bs: nat, a: nat)
    requires bs > 0
    ensures BlockEnd(bs, a, 0) == a / bs
  {}

  lemma EndMonotone(bs: nat, a: nat, m: nat, k: nat)
    requires bs > 0
    ensures BlockEnd(bs, a, m) <= BlockEnd(bs, a, m + k)
  {
    if m > 0 { BlockMonotone(bs, a + m - 1, a + m + k - 1); }
  }

  lemma AlreadyMapped(geo: Geometry, b: Books, l: nat, end: nat)
    requires b.ledger.Balanced(geo) && Phys(b.extents, l) != 0 && l < end
    ensures MapRange(geo, b, l, end) == MapRange(geo, b, l + 1, end)
  {
    assert MapOne(geo, b, l) == Mapping(Ok, b);
  }

  // ----- growing

  const GROW_CHUNK := 4096

  /** How much of a growth by n bytes lasts: growing stores the inode every so many bytes. */
  ghost function GrowthKept(geo: Geometry, b: Books, s: nat, n: nat): (r: nat)
    requires b.ledger.Balanced(geo)
    ensures r <= n
  {
    if Filled(geo, b, s, n).status == Ok then n else StoredBytes(geo, b, s, n) / GROW_CHUNK * GROW_CHUNK
  }

  /** A growth stops inside the chunk whose write fails. */
  lemma KeptWhenStopped(geo: Geometry, b: Books, s: nat, n: nat, done: nat, copy: nat)
    requires Workable(geo, b) && BlockEnd(geo.blockSize, s, n) < U32
    requires done % GROW_CHUNK == 0 && copy <= GROW_CHUNK && done + copy <= n
    requires Filled(geo, b, s, done).status == Ok &&
             Filled(geo, Filled(geo, b, s, done).books, s + done, copy).status != Ok
    ensures var g := Filled(geo, Filled(geo, b, s, done).books, s + done, copy);
            && Filled(geo, b, s, n).status == g.status && Filled(geo, b, s, n).books == g.books
            && Filled(geo, b, s, n).stop == g.stop
            && GrowthKept(geo, b, s, n) == done
  {
    hide MapOne, Phys, Sorted, Ledger.Balanced, BlockEnd, MapRange;
    BlocksHaveBytes(geo, b);
    var bs := geo.blockSize;
    EndMonotone(bs, s, done + copy, n - done - copy);
    FilledMore(geo, b, s, done, copy);
    StoppedEarly(geo, b, s, done + copy, n);
    var stop := Filled(geo, b, s, n).stop;
    StopsBeyond(geo, b, s, done, copy);
    StopsInside(bs, s, done + copy, stop);
    InChunk(StoredBytes(geo, b, s, n), done, copy);
  }

  lemma InChunk(stored: nat, done: nat, copy: nat)
    requires done % GROW_CHUNK == 0 && done <= stored < done + copy && copy <= GROW_CHUNK
    ensures stored / GROW_CHUNK * GROW_CHUNK == done
  {}

  /** What stops the beginning stops the whole. */
  lemma StoppedEarly(geo: Geometry, b: Books, s: nat, m: nat, n: nat)
    requires b.ledger.Balanced(geo) && m <= n && Filled(geo, b, s, m).status != Ok
    ensures Filled(geo, b, s, n) == Filled(geo, b, s, m)
  {
    var bs := geo.blockSize;
    EndMonotone(bs, s, m, n - m);
    MapRangeSplits(geo, b, s / bs, BlockEnd(bs, s, m), BlockEnd(bs, s, n));
  }

  /** A write that fails does so behind what was written before it, and before its own end. */
  lemma StopsBeyond(geo: Geometry, b: Books, s: nat, done: nat, copy: nat)
    requires Workable(geo, b) && BlockEnd(geo.blockSize, s, done + copy) < U32
    requires Filled(geo, b, s, done).status == Ok
    requires Filled(geo, Filled(geo, b, s, done).books, s + done, copy).status != Ok
    ensures var stop := Filled(geo, Filled(geo, b, s, done).books, s + done, copy).stop;
            done <= BytesBefore(geo.blockSize, stop, s) < done + copy
  {
    hide MapOne, Phys, Sorted, Ledger.Balanced;
    BlocksHaveBytes(geo, b);
    var bs, now := geo.blockSize, Filled(geo, b, s, done).books;
    var e, g := BlockEnd(bs, s, done), Filled(geo, Filled(geo, b, s, done).books, s + done, copy);
    EndOfNothing(bs, s + done);
    BlockJoins(bs, s, done, copy);
    EndMonotone(bs, s, done, copy);
    MapRangeMaps(geo, b, s / bs, e);
    MapRangeMaps(geo, now, (s + done) / bs, BlockEnd(bs, s + done, copy));
    LastByte(bs, s + done, copy, g.stop);
    if done > 0 && g.stop > e { MulStep(e, g.stop, bs); }
  }

  lemma LastByte(bs: nat, a: nat, n: nat, stop: nat)
    requires bs > 0 && n > 0 && stop < BlockEnd(bs, a, n)
    ensures stop * bs < a + n
  {
    var last := a + n - 1;
    assert last == last / bs * bs + last % bs;
    if stop < last / bs { MulStep(stop, last / bs, bs); }
  }
}
