/** Truncation and the open-file operations: together with reading and writing they make an
    inode behave as one byte sequence. */
module Ext4Handle {
  import opened Arithmetic
  import opened Bytes
  import opened Ext4Common
  import opened Ext4Volume
  import opened Ext4Extents
  import opened Ext4Space
  import opened Ext4File

  // ----- releasing the tail of a file

  /** Block x answers for a logical block from f up to `bound` of this file. */
  ghost predicate Doomed(d: Disk, ino: nat, es: seq<Extent>, f: nat, bound: nat, x: nat) {
    x != 0 && x in d.owner && d.owner[x].0 == ino && f <= d.owner[x].1 < bound && Phys(es, d.owner[x].1) == x
  }

  /** Exactly the doomed blocks have been released. */
  ghost predicate Cut(geo: Geometry, d: Disk, d': Disk, ino: nat, es: seq<Extent>, f: nat, bound: nat)
    requires Live(geo, d)
  {
    && d'.ledger.Balanced(geo) && d'.blocks == d.blocks && d'.owner == d.owner
    && d'.ledger == Freed(geo, d.ledger, es, f, bound)
    && forall x: nat {:trigger InUse(geo, d', x)} {:trigger InUse(geo, d, x)} ::
         InUse(geo, d', x) == (InUse(geo, d, x) && !Doomed(d, ino, es, f, bound, x))
  }

  lemma GapUnmapped(es: seq<Extent>, i: nat, l: nat)
    requires Sorted(es) && i < |es| && Last(es[..i]) <= l < es[i].block
    ensures Phys(es, l) == 0
  {
    forall k | 0 <= k < |es| ensures !Holds(es[k], l) {
      assert Proper(es[k]);
      if k < i - 1 { assert es[k].block + es[k].len <= es[i - 1].block && Proper(es[i - 1]); }
      if k > i { assert es[i].block + es[i].len <= es[k].block && Proper(es[i]); }
    }
    PhysMiss(es, l);
  }

  lemma CutOneMore(geo: Geometry, d: Disk, c: Disk, ino: nat, inode: Inode, f: nat, l: nat)
    requires Live(geo, d) && Owns(geo, d, ino, inode) && Cut(geo, d, c, ino, inode.extents, f, l)
    requires f <= l && Phys(inode.extents, l) != 0
    ensures var p := Phys(inode.extents, l);
            geo.first <= p < geo.total && c.ledger.Used(geo, p)
            && Cut(geo, d, c.(ledger := c.ledger.Toggle(geo, p)), ino, inode.extents, f, l + 1)
  {
    var p := Phys(inode.extents, l);
    assert InUse(geo, d, p) && d.owner[p] == (ino, l);
    assert InUse(geo, c, p);
    c.ledger.ToggleMovesOne(geo, p);
    var e := c.(ledger := c.ledger.Toggle(geo, p));
    forall x: nat ensures InUse(geo, e, x) == (InUse(geo, d, x) && !Doomed(d, ino, inode.extents, f, l + 1, x)) {
      assert InUse(geo, c, x) == (InUse(geo, d, x) && !Doomed(d, ino, inode.extents, f, l, x));
    }
  }

  lemma CutWiden(geo: Geometry, d: Disk, c: Disk, ino: nat, es: seq<Extent>, f: nat, a: nat, b: nat)
    requires Live(geo, d) && Cut(geo, d, c, ino, es, f, a) && a <= b
    requires forall l: nat :: a <= l < b && f <= l ==> Phys(es, l) == 0
    ensures Cut(geo, d, c, ino, es, f, b)
  {
    FreedSkips(geo, d.ledger, es, f, a, b);
    forall x: nat ensures Doomed(d, ino, es, f, a, x) <==> Doomed(d, ino, es, f, b, x) {}
  }

  lemma PrefixStep(es: seq<Extent>, i: nat, f: nat)
    requires Sorted(es) && i < |es|
    ensures Keep(es[..i + 1], f) == Keep(es[..i], f) + Trim(es[i], f)
    ensures Mapped(es[..i + 1]) == Mapped(es[..i]) + es[i].len
    ensures Last(es[..i]) <= es[i].block && Last(es[..i + 1]) == es[i].block + es[i].len == End(es[i])
    ensures Count(es[i]) == es[i].len > 0 && Proper(es[i])
  {
    assert Proper(es[i]) && es[..i + 1][..i] == es[..i];
    if i > 0 { assert es[i - 1].block + es[i - 1].len <= es[i].block; }
  }

  method FreeOne(v: Volume, ghost ino: nat, inode: Inode, f: nat, i: nat, b: nat, ghost d: Disk)
    requires Live(v.geo, d) && Owns(v.geo, d, ino, inode) && v.Valid()
    requires i < |inode.extents| && b < inode.extents[i].len && f <= inode.extents[i].block + b
    requires Cut(v.geo, d, Snap(v), ino, inode.extents, f, inode.extents[i].block + b)
    modifies v`ledger
    ensures v.Valid() && Cut(v.geo, d, Snap(v), ino, inode.extents, f, inode.extents[i].block + b + 1)
  {
    hide Cut, Freed, Doomed;
    PhysHit(inode.extents, i, inode.extents[i].block + b);
    ghost var l, c := inode.extents[i].block + b, Snap(v);
    CutOneMore(v.geo, d, c, ino, inode, f, l);
    var status := v.FreeBlock(inode.extents[i].start + b);
    assert Snap(v) == c.(ledger := c.ledger.Toggle(v.geo, Phys(inode.extents, l)));
  }

  /** Releases the blocks of extent i behind its first `keep`. */
  method FreeExtentTail(v: Volume, ghost ino: nat, inode: Inode, f: nat, i: nat, keep: nat, ghost d: Disk)
    requires Live(v.geo, d) && Owns(v.geo, d, ino, inode) && v.Valid()
    requires i < |inode.extents| && keep <= inode.extents[i].len == Count(inode.extents[i]) &&
             f <= inode.extents[i].block + keep
    requires Cut(v.geo, d, Snap(v), ino, inode.extents, f, inode.extents[i].block + keep)
    modifies v`ledger
    ensures v.Valid() && Cut(v.geo, d, Snap(v), ino, inode.extents, f, inode.extents[i].block + inode.extents[i].len)
  {
    hide Cut, Freed, Owns, Live, Volume.Valid;
    var b := keep;
    while b < Count(inode.extents[i])
      invariant keep <= b <= Count(inode.extents[i])
      invariant v.Valid() && Cut(v.geo, d, Snap(v), ino, inode.extents, f, inode.extents[i].block + b)
    {
      FreeOne(v, ino, inode, f, i, b, d);
      b := b + 1;
    }
  }

  /** The cut reaches extent i's kept part: what lies before it is unmapped or below f. */
  lemma CutReaches(geo: Geometry, d: Disk, c: Disk, ino: nat, es: seq<Extent>, f: nat, i: nat, b: nat)
    requires Live(geo, d) && Sorted(es) && i < |es| && Cut(geo, d, c, ino, es, f, Last(es[..i]))
    requires es[i].block <= b && (b <= f || b == es[i].block) && Last(es[..i]) <= b
    ensures Cut(geo, d, c, ino, es, f, b)
  {
    forall l: nat | Last(es[..i]) <= l < b && f <= l ensures Phys(es, l) == 0 { GapUnmapped(es, i, l); }
    CutWiden(geo, d, c, ino, es, f, Last(es[..i]), b);
  }

  /** Exactly the blocks mapped from logical block f on have become free. */
  ghost predicate Released(geo: Geometry, d: Disk, c: Disk, es: seq<Extent>, f: nat)
    requires Live(geo, d) && Live(geo, c)
  {
    forall x: nat {:trigger InUse(geo, c, x)} :: InUse(geo, c, x) ==
      (InUse(geo, d, x) && !(exists l: nat :: l >= f && x != 0 && Phys(es, l) == x))
  }

  /** Bytes below logical block f are kept, those above are gone. */
  ghost predicate Restricted(geo: Geometry, d: Disk, es: seq<Extent>, c: Disk, es': seq<Extent>, f: nat)
    requires Live(geo, d) && Live(geo, c)
  {
    forall i: nat {:trigger ByteAt(geo, c, es', i)} ::
      ByteAt(geo, c, es', i) == if i / geo.blockSize < f then ByteAt(geo, d, es, i) else 0
  }

  lemma CutReleases(geo: Geometry, d: Disk, c: Disk, ino: nat, inode: Inode, f: nat)
    requires Live(geo, d) && Live(geo, c) && Owns(geo, d, ino, inode)
    requires Cut(geo, d, c, ino, inode.extents, f, Last(inode.extents))
    ensures Released(geo, d, c, inode.extents, f)
  {
    var es := inode.extents;
    forall x: nat ensures InUse(geo, c, x) ==
      (InUse(geo, d, x) && !(exists l: nat :: l >= f && x != 0 && Phys(es, l) == x)) {
      if l: nat :| l >= f && x != 0 && Phys(es, l) == x {
        if l >= Last(es) { AboveLast(es, l); }
        assert Doomed(d, ino, es, f, Last(es), x);
      }
    }
  }

  lemma CutDone(geo: Geometry, d: Disk, c: Disk, inodes: seq<Inode>, ino: nat, inode: Inode, next: Inode, f: nat)
    requires Sound(geo, d, inodes, ino, inode) && Cut(geo, d, c, ino, inode.extents, f, Last(inode.extents))
    requires next == inode.(extents := Keep(inode.extents, f),
                            sectors := Mapped(Keep(inode.extents, f)) * (geo.blockSize / 512))
    ensures Sound(geo, c, inodes, ino, next) && Untouched(geo, d, c, ino)
    ensures Released(geo, d, c, inode.extents, f) && Restricted(geo, d, inode.extents, c, next.extents, f)
    ensures Conserved(geo, d, inode.extents, c, next.extents)
  {
    hide Conserved;
    var es := inode.extents;
    KeepSorted(es, f);
    KeepRestricts(es, f);
    assert Live(geo, c) by {
      if geo.first == 0 { assert InUse(geo, d, 0) && InUse(geo, c, 0); }
    }
    assert Untouched(geo, d, c, ino);
    OthersKept(geo, d, c, inodes, ino);
    forall l: nat | Phys(next.extents, l) != 0 ensures InUse(geo, c, Phys(es, l)) && d.owner[Phys(es, l)] == (ino, l) {
      assert InUse(geo, d, Phys(es, l));
    }
    CutReleases(geo, d, c, ino, inode, f);
    ReleasedConserves(geo, d, c, ino, inode, next.extents, f);
  }

  /** Releasing the tail of the file gives back its own blocks only. */
  lemma ReleasedConserves(geo: Geometry, d: Disk, c: Disk, ino: nat, inode: Inode, es': seq<Extent>, f: nat)
    requires Live(geo, d) && Live(geo, c) && Owns(geo, d, ino, inode) && Released(geo, d, c, inode.extents, f)
    requires forall l: nat :: Phys(es', l) == if l < f then Phys(inode.extents, l) else 0
    ensures Conserved(geo, d, inode.extents, c, es')
  {
    var es := inode.extents;
    forall x: nat ensures Elsewhere(geo, c, es', x) <==> Elsewhere(geo, d, es, x) {
      assert InUse(geo, c, x) == (InUse(geo, d, x) && !(exists l: nat :: l >= f && x != 0 && Phys(es, l) == x));
      if l: nat :| Phys(es, l) == x && x != 0 { assert l < f ==> Phys(es', l) == x; }
      if l: nat :| Phys(es', l) == x && x != 0 { assert Phys(es, l) == x; }
    }
  }

  lemma OwnsSorted(geo: Geometry, d: Disk, ino: nat, inode: Inode)
    requires Live(geo, d) && Owns(geo, d, ino, inode)
    ensures Sorted(inode.extents)
  {}

  /** One extent: kept whole, cut short or dropped. */
  method CutExtent(v: Volume, ghost ino: nat, inode: Inode, f: nat, i: nat, ghost d: Disk)
    returns (kept: seq<Extent>, freed: nat)
    requires Live(v.geo, d) && Owns(v.geo, d, ino, inode) && v.Valid() && i < |inode.extents|
    requires Cut(v.geo, d, Snap(v), ino, inode.extents, f, Last(inode.extents[..i]))
    modifies v`ledger
    ensures v.Valid() && Cut(v.geo, d, Snap(v), ino, inode.extents, f, Last(inode.extents[..i + 1]))
    ensures kept == Trim(inode.extents[i], f) && Mapped(kept) + freed == inode.extents[i].len
  {
    hide Cut, Freed, Volume.Valid, Live, Owns, Keep;
    OwnsSorted(v.geo, d, ino, inode);
    var e := inode.extents[i];
    PrefixStep(inode.extents, i, f);
    TrimMapped(e, f);
    if End(e) <= f {
      CutReaches(v.geo, d, Snap(v), ino, inode.extents, f, i, End(e));
      return [e], 0;
    }
    var keep := if e.block < f then f - e.block else 0;
    CutReaches(v.geo, d, Snap(v), ino, inode.extents, f, i, e.block + keep);
    FreeExtentTail(v, ino, inode, f, i, keep, d);
    return if keep > 0 then [e.(len := keep)] else [], Count(e) - keep;
  }

  /** The walk over the extents: what is kept, and how many blocks were released. */
  method CutExtents(v: Volume, ghost ino: nat, inode: Inode, f: nat) returns (out: seq<Extent>, freed: nat)
    requires Live(v.geo, Snap(v)) && Owns(v.geo, Snap(v), ino, inode) && v.Valid()
    modifies v`ledger
    ensures v.Valid() && Cut(v.geo, old(Snap(v)), Snap(v), ino, inode.extents, f, Last(inode.extents))
    ensures out == Keep(inode.extents, f) && Mapped(out) + freed == Mapped(inode.extents)
  {
    ghost var d := Snap(v);
    var es := inode.extents;
    out, freed := [], 0;
    for i := 0 to |es|
      invariant v.Valid() && Cut(v.geo, d, Snap(v), ino, es, f, Last(es[..i]))
      invariant out == Keep(es[..i], f) && Mapped(out) + freed == Mapped(es[..i])
    {
      PrefixStep(es, i, f);
      var kept, more := CutExtent(v, ino, inode, f, i, d);
      MappedSplit(out, kept);
      out, freed := out + kept, freed + more;
    }
    assert es[..|es|] == es;
  }

  lemma TrimMapped(e: Extent, f: nat)
    requires Proper(e)
    ensures Mapped(Trim(e, f)) == if End(e) <= f then e.len else if e.block < f then f - e.block else 0
  {
    if Trim(e, f) != [] { assert Mapped(Trim(e, f)) == Mapped([]) + Trim(e, f)[0].len; }
  }

  lemma SectorsLeft(all: nat, left: nat, freed: nat, k: nat)
    requires all == left + freed
    ensures all * k - freed * k == left * k >= 0
  {}

  /** Releases every block from logical block f on and shortens the extent list to match. */
  method FreeInodeBlocks(v: Volume, ghost ino: nat, inode: Inode, f: nat) returns (status: Status, next: Inode)
    requires Sound(v.geo, Snap(v), v.inodes, ino, inode)
    modifies v`ledger
    ensures status == Ok
    ensures next == inode.(extents := Keep(inode.extents, f),
                           sectors := Mapped(Keep(inode.extents, f)) * (v.geo.blockSize / 512))
    ensures Sound(v.geo, Snap(v), v.inodes, ino, next) && Untouched(v.geo, old(Snap(v)), Snap(v), ino)
    ensures Released(v.geo, old(Snap(v)), Snap(v), inode.extents, f)
    ensures Books(v.ledger, next.extents) == CutBooks(v.geo, Books(old(v.ledger), inode.extents), f)
    ensures Restricted(v.geo, old(Snap(v)), inode.extents, Snap(v), next.extents, f)
    ensures Conserved(v.geo, old(Snap(v)), inode.extents, Snap(v), next.extents)
  {
    hide Conserved;
    ghost var d := Snap(v);
    var out, freed := CutExtents(v, ino, inode, f);
    var sectors := freed * (v.geo.blockSize / 512);
    SectorsLeft(Mapped(inode.extents), Mapped(out), freed, v.geo.blockSize / 512);
    next := inode.(extents := out, sectors := if inode.sectors > sectors then inode.sectors - sectors else 0);
    CutDone(v.geo, d, Snap(v), v.inodes, ino, inode, next, f);
    return Ok, next;
  }

  // ----- truncation

  /** Releases what lies beyond, then clears the rest of the last block kept. */
  method Shrink(v: Volume, ino: nat, inode: Inode, size: nat) returns (next: Inode)
    requires Sound(v.geo, Snap(v), v.inodes, ino, inode) && size < inode.size && size < FileLimit(v.geo)
    modifies v`ledger, v`blocks
    ensures Sound(v.geo, Snap(v), v.inodes, ino, next) && Untouched(v.geo, old(Snap(v)), Snap(v), ino)
    ensures next == inode.(extents := next.extents, sectors := next.sectors)
    ensures forall i: nat {:trigger ByteAt(v.geo, Snap(v), next.extents, i)} ::
              ByteAt(v.geo, Snap(v), next.extents, i) ==
              if i < size then old(ByteAt(v.geo, Snap(v), inode.extents, i)) else 0
    ensures Conserved(v.geo, old(Snap(v)), inode.extents, Snap(v), next.extents)
    ensures Books(v.ledger, next.extents) ==
            CutBooks(v.geo, Books(old(v.ledger), inode.extents), (size + v.geo.blockSize - 1) / v.geo.blockSize)
  {
    hide Conserved, Released, CutBooks, Owns, OthersOwn, Untouched, Keep;
    ghost var d := Snap(v);
    var bs := v.geo.blockSize;
    var firstFree := (size + bs - 1) / bs;
    var status;
    status, next := FreeInodeBlocks(v, ino, inode, firstFree);
    RoundUp(size, bs);
    ghost var mid := Snap(v);
    if size % bs != 0 {
      var physical := FileBlockNumber(next.extents, size / bs);
      if physical != 0 {
        ChunkWritten(v.geo, mid, v.inodes, ino, next, size, Zeros(bs - size % bs));
        WriteBlockPart(v, physical, size % bs, Zeros(bs - size % bs));
        assert Snap(v) == Stored(mid, physical, size % bs, Zeros(bs - size % bs));
        UntouchedTrans(v.geo, d, mid, Snap(v), ino);
        ConservedSame(v.geo, mid, Snap(v), next.extents);
        ConservedTrans(v.geo, d, inode.extents, mid, next.extents, Snap(v), next.extents);
      }
    }
    forall i: nat ensures ByteAt(v.geo, Snap(v), next.extents, i) == if i < size
      then ByteAt(v.geo, d, inode.extents, i) else 0 {
      assert ByteAt(v.geo, mid, next.extents, i) == if i / bs < firstFree then ByteAt(v.geo, d, inode.extents, i)
             else 0;
      BelowRound(size, bs, i);
    }
  }

  lemma RoundUp(size: nat, bs: nat)
    requires bs > 0
    ensures (size + bs - 1) / bs == if size % bs == 0 then size / bs else size / bs + 1
  {
    var q, r := size / bs, size % bs;
    assert size == q * bs + r;
    if r == 0 {
      DivUnique(q, bs - 1, bs);
    } else {
      assert size + bs - 1 == (q + 1) * bs + (r - 1);
      DivUnique(q + 1, r - 1, bs);
    }
  }

  lemma BelowRound(size: nat, bs: nat, i: nat)
    requires bs > 0
    ensures var f := (size + bs - 1) / bs; i / bs < f <==> i < size || (size % bs != 0 && i < size + (bs - size % bs))
    ensures i / bs == size / bs && i >= size ==> i < size + (bs - size % bs)
  {
    RoundUp(size, bs);
    SplitIndex(bs, size, i);
    if i / bs < size / bs { MulStep(i / bs, size / bs, bs); }
    if i / bs > size / bs { MulStep(size / bs, i / bs, bs); }
  }

  // ----- files as byte sequences

  /** What a successful write leaves is the old sequence with the data spliced in, and the bytes
      past the end stay zero. */
  lemma WriteSplices(geo: Geometry, d: Disk, inode: Inode, d': Disk, next: Inode, offset: nat, data: seq<Byte>)
    requires Live(geo, d) && Live(geo, d') && ZeroTail(geo, d, inode)
    requires Shows(geo, d, inode.extents, d', next.extents, offset, data)
    requires next.size == if offset + |data| > inode.size then offset + |data| else inode.size
    ensures Content(geo, d', next) == Splice(Content(geo, d, inode), offset, data) && ZeroTail(geo, d', next)
  {
    forall i: nat ensures ByteAt(geo, d', next.extents, i) ==
                          if offset <= i < offset + |data| then data[i - offset]
                          else if i < inode.size then Content(geo, d, inode)[i] else 0
    {
      assert i >= inode.size ==> ByteAt(geo, d, inode.extents, i) == 0;
    }
  }

  /** The data of a write that reach the file, which the free blocks and the holes decide. */
  ghost function StoredPart(geo: Geometry, b: Books, offset: nat, data: seq<Byte>): seq<Byte>
    requires b.ledger.Balanced(geo)
  {
    data[..StoredBytes(geo, b, offset, |data|)]
  }

  /** A failed write keeps the size; the bytes past it stay zero if and only if every byte that found
      a block there was zero. */
  lemma FailedWriteKeepsTailIff(geo: Geometry, d: Disk, inode: Inode, d': Disk, next: Inode, offset: nat,
          data: seq<Byte>)
    requires Live(geo, d) && Live(geo, d') && ZeroTail(geo, d, inode) && next.size == inode.size
    requires Shows(geo, d, inode.extents, d', next.extents, offset,
               StoredPart(geo, Books(d.ledger, inode.extents), offset, data))
    ensures var part := StoredPart(geo, Books(d.ledger, inode.extents), offset, data);
            ZeroTail(geo, d', next) <==> forall k :: 0 <= k < |part| && offset + k >= inode.size ==> part[k] == 0
  {
    hide StoredBytes, StoredPart;
    var part := StoredPart(geo, Books(d.ledger, inode.extents), offset, data);
    if ZeroTail(geo, d', next) {
      forall k | 0 <= k < |part| && offset + k >= inode.size ensures part[k] == 0 {
        assert ByteAt(geo, d', next.extents, offset + k) == 0;
      }
    } else {
      var i: nat :| i >= next.size && ByteAt(geo, d', next.extents, i) != 0;
      assert ByteAt(geo, d, inode.extents, i) == 0;
      assert part[i - offset] != 0;
    }
  }

  /** The part that was stored shows as far as the size reaches. */
  lemma FailedWriteShows(geo: Geometry, d: Disk, inode: Inode, d': Disk, next: Inode, offset: nat, part: seq<Byte>)
    requires Live(geo, d) && Live(geo, d') && next.size == inode.size
    requires Shows(geo, d, inode.extents, d', next.extents, offset, part)
    ensures Content(geo, d', next) == Splice(Content(geo, d, inode), offset, part)[..inode.size]
  {
    var c, r := Content(geo, d, inode), Splice(Content(geo, d, inode), offset, part);
    forall i: nat | i < inode.size ensures Content(geo, d', next)[i] == r[i] {
      assert ByteAt(geo, d', next.extents, i) ==
             if offset <= i < offset + |part| then part[i - offset] else ByteAt(geo, d, inode.extents, i);
    }
  }

  /** Every byte stands in an in-range block. */
  lemma OwnedInRange(geo: Geometry, d: Disk, ino: nat, inode: Inode)
    requires Live(geo, d) && Owns(geo, d, ino, inode)
    ensures forall l: nat :: Phys(inode.extents, l) < geo.total
  {
    forall l: nat ensures Phys(inode.extents, l) < geo.total {
      if Phys(inode.extents, l) != 0 { assert InUse(geo, d, Phys(inode.extents, l)); }
    }
  }

  // ----- growing

  /** Does the growth loop, at this many bytes to go, ever ask for a chunk of length 0? */
  predicate Stalls(remaining: nat)
    decreases remaining % U32
  {
    if remaining == 0 then false
    else if Chunk(remaining, 4096) == 0 then true
    else StepShrinks(remaining); Stalls(remaining - Chunk(remaining, 4096))
  }

  lemma StepShrinks(remaining: nat)
    requires Chunk(remaining, 4096) != 0
    ensures Chunk(remaining, 4096) <= remaining
    ensures (remaining - Chunk(remaining, 4096)) % U32 == remaining % U32 - Chunk(remaining, 4096)
    ensures (remaining - Chunk(remaining, 4096)) / U32 == remaining / U32
  {
    DivUnique(remaining / U32, remaining % U32 - Chunk(remaining, 4096), U32);
  }

  /** The 32-bit cast makes growing a file loop for ever if and only if it must grow by 4 GiB or more. */
  lemma {:induction false} StallsIff(remaining: nat)
    ensures Stalls(remaining) <==> remaining >= U32
    decreases remaining % U32
  {
    if remaining > 0 && Chunk(remaining, 4096) != 0 {
      StepShrinks(remaining);
      StallsIff(remaining - Chunk(remaining, 4096));
    }
  }

  ghost predicate OnlyEntry(a: seq<Inode>, b: seq<Inode>, ino: nat) {
    |a| == |b| && forall j {:trigger b[j]} :: 0 <= j < |a| && j != ino ==> b[j] == a[j]
  }

  /** One write of zeros at the end: longer on success, and not a byte different. */
  method GrowStep(v: Volume, ino: nat, inode: Inode, copy: nat) returns (status: Status, next: Inode)
    requires Sound(v.geo, Snap(v), v.inodes, ino, inode) && ZeroTail(v.geo, Snap(v), inode)
    requires copy < U32 && inode.size + copy <= FileLimit(v.geo)
    modifies v`ledger, v`blocks, v`owner, v`inodes
    ensures Sound(v.geo, Snap(v), v.inodes, ino, next) && Untouched(v.geo, old(Snap(v)), Snap(v), ino)
    ensures next.kind == inode.kind && next.links == inode.links
    ensures next.size == inode.size + if status == Ok then copy else 0
    ensures SameBytes(v.geo, old(Snap(v)), inode.extents, Snap(v), next.extents) && ZeroTail(v.geo, Snap(v), next)
    ensures Conserved(v.geo, old(Snap(v)), inode.extents, Snap(v), next.extents)
    ensures var f := Filled(v.geo, Books(old(v.ledger), inode.extents), inode.size, copy);
            status == f.status && Books(v.ledger, next.extents) == f.books
    ensures v.inodes == if status == Ok then old(v.inodes)[ino := next] else old(v.inodes)
  {
    hide Conserved, Filled, StoredBytes;
    ghost var d, stored := Snap(v), StoredBytes(v.geo, Books(v.ledger, inode.extents), inode.size, copy);
    var done;
    status, next, done := WriteInodeDataGrow(v, ino, inode, inode.size, Zeros(copy));
    assert Zeros(copy)[..stored] == Zeros(stored);
    ZerosShowNothing(v.geo, d, inode, Snap(v), next, stored);
  }

  lemma ZerosShowNothing(geo: Geometry, b: Disk, was: Inode, c: Disk, next: Inode, done: nat)
    requires Live(geo, b) && Live(geo, c) && ZeroTail(geo, b, was) && next.size >= was.size
    requires Shows(geo, b, was.extents, c, next.extents, was.size, Zeros(done))
    ensures SameBytes(geo, b, was.extents, c, next.extents) && ZeroTail(geo, c, next)
  {
    forall i: nat ensures ByteAt(geo, c, next.extents, i) == ByteAt(geo, b, was.extents, i) {
      assert i >= was.size ==> ByteAt(geo, b, was.extents, i) == 0;
    }
  }

  lemma SameBytesTrans(geo: Geometry, a: Disk, ea: seq<Extent>, b: Disk, eb: seq<Extent>, c: Disk, ec: seq<Extent>)
    requires Live(geo, a) && Live(geo, b) && Live(geo, c)
    requires SameBytes(geo, a, ea, b, eb) && SameBytes(geo, b, eb, c, ec)
    ensures SameBytes(geo, a, ea, c, ec)
  {
    forall i: nat ensures ByteAt(geo, c, ec, i) == ByteAt(geo, a, ea, i) {
      assert ByteAt(geo, b, eb, i) == ByteAt(geo, a, ea, i);
    }
  }

  lemma SameBytesSelf(geo: Geometry, d: Disk, e: seq<Extent>)
    requires Live(geo, d)
    ensures SameBytes(geo, d, e, d, e)
  {}

  lemma UntouchedSelf(geo: Geometry, d: Disk, ino: nat)
    requires Live(geo, d)
    ensures Untouched(geo, d, d, ino)
  {}

  lemma SoundWorkable(geo: Geometry, d: Disk, inodes: seq<Inode>, ino: nat, inode: Inode)
    requires Sound(geo, d, inodes, ino, inode)
    ensures Live(geo, d) && Workable(geo, Books(d.ledger, inode.extents)) && geo.blockSize > 0
  {}

  lemma EndBelow(geo: Geometry, a: nat, n: nat)
    requires geo.blockSize > 0 && a + n <= FileLimit(geo)
    ensures BlockEnd(geo.blockSize, a, n) < U32
  {
    var last := if n == 0 then a else a + n - 1;
    var q := last / geo.blockSize;
    assert last == q * geo.blockSize + last % geo.blockSize;
    if q > U32 - 1 { MulStep(U32 - 1, q, geo.blockSize); }
  }

  /** What growing has come to: so much of it is mapped, written and stored. */
  ghost predicate Growing(geo: Geometry, b: Books, inode: Inode, now: Books, next: Inode, size: nat)
    requires b.ledger.Balanced(geo) && inode.size <= next.size <= size
  {
    var done, f := next.size - inode.size, Filled(geo, b, inode.size, next.size - inode.size);
    && (done % GROW_CHUNK == 0 || next.size == size)
    && f.status == Ok && f.books == now
  }

  lemma GrowingOn(geo: Geometry, b: Books, inode: Inode, now: Books, was: Inode, copy: nat, more: Books, next: Inode,
          size: nat)
    requires Workable(geo, b) && geo.blockSize > 0 && inode.size <= was.size < size <= FileLimit(geo)
    requires Growing(geo, b, inode, now, was, size) && next.size == was.size + copy
    requires copy == if size - was.size < GROW_CHUNK then size - was.size else GROW_CHUNK
    requires now.ledger.Balanced(geo)
    requires Filled(geo, now, was.size, copy).status == Ok && Filled(geo, now, was.size, copy).books == more
    ensures Growing(geo, b, inode, more, next, size)
  {
    hide Filled, FileLimit, Workable, BlockEnd, Ledger.Balanced;
    LimitFits(geo, inode.size, was.size - inode.size, copy, size);
    EndBelow(geo, inode.size, was.size - inode.size + copy);
    FilledMore(geo, b, inode.size, was.size - inode.size, copy);
  }

  lemma LimitFits(geo: Geometry, s: nat, m: nat, k: nat, size: nat)
    requires s + m + k <= size <= FileLimit(geo)
    ensures s + (m + k) <= FileLimit(geo)
  {}

  lemma GrowingStops(geo: Geometry, b: Books, inode: Inode, now: Books, was: Inode, copy: nat, size: nat)
    requires Workable(geo, b) && geo.blockSize > 0 && inode.size <= was.size < size <= FileLimit(geo)
    requires Growing(geo, b, inode, now, was, size)
    requires copy == if size - was.size < GROW_CHUNK then size - was.size else GROW_CHUNK
    requires now.ledger.Balanced(geo) && Filled(geo, now, was.size, copy).status != Ok
    ensures var n, f := size - inode.size, Filled(geo, now, was.size, copy);
            && Filled(geo, b, inode.size, n).status == f.status && Filled(geo, b, inode.size, n).books == f.books
            && GrowthKept(geo, b, inode.size, n) == was.size - inode.size
  {
    hide Filled, FileLimit, Workable, GrowthKept;
    LimitFits(geo, inode.size, size - inode.size, 0, size);
    EndBelow(geo, inode.size, size - inode.size);
    KeptWhenStopped(geo, b, inode.size, size - inode.size, was.size - inode.size, copy);
  }

  lemma GrowingStart(geo: Geometry, b: Books, inode: Inode, size: nat)
    requires b.ledger.Balanced(geo) && inode.size <= size
    ensures Growing(geo, b, inode, b, inode, size)
  {
    EndOfNothing(geo.blockSize, inode.size);
  }

  /** Writes zeros behind the end, 4096 bytes at a time.  Whether all of them get there, and what is
      taken of the volume, are settled beforehand by `Filled`; what lasts is `GrowthKept`, which the
      table shows. */
  method Grow(v: Volume, ino: nat, inode: Inode, size: nat) returns (status: Status, next: Inode)
    requires Sound(v.geo, Snap(v), v.inodes, ino, inode) && ZeroTail(v.geo, Snap(v), inode)
    requires inode.size <= size <= FileLimit(v.geo) && !Stalls(size - inode.size)
    modifies v`ledger, v`blocks, v`owner, v`inodes
    ensures Sound(v.geo, Snap(v), v.inodes, ino, next) && Untouched(v.geo, old(Snap(v)), Snap(v), ino)
    ensures next.kind == inode.kind && next.links == inode.links
    ensures SameBytes(v.geo, old(Snap(v)), inode.extents, Snap(v), next.extents) && ZeroTail(v.geo, Snap(v), next)
    ensures Conserved(v.geo, old(Snap(v)), inode.extents, Snap(v), next.extents)
    ensures var b, n := Books(old(v.ledger), inode.extents), size - inode.size;
            && status == Filled(v.geo, b, inode.size, n).status
            && Books(v.ledger, next.extents) == Filled(v.geo, b, inode.size, n).books
            && next.size == inode.size + GrowthKept(v.geo, b, inode.size, n)
            && (status != Ok && next.size > inode.size ==>
                  v.inodes[ino].extents == Filled(v.geo, b, inode.size, next.size - inode.size).books.extents
                  && v.inodes[ino].size == next.size)
            && (next.size == inode.size ==> v.inodes == old(v.inodes))
    ensures OnlyEntry(old(v.inodes), v.inodes, ino)
  {
    hide Conserved, Stalls, Untouched, SameBytes, ZeroTail, Live, Owns, OthersOwn, FileLimit, Filled, GrowthKept,
         Growing,
         Workable, Ledger.Balanced;
    StallsIff(size - inode.size);
    next, status := inode, Ok;
    ghost var d, b := Snap(v), Books(v.ledger, inode.extents);
    UntouchedSelf(v.geo, d, ino);
    SameBytesSelf(v.geo, d, inode.extents);
    ConservedSame(v.geo, d, d, inode.extents);
    SoundWorkable(v.geo, d, v.inodes, ino, inode);
    GrowingStart(v.geo, b, inode, size);
    while next.size < size
      invariant inode.size <= next.size <= size && next.kind == inode.kind && next.links == inode.links
      invariant Sound(v.geo, Snap(v), v.inodes, ino, next) && Untouched(v.geo, d, Snap(v), ino)
      invariant SameBytes(v.geo, d, inode.extents, Snap(v), next.extents) && ZeroTail(v.geo, Snap(v), next)
      invariant Conserved(v.geo, d, inode.extents, Snap(v), next.extents)
      invariant Growing(v.geo, b, inode, Books(v.ledger, next.extents), next, size)
      invariant OnlyEntry(old(v.inodes), v.inodes, ino) && status == Ok
      invariant if next.size == inode.size then v.inodes == old(v.inodes) && next == inode else v.inodes[ino] == next
      decreases size - next.size
    {
      ghost var before, was := Snap(v), next;
      var copy := Chunk(size - next.size, GROW_CHUNK);
      SoundWorkable(v.geo, before, v.inodes, ino, was);
      status, next := GrowStep(v, ino, next, copy);
      UntouchedTrans(v.geo, d, before, Snap(v), ino);
      SameBytesTrans(v.geo, d, inode.extents, before, was.extents, Snap(v), next.extents);
      ConservedTrans(v.geo, d, inode.extents, before, was.extents, Snap(v), next.extents);
      if status != Ok {
        GrowingStops(v.geo, b, inode, Books(before.ledger, was.extents), was, copy, size);
        GrowingShows(v.geo, b, inode, Books(before.ledger, was.extents), was, size);
        return;
      }
      GrowingOn(v.geo, b, inode, Books(before.ledger, was.extents), was, copy, Books(v.ledger, next.extents), next,
          size);
    }
    GrowingShows(v.geo, b, inode, Books(v.ledger, next.extents), next, size);
  }

  lemma GrowingShows(geo: Geometry, b: Books, inode: Inode, now: Books, next: Inode, size: nat)
    requires b.ledger.Balanced(geo) && inode.size <= next.size <= size && Growing(geo, b, inode, now, next, size)
    ensures Filled(geo, b, inode.size, next.size - inode.size).status == Ok
    ensures Filled(geo, b, inode.size, next.size - inode.size).books == now
    ensures next.size == size ==> GrowthKept(geo, b, inode.size, size - inode.size) == size - inode.size
  {}

  /** The growth that a truncation has to make. */
  function Growth(size: nat, next: nat): nat { if next > size then next - size else 0 }

  /** Cuts the sequence or pads it with zeros; a growth that runs out of space keeps a part of
      the padding.  Afterwards the bytes past the end are zero. */
  method TruncateInode(v: Volume, ino: nat, inode: Inode, size: nat) returns (status: Status, next: Inode)
    requires Sound(v.geo, Snap(v), v.inodes, ino, inode) && ZeroTail(v.geo, Snap(v), inode)
    requires inode.size <= FileLimit(v.geo) && size <= FileLimit(v.geo)
    requires inode.size < size ==> !Stalls(size - inode.size)
    modifies v`ledger, v`blocks, v`owner, v`inodes
    ensures Sound(v.geo, Snap(v), v.inodes, ino, next) && Untouched(v.geo, old(Snap(v)), Snap(v), ino)
    ensures next.kind == inode.kind && next.links == inode.links && ZeroTail(v.geo, Snap(v), next)
    ensures var b, n := Books(old(v.ledger), inode.extents), Growth(inode.size, size);
            && status == Filled(v.geo, b, inode.size, n).status
            && Books(v.ledger, next.extents) == TruncatedBooks(v.geo, b, inode.size, size)
            && (status != Ok ==>
                  next.size == inode.size + GrowthKept(v.geo, b, inode.size, n)
                  && if next.size == inode.size then v.inodes == old(v.inodes)
                     else v.inodes[ino].extents == Filled(v.geo, b, inode.size, next.size - inode.size).books.extents
                          && v.inodes[ino].size == next.size)
    ensures status == Ok ==> next.size == size && v.inodes == old(v.inodes)[ino := next]
    ensures status != Ok ==> inode.size <= next.size <= size
    ensures Content(v.geo, Snap(v), next) ==
            if next.size <= inode.size then old(Content(v.geo, Snap(v), inode))[..next.size]
            else old(Content(v.geo, Snap(v), inode)) + Zeros(next.size - inode.size)
    ensures Conserved(v.geo, old(Snap(v)), inode.extents, Snap(v), next.extents)
    ensures OnlyEntry(old(v.inodes), v.inodes, ino)
  {
    hide Conserved, Filled, GrowthKept, CutBooks, Workable, ByteAt, InUse;
    next, status := inode, Ok;
    ghost var d := Snap(v);
    ghost var c := Content(v.geo, d, inode);
    ConservedSame(v.geo, d, d, inode.extents);
    SoundWorkable(v.geo, d, v.inodes, ino, inode);
    FilledNone(v.geo, Books(v.ledger, inode.extents), inode.size);
    if size < inode.size {
      next := Shrink(v, ino, inode, size);
      next := next.(size := size);
    } else if size > inode.size {
      status, next := Grow(v, ino, inode, size);
      KeptAll(v.geo, Books(d.ledger, inode.extents), inode.size, size - inode.size);
    }
    CutOrPad(v.geo, d, inode, Snap(v), next);
    if status != Ok { return; }
    WriteInode(v, ino, next);
    assert v.inodes == old(v.inodes)[ino := next];
  }

  lemma FilledNone(geo: Geometry, b: Books, a: nat)
    requires b.ledger.Balanced(geo)
    ensures Filled(geo, b, a, 0).status == Ok && Filled(geo, b, a, 0).books == b
  {
    EndOfNothing(geo.blockSize, a);
  }

  lemma KeptAll(geo: Geometry, b: Books, s: nat, n: nat)
    requires b.ledger.Balanced(geo)
    ensures Filled(geo, b, s, n).status == Ok ==> GrowthKept(geo, b, s, n) == n
  {}

  /** What a truncation leaves of free blocks and extents. */
  ghost function TruncatedBooks(geo: Geometry, b: Books, size: nat, next: nat): (r: Books)
    requires b.ledger.Balanced(geo)
    ensures r.ledger.Balanced(geo)
  {
    if next < size then CutBooks(geo, b, (next + geo.blockSize - 1) / geo.blockSize)
    else Filled(geo, b, size, next - size).books
  }

  lemma CutOrPad(geo: Geometry, d: Disk, inode: Inode, d': Disk, next: Inode)
    requires Live(geo, d) && Live(geo, d') && ZeroTail(geo, d, inode)
    requires forall i: nat {:trigger ByteAt(geo, d', next.extents, i)} ::
               ByteAt(geo, d', next.extents, i) == if i < next.size then ByteAt(geo, d, inode.extents, i) else 0
    ensures ZeroTail(geo, d', next)
    ensures Content(geo, d', next) ==
            if next.size <= inode.size then Content(geo, d, inode)[..next.size]
            else Content(geo, d, inode) + Zeros(next.size - inode.size)
  {
    forall i: nat | i < next.size
      ensures Content(geo, d', next)[i] == if i < inode.size then Content(geo, d, inode)[i] else 0
    {
      assert ByteAt(geo, d', next.extents, i) == ByteAt(geo, d, inode.extents, i);
    }
  }

  // ----- open files

  /** What a write at `at` leaves of a file.  A success splices the data in.  A failure keeps the size
      and the part that was stored, which shows as far as the size reaches; the bytes past it stay
      zero exactly when no other byte was stored there. */
  ghost predicate Written(geo: Geometry, d: Disk, was: Inode, d': Disk, now: Inode, at: nat, data: seq<Byte>, ok: bool)
    requires Live(geo, d) && Live(geo, d')
  {
    var c, part := Content(geo, d, was), StoredPart(geo, Books(d.ledger, was.extents), at, data);
    && Shows(geo, d, was.extents, d', now.extents, at, part)
    && if ok
       then part == data && now.size == (if at + |data| > was.size then at + |data| else was.size)
            && (ZeroTail(geo, d, was) ==> Content(geo, d', now) == Splice(c, at, data) && ZeroTail(geo, d', now))
       else now.size == was.size && Content(geo, d', now) == Splice(c, at, part)[..was.size]
            && (ZeroTail(geo, d, was) ==>
                  (ZeroTail(geo, d', now) <==> forall k :: 0 <= k < |part| && at + k >= was.size ==> part[k] == 0))
  }

  lemma StoredAll(geo: Geometry, b: Books, offset: nat, data: seq<Byte>)
    requires b.ledger.Balanced(geo)
    ensures Filled(geo, b, offset, |data|).status == Ok ==> StoredPart(geo, b, offset, data) == data
  {}

  lemma WriteLeaves(geo: Geometry, d: Disk, was: Inode, d': Disk, now: Inode, at: nat, data: seq<Byte>, ok: bool)
    requires Live(geo, d) && Live(geo, d') &&
             (ok <==> Filled(geo, Books(d.ledger, was.extents), at, |data|).status == Ok)
    requires Shows(geo, d, was.extents, d', now.extents, at, StoredPart(geo, Books(d.ledger, was.extents), at, data))
    requires now.size == if ok && at + |data| > was.size then at + |data| else was.size
    ensures Written(geo, d, was, d', now, at, data, ok)
  {
    hide Filled, ZeroTail, Shows, Content, StoredPart, Splice;
    var part := StoredPart(geo, Books(d.ledger, was.extents), at, data);
    if ok {
      StoredAll(geo, Books(d.ledger, was.extents), at, data);
      if ZeroTail(geo, d, was) { WriteSplices(geo, d, was, d', now, at, data); }
    } else {
      if ZeroTail(geo, d, was) { FailedWriteKeepsTailIff(geo, d, was, d', now, at, data); }
      FailedWriteShows(geo, d, was, d', now, at, part);
    }
  }

  /** The one handle open on an inode.  It works on its own copy of the inode. */
  class Handle {
    const ino: nat
    const writable: bool
    const append: bool
    var inode: Inode
    var position: nat

    constructor (v: Volume, number: nat, canWrite: bool, atEnd: bool)
      requires number < |v.inodes|
      ensures ino == number && writable == canWrite && append == atEnd && inode == v.inodes[number]
      ensures position == if atEnd then inode.size else 0
    {
      ino, writable, append, inode := number, canWrite, atEnd, v.inodes[number];
      position := if atEnd then v.inodes[number].size else 0;
    }

    ghost predicate Valid(v: Volume)
      reads this, v
    {
      Sound(v.geo, Snap(v), v.inodes, ino, inode) && inode.size <= FileLimit(v.geo)
    }

    /** The file as this handle sees it. */
    ghost function Bytes(v: Volume): seq<Byte>
      requires Valid(v)
      reads this, v
    {
      Content(v.geo, Snap(v), inode)
    }

    method Read(v: Volume, size: nat) returns (buffer: seq<Byte>)
      requires Valid(v) && size < U32
      modifies this`position
      ensures Valid(v) && position == old(position) + |buffer|
      ensures buffer == Slice(Bytes(v), old(position), size)
    {
      OwnedInRange(v.geo, Snap(v), ino, inode);
      buffer := ReadInodeData(v, inode, position, size);
      position := position + |buffer|;
    }

    /** Whether a write succeeds, what it takes and how much of it is stored is settled beforehand.  A
        successful write splices the data in at the position, or at the end when appending.  A failed
        one answers that nothing was written and leaves the part that was stored. */
    method Write(v: Volume, data: seq<Byte>) returns (status: Status, done: nat)
      requires Valid(v)
      requires |data| < U32 && (if append then inode.size else position) + |data| <= FileLimit(v.geo)
      modifies this`position, this`inode, v`ledger, v`blocks, v`owner, v`inodes
      ensures Valid(v) && Untouched(v.geo, old(Snap(v)), Snap(v), ino)
      ensures Conserved(v.geo, old(Snap(v)), old(inode.extents), Snap(v), inode.extents)
      ensures !writable ==>
                status == InvalidArgument && done == 0 && position == old(position)
                && Snap(v) == old(Snap(v)) && inode == old(inode) && v.inodes == old(v.inodes)
      ensures writable ==>
                var at := if append then old(inode.size) else old(position);
                var f := Filled(v.geo, old(Books(v.ledger, inode.extents)), at, |data|);
                && status == f.status && Books(v.ledger, inode.extents) == f.books
                && done == (if status == Ok then |data| else 0) && position == at + done
                && v.inodes == (if status == Ok then old(v.inodes)[ino := inode] else old(v.inodes))
                && Written(v.geo, old(Snap(v)), old(inode), Snap(v), inode, at, data, status == Ok)
    {
      hide Conserved, Filled, StoredBytes, FileLimit, Untouched, ZeroTail, Shows, Written, Owns, OthersOwn, Live,
           Ledger.Balanced;
      SoundWorkable(v.geo, Snap(v), v.inodes, ino, inode);
      ConservedSame(v.geo, Snap(v), Snap(v), inode.extents);
      UntouchedSelf(v.geo, Snap(v), ino);
      if !writable { return InvalidArgument, 0; }
      if append { position := inode.size; }
      ghost var d, was, at := Snap(v), inode, position;
      var next;
      status, next, done := WriteInodeDataGrow(v, ino, inode, position, data);
      inode := next;
      position := position + done;
      SoundWorkable(v.geo, Snap(v), v.inodes, ino, inode);
      WriteLeaves(v.geo, d, was, Snap(v), inode, at, data, status == Ok);
    }

    /** Seeking never touches the file; a negative target is refused. */
    method Seek(offset: int, origin: Origin) returns (status: Status)
      modifies this`position
      ensures var base := match origin case SeekSet => 0 case SeekCur => old(position) case SeekEnd => inode.size;
              if base + offset < 0 then status == InvalidArgument && position == old(position)
              else status == Ok && position == base + offset
    {
      var base := if origin == SeekCur then position else if origin == SeekEnd then inode.size else 0;
      if base + offset < 0 { return InvalidArgument; }
      position := base + offset;
      return Ok;
    }
  }
}
