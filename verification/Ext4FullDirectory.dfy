/** A directory that is filled by creating files in it, until a rename within it loses the name. */
module Ext4FullDirectory {
  import opened Bytes
  import opened Ext4Common
  import opened RecordChain
  import opened Ext4DirBlock
  import opened Ext4DirMap
  import N = Ext4Names
  import P = Ext4Namespace
  import M = Ext4Mount

  // ----- a block filled from the front

  /** From s to p the records are in use and no longer than their names need. */
  ghost predicate Tight(b: Block, s: nat, p: nat)
    decreases p - s
  {
    s == p ||
    (s < p && RecordOk(b, s) && Ino(b, s) != 0 && RecLen(b, s) == DirentLen(NameLen(b, s)) &&
        Tight(b, s + RecLen(b, s), p))
  }

  /** All the slack of the block is in its last record, at p, which carries a name of `size` bytes. */
  ghost predicate Tail(b: Block, p: nat, size: nat) {
    && Tight(b, 0, p) && RecordOk(b, p) && Ino(b, p) != 0 && NameLen(b, p) == size && p + RecLen(b, p) == |b|
  }

  lemma {:induction false} TightReaches(b: Block, s: nat, p: nat)
    requires Tight(b, s, p)
    ensures Reaches(Read(b), |b|, s, p)
    decreases p - s
  {
    if s != p {
      assert Read(b)(s) == RecordAt(b, s);
      TightReaches(b, s + RecLen(b, s), p);
    }
  }

  lemma {:induction false} TightFrame(b: Block, b': Block, s: nat, p: nat)
    requires Tight(b, s, p) && BytesKept(b, b', 0, p)
    ensures Tight(b', s, p)
    decreases p - s
  {
    if s != p {
      TightWithin(b, s, p);
      RecordFrame(b, b', s, p);
      SameRecord(b, b', s, p);
      TightFrame(b, b', s + RecLen(b, s), p);
    }
  }

  lemma {:induction false} TightWithin(b: Block, s: nat, p: nat)
    requires Tight(b, s, p)
    ensures s < p ==> s + RecLen(b, s) <= p
    decreases p - s
  {
    if s < p { TightWithin(b, s + RecLen(b, s), p); }
  }

  lemma SameRecord(b: Block, b': Block, s: nat, p: nat)
    requires RecordOk(b, s) && Ino(b, s) != 0 && s + RecLen(b, s) <= p && BytesKept(b, b', 0, p)
    ensures RecordOk(b', s) && Ino(b', s) == Ino(b, s) && RecLen(b', s) == RecLen(b, s) &&
            NameLen(b', s) == NameLen(b, s)
  {
    RecordFrame(b, b', s, p);
    assert RecordAt(b, s).live[0] == Dirent(NameAt(b, s), Ino(b, s), TypeAt(b, s));
  }

  lemma {:induction false} TightMore(b: Block, s: nat, p: nat)
    requires Tight(b, s, p) && RecordOk(b, p) && Ino(b, p) != 0 && RecLen(b, p) == DirentLen(NameLen(b, p))
    ensures Tight(b, s, p + RecLen(b, p))
    decreases p - s
  {
    if s == p {
      assert Tight(b, p + RecLen(b, p), p + RecLen(b, p));
    } else {
      TightMore(b, s + RecLen(b, s), p);
    }
  }

  /** First fit passes over tight records. */
  lemma {:induction false} TightSkips(b: Block, s: nat, p: nat, ino: nat, fileType: Byte, name: Name)
    requires Tight(b, s, p) && ino < U32
    ensures WithName(b, s, ino, fileType, name) == WithName(b, p, ino, fileType, name)
    ensures NoRoom(b, s, DirentLen(|name|)) <==> NoRoom(b, p, DirentLen(|name|))
    decreases p - s
  {
    if s != p { TightSkips(b, s + RecLen(b, s), p, ino, fileType, name); }
  }

  lemma UsedRecord(b: Block, p: nat)
    requires RecordOk(b, p) && Ino(b, p) != 0
    ensures RecordAt(b, p) == Rec(RecLen(b, p), [Dirent(NameAt(b, p), Ino(b, p), TypeAt(b, p))])
    ensures |NameAt(b, p)| == NameLen(b, p)
  {}

  lemma LiveRecord(b: Block, p: nat, len: nat, e: Dirent)
    requires RecordAt(b, p) == Rec(len, [e])
    ensures RecordOk(b, p) && RecLen(b, p) == len && Ino(b, p) == e.ino != 0 && NameLen(b, p) == |e.name|
  {
    assert RecordAt(b, p).live[0] == Dirent(NameAt(b, p), Ino(b, p), TypeAt(b, p));
  }

  /** The record at p, cut, is tight, and the new one behind it has the slack. */
  lemma CutTail(b: Block, p: nat, size: nat, ino: nat, fileType: Byte, name: Name)
    requires Tail(b, p, size) && 0 < ino < U32 && p + DirentLen(size) + DirentLen(|name|) <= |b|
    ensures Tail(Cut(b, p, DirentLen(size), ino, fileType, name), p + DirentLen(size), |name|)
  {
    hide Cut, NoRoom, NameAt, RecordAt;
    var actual := DirentLen(size);
    var b' := Cut(b, p, actual, ino, fileType, name);
    CutReads(b, p, actual, ino, fileType, name);
    UsedRecord(b, p);
    TightFrame(b, b', 0, p);
    LiveRecord(b', p, actual, Dirent(NameAt(b, p), Ino(b, p), TypeAt(b, p)));
    LiveRecord(b', p + actual, RecLen(b, p) - actual, Dirent(name, ino, fileType));
    TightMore(b', 0, p);
  }

  /** The next name goes behind the last one while the slack lasts. */
  lemma TailTakes(b: Block, p: nat, size: nat, ino: nat, fileType: Byte, name: Name)
    requires Tail(b, p, size) && 0 < ino < U32 && p + DirentLen(size) + DirentLen(|name|) <= |b|
    ensures !NoRoom(b, 0, DirentLen(|name|))
    ensures Tail(WithName(b, 0, ino, fileType, name), p + DirentLen(size), |name|)
  {
    hide Cut, Tight;
    TightSkips(b, 0, p, ino, fileType, name);
    CutTail(b, p, size, ino, fileType, name);
  }

  lemma TailFull(b: Block, p: nat, size: nat, name: Name)
    requires Tail(b, p, size) && p + DirentLen(size) + DirentLen(|name|) > |b|
    ensures NoRoom(b, 0, DirentLen(|name|))
  {
    TightSkips(b, 0, p, 0, 0, name);
  }

  lemma DotsTail(blockSize: nat, self: nat, parent: nat, fileType: Byte)
    requires 1024 <= blockSize <= 4096 && 0 < self < U32 && 0 < parent < U32
    ensures Tail(Dots(blockSize, self, parent, fileType), 12, 2)
  {
    DotsLists(blockSize, self, parent, fileType);
    var b := Dots(blockSize, self, parent, fileType);
    assert DirentLen(1) == 12 && |DOT| == 1 && |DOTDOT| == 2;
    LiveRecord(b, 0, 12, Dirent(DOT, self, fileType));
    LiveRecord(b, 12, blockSize - 12, Dirent(DOTDOT, parent, fileType));
    assert Tight(b, 12, 12);
  }

  // ----- the run

  /** Names as long as the operations accept. */
  function Long(k: nat): (n: Name)
    requires k < 26
    ensures |n| == 126 && M.IsName(n)
  {
    seq(126, j => if j == 0 then 65 + k else 97)
  }

  /** k long names in one block of the root. */
  ghost predicate Filled(m: M.Mounted, sb: P.Super, k: nat) {
    && k <= 7 && M.Sane(m, sb)
    && (forall i: nat :: i in m.inodes <==> i == N.ROOT || sb.firstIno <= i < sb.firstIno + k)
    && N.ROOT in m.blocks && |m.blocks[N.ROOT]| == 1
    && Tail(m.blocks[N.ROOT][0], 12 + (if k == 0 then 0 else 12 + 136 * (k - 1)), if k == 0 then 2 else 126)
    && (forall j :: 0 <= j < 26 ==> (Long(j) in DirMap(m.blocks[N.ROOT]) <==> j < k))
  }

  function MakeLong(k: nat): P.Op<M.Spare>
    requires k < 26
  {
    P.OpCreate([Long(k)], M.Spare(M.Denies(NoMemory), M.Denies(NoMemory)))
  }

  lemma LongDiffer(j: nat, k: nat)
    requires j < 26 && k < 26
    ensures Long(j) == Long(k) <==> j == k
  {
    assert Long(j)[0] == 65 + j && Long(k)[0] == 65 + k;
  }

  lemma StartFilled(sb: P.Super)
    requires M.SuperOk(sb) && sb.blockSize == 1024
    ensures Filled(M.Start(sb), sb, 0)
  {
    M.StartSane(sb);
    DotsTail(sb.blockSize, N.ROOT, N.ROOT, 2);
    DotsLists(sb.blockSize, N.ROOT, N.ROOT, 2);
    DotsMap(Dots(sb.blockSize, N.ROOT, N.ROOT, 2), N.ROOT, N.ROOT, 2);
  }

  /** The walk to a name in the root. */
  lemma WalkOne(t: N.Tree, n: N.Name)
    requires n != DOT && n != DOTDOT
    ensures P.Walk(t, N.ROOT, [n]) == P.LookupChild(t, N.ROOT, n)
    ensures P.Locate(t, [n]) == P.At(N.ROOT, n)
  {
    assert [n][1..] == [] && [n][..0] == [];
    var next := P.LookupChild(t, N.ROOT, n);
    if next.Found? { assert P.Walk(t, next.ino, []) == next; }
  }

  lemma NextInode(m: M.Mounted, sb: P.Super, k: nat)
    requires Filled(m, sb, k) && sb.firstIno > N.ROOT && sb.firstIno + k <= sb.total
    ensures P.Free(M.TreeOf(m), sb) == sb.firstIno + k
  {
    var t, r := M.TreeOf(m), P.Free(M.TreeOf(m), sb);
    assert sb.firstIno + k !in t && N.ROOT in t;
    assert forall i: nat :: i in t <==> i in m.inodes;
  }

  /** A long name fits behind the others as long as there are fewer than seven. */
  lemma LongFits(m: M.Mounted, sb: P.Super, k: nat, ino: nat)
    requires Filled(m, sb, k) && k < 7 && sb.blockSize == 1024 && 0 < ino < U32
    ensures !M.Full(m, N.ROOT, Long(k))
    ensures var after := WithEntry(m.blocks[N.ROOT], sb.blockSize, ino, 1, Long(k));
            && |after| == 1 && Tail(after[0], 12 + 12 + 136 * k, 126)
            && Dir(after) && DirMap(after) == DirMap(m.blocks[N.ROOT])[Long(k) := ino]
  {
    hide Tail, Filled, Dir, DirMap, NoRoom, WithName, M.Formed, DirentLen;
    RootOf(m, sb, k);
    var b := m.blocks[N.ROOT][0];
    var p, size := 12 + (if k == 0 then 0 else 12 + 136 * (k - 1)), if k == 0 then 2 else 126;
    assert DirentLen(2) == 12 && DirentLen(126) == 136;
    TailTakes(b, p, size, ino, 1, Long(k));
    NotPacked(m.blocks[N.ROOT], 0, DirentLen(126));
    assert FirstRoom(m.blocks[N.ROOT], 0, DirentLen(126)) == 0;
    WithEntryAdds(m.blocks[N.ROOT], sb.blockSize, ino, 1, Long(k));
  }

  lemma RootOf(m: M.Mounted, sb: P.Super, k: nat)
    requires Filled(m, sb, k)
    ensures M.SuperOk(sb) && N.ROOT in m.blocks && |m.blocks[N.ROOT]| == 1 && N.ROOT in m.inodes
    ensures Dir(m.blocks[N.ROOT]) && |m.blocks[N.ROOT][0]| == sb.blockSize && M.HasBlocks(m, N.ROOT)
    ensures Tail(m.blocks[N.ROOT][0], 12 + (if k == 0 then 0 else 12 + 136 * (k - 1)), if k == 0 then 2 else 126)
    ensures forall j :: 0 <= j < 26 ==> (Long(j) in DirMap(m.blocks[N.ROOT]) <==> j < k)
    ensures N.IsDir(M.TreeOf(m), N.ROOT) && M.TreeOf(m)[N.ROOT].entries == DirMap(m.blocks[N.ROOT])
  {
    assert M.DirFormed(m, sb, N.ROOT);
  }

  lemma LongMade(m: M.Mounted, sb: P.Super, k: nat)
    requires Filled(m, sb, k) && k < 7 && sb.blockSize == 1024
    requires sb.firstIno > N.ROOT && sb.firstIno + 7 <= sb.total
    ensures !P.Refuses(M.TreeOf(m), sb, M.Roomed(m, MakeLong(k)))
    ensures M.After(m, sb, MakeLong(k)) == M.NewFile(m, sb, N.ROOT, Long(k), sb.firstIno + k, N.Regular)
  {
    hide Tail, DirMap, Dir, M.NewFile, M.Full;
    RootOf(m, sb, k);
    WalkOne(M.TreeOf(m), Long(k));
    NextInode(m, sb, k);
    LongFits(m, sb, k, sb.firstIno + k);
  }

  /** Creating the next long name asks for no block. */
  lemma FillStep(m: M.Mounted, sb: P.Super, k: nat)
    requires Filled(m, sb, k) && k < 7 && sb.blockSize == 1024
    requires sb.firstIno > N.ROOT && sb.firstIno + 7 <= sb.total
    ensures Filled(M.After(m, sb, MakeLong(k)), sb, k + 1)
  {
    hide Tail, DirMap, Dir, M.Sane, M.After, M.Full, P.Refuses;
    RootOf(m, sb, k);
    var t, i := M.TreeOf(m), sb.firstIno + k;
    WalkOne(t, Long(k));
    NextInode(m, sb, k);
    LongFits(m, sb, k, i);
    M.SaneIff(m, sb, MakeLong(k));
    var u := M.After(m, sb, MakeLong(k));
    LongMade(m, sb, k);
    forall j | 0 <= j < 26 ensures Long(j) in DirMap(u.blocks[N.ROOT]) <==> j < k + 1 { LongDiffer(j, k); }
  }

  function MakeAll(from: nat): seq<P.Op<M.Spare>>
    requires from <= 7
    decreases 7 - from
  {
    if from == 7 then [] else [MakeLong(from)] + MakeAll(from + 1)
  }

  const MOVE: P.Op<M.Spare> := P.OpRename([Long(0)], [Long(7)], M.Spare(M.Grants, M.Grants))

  /** With seven long names in the block there is no room for an eighth. */
  lemma SevenFill(m: M.Mounted, sb: P.Super)
    requires Filled(m, sb, 7) && sb.blockSize == 1024
    ensures M.Full(m, N.ROOT, Long(7))
    ensures !P.Refuses(M.TreeOf(m), sb, M.Roomed(m, MOVE))
    ensures !M.Sane(M.After(m, sb, MOVE), sb) && Long(7) !in M.TreeOf(M.After(m, sb, MOVE))[N.ROOT].entries
  {
    hide Tail, DirMap, Dir;
    RootOf(m, sb, 7);
    assert DirentLen(126) == 136;
    TailFull(m.blocks[N.ROOT][0], 840, 126, Long(7));
    WalkOne(M.TreeOf(m), Long(0));
    WalkOne(M.TreeOf(m), Long(7));
    LongDiffer(0, 7);
    NoLongDir(m, sb);
    M.FullLosesName(m, sb, [Long(0)], [Long(7)], M.Spare(M.Grants, M.Grants));
  }

  /** A rename within the root is not refused for what it moves. */
  lemma NoLongDir(m: M.Mounted, sb: P.Super)
    requires Filled(m, sb, 7)
    ensures var t := M.TreeOf(m);
            Long(0) in t[N.ROOT].entries && t[N.ROOT].entries[Long(0)] in t
  {
    RootOf(m, sb, 7);
    assert N.Edge(M.TreeOf(m), N.ROOT, Long(0), M.TreeOf(m)[N.ROOT].entries[Long(0)]);
  }

  lemma {:induction false} FillRun(m: M.Mounted, sb: P.Super, k: nat)
    requires Filled(m, sb, k) && sb.blockSize == 1024 && sb.firstIno > N.ROOT && sb.firstIno + 7 <= sb.total
    ensures M.RunSane(m, sb, MakeAll(k)) && !M.RunSane(m, sb, MakeAll(k) + [MOVE])
    decreases 7 - k
  {
    hide Filled, Tail, M.After, M.Sane;
    FilledSane(m, sb, k);
    if k == 7 {
      SevenFill(m, sb);
      assert MakeAll(7) + [MOVE] == [MOVE] && [MOVE][1..] == [];
      assert !M.RunSane(M.After(m, sb, MOVE), sb, []);
    } else {
      var u, rest := M.After(m, sb, MakeLong(k)), MakeAll(k + 1);
      FillStep(m, sb, k);
      FillRun(u, sb, k + 1);
      assert MakeAll(k)[1..] == rest && (MakeAll(k) + [MOVE])[1..] == rest + [MOVE];
    }
  }

  lemma FilledSane(m: M.Mounted, sb: P.Super, k: nat)
    requires Filled(m, sb, k)
    ensures k <= 7 && M.Sane(m, sb)
  {}

  /** On a new volume of 1024-byte blocks: seven files with long names are created in the root, all
      in its first block, and renaming one of them then loses it, though a new block is granted. */
  lemma FullDirectoryRun(sb: P.Super)
    requires M.SuperOk(sb) && sb.blockSize == 1024 && sb.firstIno > N.ROOT && sb.firstIno + 7 <= sb.total
    ensures M.TreeOf(M.Start(sb)) == P.EMPTY
    ensures M.RunSane(M.Start(sb), sb, MakeAll(0)) && !M.RunSane(M.Start(sb), sb, MakeAll(0) + [MOVE])
  {
    M.StartSane(sb);
    StartFilled(sb);
    FillRun(M.Start(sb), sb, 0);
  }
}
