/** One directory block, byte for byte: records of `rec_len` bytes, each an 8-byte header and a
    name, that tile the block. */
module Ext4DirBlock {
  import opened Bytes
  import opened Ext4Common
  import opened RecordChain

  type Block = seq<Byte>
  type Name = n: seq<Byte> | |n| <= 255

  datatype Dirent = Dirent(name: Name, ino: nat, fileType: Byte)

  const HEADER := 8

  function Ino(b: Block, p: nat): nat
    requires p + HEADER <= |b|
  {
    Word32(b[p..p + 4])
  }

  function RecLen(b: Block, p: nat): nat
    requires p + HEADER <= |b|
  {
    Word16(b[p + 4..p + 6])
  }

  function NameLen(b: Block, p: nat): nat
    requires p + HEADER <= |b|
  {
    b[p + 6]
  }

  function TypeAt(b: Block, p: nat): Byte
    requires p + HEADER <= |b|
  {
    b[p + 7]
  }

  function NameAt(b: Block, p: nat): Name
    requires p + HEADER <= |b| && p + HEADER + NameLen(b, p) <= |b|
  {
    b[p + HEADER..p + HEADER + NameLen(b, p)]
  }

  /** The record length a name needs: header and name rounded up to four bytes. */
  function DirentLen(nameLen: nat): (r: nat)
    ensures r % 4 == 0 && HEADER + nameLen <= r < HEADER + nameLen + 4
  {
    (HEADER + nameLen + 3) / 4 * 4
  }

  /** A usable record: whole inside the block, and long enough for its name if it is in use. */
  predicate RecordOk(b: Block, p: nat) {
    && p + HEADER <= |b| && HEADER <= RecLen(b, p) && p + RecLen(b, p) <= |b|
    && (Ino(b, p) != 0 ==> HEADER + NameLen(b, p) <= RecLen(b, p))
  }

  function RecordAt(b: Block, p: nat): Rec<Dirent> {
    if !RecordOk(b, p) then Stop
    else Rec(RecLen(b, p), if Ino(b, p) == 0 then [] else [Dirent(NameAt(b, p), Ino(b, p), TypeAt(b, p))])
  }

  function Read(b: Block): Reading<Dirent> { (p: nat) => RecordAt(b, p) }

  /** The rec_len chain covers the block exactly. */
  predicate Tiled(b: Block) { Tiles(Read(b), |b|, 0) }

  /** The names in use, in block order. */
  function Listing(b: Block): seq<Dirent> { Entries(Read(b), |b|, 0) }

  // ----- edits

  ghost predicate BytesKept(b: Block, b': Block, s: nat, p: nat) {
    |b'| == |b| && p <= |b| && forall k :: s <= k < p ==> b'[k] == b[k]
  }

  lemma RecordFrame(b: Block, b': Block, p: nat, q: nat)
    requires BytesKept(b, b', p, q) && RecordOk(b, p) && p + RecLen(b, p) <= q
    ensures RecordAt(b', p) == RecordAt(b, p)
  {
    assert b[p..p + 4] == b'[p..p + 4] && b[p + 4..p + 6] == b'[p + 4..p + 6];
    if Ino(b, p) != 0 { assert NameAt(b, p) == NameAt(b', p); }
  }

  lemma AgreeFromBytes(b: Block, b': Block, s: nat, p: nat)
    requires BytesKept(b, b', s, p)
    ensures Agree(Read(b), Read(b'), |b|, s, p)
  {
    forall k: nat | s <= k < p && RecordChain.Ok(Read(b), |b|, k) && k + Read(b)(k).len <= p
      ensures Read(b')(k) == Read(b)(k) {
      RecordFrame(b, b', k, p);
    }
  }

  function Record(ino: nat, recLen: nat, fileType: Byte, name: Name): (r: seq<Byte>)
    requires ino < U32 && recLen < 0x1_0000
    ensures |r| == HEADER + |name|
  {
    Le32(ino) + Le16(recLen) + [|name|, fileType] + name
  }

  /** A record begins with the inode number and its own length, lowest bytes first; then come the length
      of the name, the type and the name. */
  lemma RecordBytes(ino: nat, recLen: nat, fileType: Byte, name: Name)
    requires ino < U32 && recLen < 0x1_0000
    ensures var r := Record(ino, recLen, fileType, name);
            && r[0] + 0x100 * (r[1] as int) + 0x1_0000 * (r[2] as int) + 0x100_0000 * (r[3] as int) == ino
            && r[4] + 0x100 * (r[5] as int) == recLen && r[6] == |name| && r[7] == fileType && r[8..] == name
  {
    var r := Record(ino, recLen, fileType, name);
    assert r[..4] == Le32(ino) && r[4..6] == Le16(recLen);
    assert Word32(r[..4]) == ino && Word16(r[4..6]) == recLen;
  }

  /** A stored record reads back, and the bytes around it are untouched. */
  lemma RecordReads(b: Block, p: nat, ino: nat, recLen: nat, fileType: Byte, name: Name)
    requires 0 < ino < U32 && recLen < 0x1_0000 && HEADER + |name| <= recLen && p + recLen <= |b|
    ensures var b' := Overwrite(b, p, Record(ino, recLen, fileType, name));
            && RecordAt(b', p) == Rec(recLen, [Dirent(name, ino, fileType)])
            && BytesKept(b, b', 0, p) && BytesKept(b, b', p + HEADER + |name|, |b|)
  {
    var r := Record(ino, recLen, fileType, name);
    var b' := Overwrite(b, p, r);
    assert b'[p..p + 4] == Le32(ino);
    assert b'[p + 4..p + 6] == Le16(recLen);
    assert NameAt(b', p) == name;
  }

  /** Cutting a used record short: only its length changes. */
  lemma ShortenedReads(b: Block, p: nat, actual: nat)
    requires RecordOk(b, p) && Ino(b, p) != 0 && HEADER + NameLen(b, p) <= actual <= RecLen(b, p)
    ensures var b' := Overwrite(b, p + 4, Le16(actual));
            && RecordAt(b', p) == Rec(actual, RecordAt(b, p).live)
            && BytesKept(b, b', 0, p) && BytesKept(b, b', p + actual, |b|)
  {
    var b' := Overwrite(b, p + 4, Le16(actual));
    assert b'[p..p + 4] == b[p..p + 4] && b'[p + 4..p + 6] == Le16(actual);
    assert NameAt(b', p) == NameAt(b, p);
  }

  /** Clearing the inode number frees the record and keeps its length. */
  lemma ClearedReads(b: Block, p: nat)
    requires RecordOk(b, p)
    ensures var b' := Overwrite(b, p, Le32(0));
            && RecordAt(b', p) == Rec(RecLen(b, p), [])
            && BytesKept(b, b', 0, p) && BytesKept(b, b', p + RecLen(b, p), |b|)
  {
    var b' := Overwrite(b, p, Le32(0));
    assert b'[p..p + 4] == Le32(0) && b'[p + 4..p + 6] == b[p + 4..p + 6];
  }

  /** Bytes changed only within one record. */
  lemma Rewriting(b: Block, b': Block, p: nat)
    requires Tiled(b) && Reaches(Read(b), |b|, 0, p) && RecordOk(b, p)
    requires BytesKept(b, b', 0, p) && BytesKept(b, b', p + RecLen(b, p), |b|)
    ensures OnlyRecord(Read(b), Read(b'), |b|, p)
  {
    AgreeFromBytes(b, b', 0, p);
    AgreeFromBytes(b, b', p + RecLen(b, p), |b|);
  }

  // ----- what the routines leave in a block

  /** Can the record at p take a name needing that much? */
  predicate Fits(b: Block, p: nat, needed: nat)
    requires RecordOk(b, p)
  {
    if Ino(b, p) == 0 then needed <= RecLen(b, p) else DirentLen(NameLen(b, p)) + needed <= RecLen(b, p)
  }

  predicate NoRoom(b: Block, p: nat, needed: nat)
    decreases if p <= |b| then |b| - p else 0
  {
    RecordOk(b, p) ==> !Fits(b, p, needed) && NoRoom(b, p + RecLen(b, p), needed)
  }

  /** The used record at p is cut to `actual` bytes and its slack becomes a record for the name. */
  function Cut(b: Block, p: nat, actual: nat, ino: nat, fileType: Byte, name: Name): (r: Block)
    requires RecordOk(b, p) && ino < U32 && HEADER <= actual && actual + HEADER + |name| <= RecLen(b, p)
    ensures |r| == |b|
  {
    var rest, m := RecLen(b, p) - actual, p + actual;
    Overwrite(Overwrite(Overwrite(b, p + 4, Le16(actual)), m, Zeros(rest)), m, Record(ino, rest, fileType, name))
  }

  /** The record at p takes the name: a free one as it is, a used one by being cut. */
  function Placed(b: Block, p: nat, ino: nat, fileType: Byte, name: Name): (r: Block)
    requires RecordOk(b, p) && Fits(b, p, DirentLen(|name|)) && ino < U32
    ensures |r| == |b|
  {
    if Ino(b, p) == 0 then Overwrite(b, p, Record(ino, RecLen(b, p), fileType, name))
    else Cut(b, p, DirentLen(NameLen(b, p)), ino, fileType, name)
  }

  /** The first record from p on that has room takes the name. */
  function WithName(b: Block, p: nat, ino: nat, fileType: Byte, name: Name): (r: Block)
    requires ino < U32
    ensures |r| == |b|
    decreases if p <= |b| then |b| - p else 0
  {
    if !RecordOk(b, p) then b
    else if Fits(b, p, DirentLen(|name|)) then Placed(b, p, ino, fileType, name)
    else WithName(b, p + RecLen(b, p), ino, fileType, name)
  }

  /** The first record from p on in use by the name, or the end of the block. */
  function Position(b: Block, p: nat, name: Name): (q: nat)
    decreases if p <= |b| then |b| - p else 0
  {
    if !RecordOk(b, p) then |b|
    else if Ino(b, p) != 0 && NameAt(b, p) == name then p
    else Position(b, p + RecLen(b, p), name)
  }

  /** The inode number of the record at p is cleared. */
  function Cleared(b: Block, p: nat): (r: Block)
    requires p + HEADER <= |b|
    ensures |r| == |b|
  {
    Overwrite(b, p, Le32(0))
  }

  lemma CutReads(b: Block, p: nat, actual: nat, ino: nat, fileType: Byte, name: Name)
    requires RecordOk(b, p) && Ino(b, p) != 0
    requires 0 < ino < U32 && HEADER + NameLen(b, p) <= actual && actual + HEADER + |name| <= RecLen(b, p)
    ensures var b' := Cut(b, p, actual, ino, fileType, name);
            && BytesKept(b, b', 0, p) && BytesKept(b, b', p + RecLen(b, p), |b|)
            && RecordAt(b', p) == Rec(actual, RecordAt(b, p).live)
            && RecordAt(b', p + actual) == Rec(RecLen(b, p) - actual, [Dirent(name, ino, fileType)])
  {
    var len, m := RecLen(b, p), p + actual;
    var cut := Overwrite(b, p + 4, Le16(actual));
    ShortenedReads(b, p, actual);
    var cleared := Overwrite(cut, m, Zeros(len - actual));
    RecordReads(cleared, m, ino, len - actual, fileType, name);
    var b' := Overwrite(cleared, m, Record(ino, len - actual, fileType, name));
    assert BytesKept(cut, b', 0, m);
    RecordFrame(cut, b', p, m);
  }

  lemma CutGains(b: Block, p: nat, actual: nat, ino: nat, fileType: Byte, name: Name)
    requires Tiled(b) && Reaches(Read(b), |b|, 0, p) && RecordOk(b, p) && Ino(b, p) != 0
    requires 0 < ino < U32 && HEADER + NameLen(b, p) <= actual && actual + HEADER + |name| <= RecLen(b, p)
    ensures var b' := Cut(b, p, actual, ino, fileType, name);
            Tiled(b') && Gained(Listing(b), Listing(b'), Dirent(name, ino, fileType))
  {
    hide Cut, Reaches, NameAt;
    var b' := Cut(b, p, actual, ino, fileType, name);
    CutReads(b, p, actual, ino, fileType, name);
    Rewriting(b, b', p);
    SplitGains(Read(b), Read(b'), |b|, p, p + actual, Dirent(name, ino, fileType));
  }

  /** The block still tiles and lists the name. */
  lemma PlacedGains(b: Block, p: nat, ino: nat, fileType: Byte, name: Name)
    requires Tiled(b) && Reaches(Read(b), |b|, 0, p) && RecordOk(b, p) && 0 < ino < U32 && Fits(b, p, DirentLen(|name|))
    ensures var b' := Placed(b, p, ino, fileType, name);
            Tiled(b') && Gained(Listing(b), Listing(b'), Dirent(name, ino, fileType))
  {
    if Ino(b, p) == 0 {
      var b' := Placed(b, p, ino, fileType, name);
      RecordReads(b, p, ino, RecLen(b, p), fileType, name);
      Rewriting(b, b', p);
      ReusedGains(Read(b), Read(b'), |b|, p, Dirent(name, ino, fileType));
    } else {
      CutGains(b, p, DirentLen(NameLen(b, p)), ino, fileType, name);
    }
  }

  /** First fit lists the name exactly when there is room for it, and else leaves the block alone. */
  lemma {:induction false} WithNameGains(b: Block, p: nat, ino: nat, fileType: Byte, name: Name)
    requires Tiled(b) && Reaches(Read(b), |b|, 0, p) && Tiles(Read(b), |b|, p) && 0 < ino < U32
    ensures var b' := WithName(b, p, ino, fileType, name);
            && Tiled(b')
            && if NoRoom(b, p, DirentLen(|name|)) then b' == b
               else Gained(Listing(b), Listing(b'), Dirent(name, ino, fileType))
    decreases if p <= |b| then |b| - p else 0
  {
    if RecordOk(b, p) {
      assert Read(b)(p) == RecordAt(b, p);
      if Fits(b, p, DirentLen(|name|)) {
        PlacedGains(b, p, ino, fileType, name);
      } else {
        ReachesNext(Read(b), |b|, p);
        WithNameGains(b, p + RecLen(b, p), ino, fileType, name);
      }
    }
  }

  /** Clearing the record of a name takes just that entry out. */
  lemma ClearedDrops(b: Block, p: nat)
    requires Tiled(b) && Reaches(Read(b), |b|, 0, p) && RecordOk(b, p) && Ino(b, p) != 0
    ensures var b' := Cleared(b, p);
            Tiled(b') && Lost(Listing(b), Listing(b'), Dirent(NameAt(b, p), Ino(b, p), TypeAt(b, p)))
  {
    ClearedReads(b, p);
    Rewriting(b, Cleared(b, p), p);
    ClearedLoses(Read(b), Read(Cleared(b, p)), |b|, p, Dirent(NameAt(b, p), Ino(b, p), TypeAt(b, p)));
  }

  /** The position of a name is where it is listed, and the end when it is not. */
  lemma {:induction false} PositionFinds(b: Block, p: nat, name: Name)
    requires Tiled(b) && Reaches(Read(b), |b|, 0, p) && Tiles(Read(b), |b|, p)
    requires forall e: Dirent :: e in Before(Read(b), |b|, 0, p) ==> e.name != name
    ensures var q := Position(b, p, name);
            if q < |b|
            then Reaches(Read(b), |b|, 0, q) && RecordOk(b, q) && Ino(b, q) != 0 && NameAt(b, q) == name
                 && Dirent(name, Ino(b, q), TypeAt(b, q)) in Listing(b)
            else forall e :: e in Listing(b) ==> e.name != name
    decreases if p <= |b| then |b| - p else 0
  {
    hide TypeAt, RecLen, Ino, NameLen;
    var r: Reading<Dirent> := Read(b);
    assert r(p) == RecordAt(b, p);
    if RecordOk(b, p) {
      ReachesNext(r, |b|, p);
      if Ino(b, p) != 0 && NameAt(b, p) == name {
        SplitAt(r, |b|, 0, p + RecLen(b, p));
      } else {
        PositionFinds(b, p + RecLen(b, p), name);
      }
    } else {
      SplitAt(r, |b|, 0, p);
    }
  }

  // ----- the block-level routines

  /** The first live record of that name. */
  method FindEntry(b: Block, name: Name) returns (found: bool, p: nat)
    requires Tiled(b)
    ensures found <==> Position(b, 0, name) < |b|
    ensures found ==> p == Position(b, 0, name)
    ensures found ==> Reaches(Read(b), |b|, 0, p) && RecordOk(b, p) && Ino(b, p) != 0 && NameAt(b, p) == name
    ensures found ==> Dirent(name, Ino(b, p), TypeAt(b, p)) in Listing(b)
    ensures !found ==> forall e :: e in Listing(b) ==> e.name != name
  {
    hide TypeAt, Listing;
    ghost var r: Reading<Dirent> := Read(b);
    PositionFinds(b, 0, name);
    p := 0;
    while p + HEADER <= |b|
      invariant p <= |b| && Tiles(r, |b|, p)
      invariant Position(b, 0, name) == Position(b, p, name)
      decreases |b| - p
    {
      assert r(p) == RecordAt(b, p);
      if Ino(b, p) != 0 && NameAt(b, p) == name { return true, p; }
      p := p + RecLen(b, p);
    }
    return false, p;
  }

  /** Marks the record at p as removed; its space stays a record of its own. */
  method ClearEntry(b: Block, p: nat) returns (b': Block)
    requires Tiled(b) && Reaches(Read(b), |b|, 0, p) && RecordOk(b, p) && Ino(b, p) != 0
    ensures b' == Cleared(b, p) && Tiled(b')
    ensures Lost(Listing(b), Listing(b'), Dirent(NameAt(b, p), Ino(b, p), TypeAt(b, p)))
  {
    b' := Overwrite(b, p, Le32(0));
    ClearedDrops(b, p);
  }

  /** Lets an unused record take the name. */
  method ReuseEntry(b: Block, p: nat, ino: nat, fileType: Byte, name: Name) returns (b': Block)
    requires RecordOk(b, p) && Ino(b, p) == 0 && 0 < ino < U32 && DirentLen(|name|) <= RecLen(b, p)
    ensures b' == Placed(b, p, ino, fileType, name)
  {
    b' := Overwrite(b, p, Record(ino, RecLen(b, p), fileType, name));
  }

  /** Cuts the used record at p and makes its slack a record for the name. */
  method SplitEntry(b: Block, p: nat, actual: nat, ino: nat, fileType: Byte, name: Name) returns (b': Block)
    requires RecordOk(b, p) && Ino(b, p) != 0 && 0 < ino < U32
    requires actual == DirentLen(NameLen(b, p)) && Fits(b, p, DirentLen(|name|))
    ensures b' == Placed(b, p, ino, fileType, name)
  {
    hide Record, Word16;
    var rest, m := RecLen(b, p) - actual, p + actual;
    b' := Overwrite(b, p + 4, Le16(actual));
    b' := Overwrite(b', m, Zeros(rest));
    b' := Overwrite(b', m, Record(ino, rest, fileType, name));
  }

  /** First fit within one block: a free record is reused, a used one with slack is split. */
  method InsertEntry(b: Block, ino: nat, fileType: Byte, name: Name) returns (done: bool, b': Block)
    requires Tiled(b) && 0 < ino < U32
    ensures done == !NoRoom(b, 0, DirentLen(|name|)) && b' == WithName(b, 0, ino, fileType, name)
    ensures Tiled(b') && if done then Gained(Listing(b), Listing(b'), Dirent(name, ino, fileType)) else b' == b
  {
    hide Placed, Gained, Listing, NameAt, RecLen, Ino, NameLen, Reaches, DirentLen;
    ghost var r: Reading<Dirent> := Read(b);
    WithNameGains(b, 0, ino, fileType, name);
    var p, needed := 0, DirentLen(|name|);
    while p + HEADER <= |b|
      invariant p <= |b| && Tiles(r, |b|, p)
      invariant NoRoom(b, 0, needed) == NoRoom(b, p, needed)
      invariant WithName(b, 0, ino, fileType, name) == WithName(b, p, ino, fileType, name)
      decreases |b| - p
    {
      assert r(p) == RecordAt(b, p);
      if Ino(b, p) == 0 && needed <= RecLen(b, p) {
        b' := ReuseEntry(b, p, ino, fileType, name);
        return true, b';
      }
      if Ino(b, p) != 0 && DirentLen(NameLen(b, p)) + needed <= RecLen(b, p) {
        b' := SplitEntry(b, p, DirentLen(NameLen(b, p)), ino, fileType, name);
        return true, b';
      }
      p := p + RecLen(b, p);
    }
    return false, b;
  }

  /** A whole block as one record. */
  function Fresh(blockSize: nat, ino: nat, fileType: Byte, name: Name): (b: Block)
    requires 1024 <= blockSize <= 4096 && ino < U32
    ensures |b| == blockSize
  {
    Overwrite(Zeros(blockSize), 0, Record(ino, blockSize, fileType, name))
  }

  lemma FreshLists(blockSize: nat, ino: nat, fileType: Byte, name: Name)
    requires 1024 <= blockSize <= 4096 && 0 < ino < U32
    ensures var b := Fresh(blockSize, ino, fileType, name);
            Tiled(b) && Listing(b) == [Dirent(name, ino, fileType)]
  {
    var b := Fresh(blockSize, ino, fileType, name);
    RecordReads(Zeros(blockSize), 0, ino, blockSize, fileType, name);
    assert Read(b)(0) == RecordAt(b, 0);
    OneRecord(Read(b), |b|, 0);
    EndOfBlock(Read(b), |b|);
  }

  method FreshBlock(blockSize: nat, ino: nat, fileType: Byte, name: Name) returns (b: Block)
    requires 1024 <= blockSize <= 4096 && 0 < ino < U32
    ensures b == Fresh(blockSize, ino, fileType, name) && Tiled(b) && Listing(b) == [Dirent(name, ino, fileType)]
  {
    b := Zeros(blockSize);
    b := Overwrite(b, 0, Record(ino, blockSize, fileType, name));
    FreshLists(blockSize, ino, fileType, name);
  }

  /** The first block of a new directory: "." and "..". */
  function Dots(blockSize: nat, self: nat, parent: nat, fileType: Byte): (b: Block)
    requires 1024 <= blockSize <= 4096 && self < U32 && parent < U32
    ensures |b| == blockSize
  {
    var first := DirentLen(1);
    Overwrite(Overwrite(Zeros(blockSize), 0, Record(self, first, fileType, DOT)),
              first, Record(parent, blockSize - first, fileType, DOTDOT))
  }

  lemma DotsLists(blockSize: nat, self: nat, parent: nat, fileType: Byte)
    requires 1024 <= blockSize <= 4096 && 0 < self < U32 && 0 < parent < U32
    ensures var b := Dots(blockSize, self, parent, fileType);
            && Tiled(b) && Listing(b) == [Dirent(DOT, self, fileType), Dirent(DOTDOT, parent, fileType)]
            && RecordAt(b, 0) == Rec(DirentLen(1), [Dirent(DOT, self, fileType)])
            && RecordAt(b, DirentLen(1)) == Rec(blockSize - DirentLen(1), [Dirent(DOTDOT, parent, fileType)])
  {
    var first := DirentLen(1);
    var z := Overwrite(Zeros(blockSize), 0, Record(self, first, fileType, DOT));
    var b := Dots(blockSize, self, parent, fileType);
    RecordReads(Zeros(blockSize), 0, self, first, fileType, DOT);
    RecordReads(z, first, parent, blockSize - first, fileType, DOTDOT);
    RecordFrame(z, b, 0, first);
    var r: Reading<Dirent> := Read(b);
    assert r(0) == RecordAt(b, 0) && r(first) == RecordAt(b, first);
    TwoRecordBlock(r, |b|, first);
  }

  method DotsBlock(blockSize: nat, self: nat, parent: nat, fileType: Byte) returns (b: Block)
    requires 1024 <= blockSize <= 4096 && 0 < self < U32 && 0 < parent < U32
    ensures b == Dots(blockSize, self, parent, fileType)
    ensures Tiled(b) && Listing(b) == [Dirent(DOT, self, fileType), Dirent(DOTDOT, parent, fileType)]
  {
    var first := DirentLen(1);
    b := Zeros(blockSize);
    b := Overwrite(b, 0, Record(self, first, fileType, DOT));
    b := Overwrite(b, first, Record(parent, blockSize - first, fileType, DOTDOT));
    DotsLists(blockSize, self, parent, fileType);
  }

  ghost predicate DotsOnly(es: seq<Dirent>) { forall e :: e in es ==> e.name == DOT || e.name == DOTDOT }

  /** Does the block hold nothing but "." and ".."? */
  method OnlyDots(b: Block) returns (only: bool)
    requires Tiled(b)
    ensures only <==> DotsOnly(Listing(b))
  {
    hide Reaches, Before, NameAt, RecLen, Ino;
    ghost var r: Reading<Dirent> := Read(b);
    ReachesStart(r, |b|);
    var p := 0;
    while p + HEADER <= |b|
      invariant p <= |b| && Reaches(r, |b|, 0, p) && Tiles(r, |b|, p)
      invariant DotsOnly(Before(r, |b|, 0, p))
      decreases |b| - p
    {
      assert r(p) == RecordAt(b, p);
      ReachesNext(r, |b|, p);
      if Ino(b, p) != 0 && NameAt(b, p) != DOT && NameAt(b, p) != DOTDOT {
        SplitAt(r, |b|, 0, p + RecLen(b, p));
        assert Dirent(NameAt(b, p), Ino(b, p), TypeAt(b, p)) in Listing(b);
        return false;
      }
      p := p + RecLen(b, p);
    }
    SplitAt(r, |b|, 0, p);
    return true;
  }
}
