/** A directory as a list of blocks: the map from names to inode numbers that it holds, and what
    adding, removing and renaming an entry make of both. */
module Ext4DirMap {
  import opened Bytes
  import opened Ext4Common
  import opened RecordChain
  import opened Ext4DirBlock

  // ----- entry lists as maps

  ghost predicate UniqueNames(es: seq<Dirent>) {
    forall i, j :: 0 <= i < |es| && 0 <= j < |es| && es[i].name == es[j].name ==> i == j
  }

  ghost function NamesOf(es: seq<Dirent>): set<Name> { set i | 0 <= i < |es| :: es[i].name }

  ghost function InoOf(es: seq<Dirent>, n: Name): nat
    requires n in NamesOf(es)
  {
    var i :| 0 <= i < |es| && es[i].name == n;
    es[i].ino
  }

  ghost function NameMap(es: seq<Dirent>): map<Name, nat> { map n | n in NamesOf(es) :: InoOf(es, n) }

  lemma MapHolds(es: seq<Dirent>, e: Dirent)
    requires UniqueNames(es) && e in es
    ensures e.name in NameMap(es) && NameMap(es)[e.name] == e.ino
  {
    var i :| 0 <= i < |es| && es[i] == e;
    assert es[i].name in NamesOf(es);
  }

  lemma MapFrom(es: seq<Dirent>, n: Name) returns (e: Dirent)
    requires UniqueNames(es) && n in NameMap(es)
    ensures e in es && e.name == n && e.ino == NameMap(es)[n]
  {
    var i :| 0 <= i < |es| && es[i].name == n;
    e := es[i];
    MapHolds(es, e);
  }

  lemma GainedUnique(es: seq<Dirent>, es': seq<Dirent>, e: Dirent)
    requires Gained(es, es', e)
    ensures UniqueNames(es) && e.name !in NamesOf(es) ==> UniqueNames(es')
    ensures UniqueNames(es') ==> UniqueNames(es) && e.name !in NamesOf(es)
  {
    var k :| GainedAt(es, es', k, e);
    if UniqueNames(es) && e.name !in NamesOf(es) {
      forall i, j | 0 <= i < |es'| && 0 <= j < |es'| && es'[i].name == es'[j].name ensures i == j {
        UniqueStep(es, es', k, e, i, j);
      }
    }
    if UniqueNames(es') {
      forall i, j | 0 <= i < |es| && 0 <= j < |es| && es[i].name == es[j].name ensures i == j {
        GainedIndex(es, es', k, e, i);
        GainedIndex(es, es', k, e, j);
      }
      forall i | 0 <= i < |es| ensures es[i].name != e.name { GainedIndex(es, es', k, e, i); }
    }
  }

  lemma UniqueStep(es: seq<Dirent>, es': seq<Dirent>, k: nat, e: Dirent, i: nat, j: nat)
    requires GainedAt(es, es', k, e) && UniqueNames(es) && e.name !in NamesOf(es)
    requires i < |es'| && j < |es'| && es'[i].name == es'[j].name
    ensures i == j
  {
    GainedIndex(es, es', k, e, i);
    GainedIndex(es, es', k, e, j);
    assert forall m :: 0 <= m < |es| ==> es[m].name in NamesOf(es);
  }

  /** One entry more is one pair more. */
  lemma GainedMap(es: seq<Dirent>, es': seq<Dirent>, e: Dirent)
    requires UniqueNames(es) && Gained(es, es', e) && e.name !in NameMap(es)
    ensures UniqueNames(es') && NameMap(es') == NameMap(es)[e.name := e.ino]
  {
    GainedUnique(es, es', e);
    GainedMembers(es, es', e);
    forall n | n in NameMap(es') ensures n in NameMap(es)[e.name := e.ino] &&
      NameMap(es)[e.name := e.ino][n] == NameMap(es')[n] {
      var x := MapFrom(es', n);
      if x != e { MapHolds(es, x); }
    }
    forall n | n in NameMap(es)[e.name := e.ino] ensures n in NameMap(es') {
      if n == e.name {
        MapHolds(es', e);
      } else {
        var x := MapFrom(es, n);
        MapHolds(es', x);
      }
    }
  }

  /** One entry less is one pair less. */
  lemma LostMap(es: seq<Dirent>, es': seq<Dirent>, e: Dirent)
    requires UniqueNames(es) && Lost(es, es', e)
    ensures UniqueNames(es') && e.name in NameMap(es) && NameMap(es)[e.name] == e.ino &&
            NameMap(es') == NameMap(es) - {e.name}
  {
    GainedUnique(es', es, e);
    GainedMap(es', es, e);
  }

  // ----- several blocks

  function AllLive(blocks: seq<Block>): seq<Dirent> {
    if blocks == [] then [] else AllLive(blocks[..|blocks| - 1]) + Listing(blocks[|blocks| - 1])
  }

  /** An entry gained in one block is gained by the directory. */
  lemma {:induction false} BlockGains(blocks: seq<Block>, l: nat, b: Block, e: Dirent)
    requires l < |blocks| && Gained(Listing(blocks[l]), Listing(b), e)
    ensures Gained(AllLive(blocks), AllLive(blocks[l := b]), e)
  {
    var m := |blocks| - 1;
    var init, after := blocks[..m], blocks[l := b];
    if l == m {
      assert after[..m] == init;
      GainedRight(AllLive(init), Listing(blocks[m]), Listing(b), e);
    } else {
      assert after[..m] == init[l := b] && after[m] == blocks[m];
      BlockGains(init, l, b, e);
      GainedLeft(AllLive(init), AllLive(init[l := b]), Listing(blocks[m]), e);
    }
  }

  lemma BlockLoses(blocks: seq<Block>, l: nat, b: Block, e: Dirent)
    requires l < |blocks| && Lost(Listing(blocks[l]), Listing(b), e)
    ensures Lost(AllLive(blocks), AllLive(blocks[l := b]), e)
  {
    var after := blocks[l := b];
    BlockGains(after, l, blocks[l], e);
    assert after[l := blocks[l]] == blocks;
  }

  lemma AppendGains(blocks: seq<Block>, b: Block, e: Dirent)
    requires Listing(b) == [e]
    ensures Gained(AllLive(blocks), AllLive(blocks + [b]), e)
  {
    assert (blocks + [b])[..|blocks|] == blocks;
    Inserted(AllLive(blocks), e, []);
    Empty(AllLive(blocks));
    Empty(AllLive(blocks) + [e]);
  }

  lemma {:induction false} LiveOfBlock(blocks: seq<Block>, l: nat, e: Dirent)
    requires l < |blocks| && e in Listing(blocks[l])
    ensures e in AllLive(blocks)
  {
    if l < |blocks| - 1 { LiveOfBlock(blocks[..|blocks| - 1], l, e); }
  }

  lemma {:induction false} InSomeBlock(blocks: seq<Block>, e: Dirent)
    requires e in AllLive(blocks)
    ensures exists l :: 0 <= l < |blocks| && e in Listing(blocks[l])
  {
    if e !in Listing(blocks[|blocks| - 1]) {
      InSomeBlock(blocks[..|blocks| - 1], e);
      var l :| 0 <= l < |blocks| - 1 && e in Listing(blocks[..|blocks| - 1][l]);
      assert e in Listing(blocks[l]);
    }
  }

  // ----- a list of blocks as a directory

  /** Each block tiled by its records, and no name twice. */
  ghost predicate Dir(blocks: seq<Block>) {
    (forall l :: 0 <= l < |blocks| ==> Tiled(blocks[l])) && UniqueNames(AllLive(blocks))
  }

  ghost function DirMap(blocks: seq<Block>): map<Name, nat> { NameMap(AllLive(blocks)) }

  lemma DirGains(blocks: seq<Block>, l: nat, g: Block, e: Dirent)
    requires Dir(blocks) && l < |blocks| && Tiled(g) && Gained(Listing(blocks[l]), Listing(g), e) &&
             e.name !in DirMap(blocks)
    ensures Dir(blocks[l := g]) && DirMap(blocks[l := g]) == DirMap(blocks)[e.name := e.ino]
  {
    BlockGains(blocks, l, g, e);
    GainedMap(AllLive(blocks), AllLive(blocks[l := g]), e);
  }

  lemma DirGrows(blocks: seq<Block>, g: Block, e: Dirent)
    requires Dir(blocks) && Tiled(g) && Listing(g) == [e] && e.name !in DirMap(blocks)
    ensures Dir(blocks + [g]) && DirMap(blocks + [g]) == DirMap(blocks)[e.name := e.ino]
  {
    hide AllLive, NameMap, UniqueNames, Listing, Tiled;
    AppendGains(blocks, g, e);
    GainedMap(AllLive(blocks), AllLive(blocks + [g]), e);
  }

  lemma DirLoses(blocks: seq<Block>, l: nat, g: Block, e: Dirent)
    requires Dir(blocks) && l < |blocks| && Tiled(g) && Lost(Listing(blocks[l]), Listing(g), e)
    ensures Dir(blocks[l := g]) && DirMap(blocks[l := g]) == DirMap(blocks) - {e.name}
    ensures e.name in DirMap(blocks) && DirMap(blocks)[e.name] == e.ino
  {
    BlockLoses(blocks, l, g, e);
    LostMap(AllLive(blocks), AllLive(blocks[l := g]), e);
  }

  lemma DirHas(blocks: seq<Block>, l: nat, e: Dirent)
    requires Dir(blocks) && l < |blocks| && e in Listing(blocks[l])
    ensures e.name in DirMap(blocks) && DirMap(blocks)[e.name] == e.ino
  {
    LiveOfBlock(blocks, l, e);
    MapHolds(AllLive(blocks), e);
  }

  /** None of the first n blocks lists the name. */
  ghost predicate Absent(blocks: seq<Block>, n: nat, name: Name)
    requires n <= |blocks|
  {
    forall k, e :: 0 <= k < n && e in Listing(blocks[k]) ==> e.name != name
  }

  lemma AbsentNext(blocks: seq<Block>, n: nat, name: Name)
    requires n < |blocks| && Absent(blocks, n, name) && forall e :: e in Listing(blocks[n]) ==> e.name != name
    ensures Absent(blocks, n + 1, name)
  {}

  /** The first n blocks hold only "." and "..". */
  ghost predicate DotsUpTo(blocks: seq<Block>, n: nat)
    requires n <= |blocks|
  {
    forall k :: 0 <= k < n ==> DotsOnly(Listing(blocks[k]))
  }

  lemma DotsNext(blocks: seq<Block>, n: nat)
    requires n < |blocks| && DotsUpTo(blocks, n) && DotsOnly(Listing(blocks[n]))
    ensures DotsUpTo(blocks, n + 1)
  {}

  lemma DirLacks(blocks: seq<Block>, name: Name)
    requires Dir(blocks) && Absent(blocks, |blocks|, name)
    ensures name !in DirMap(blocks)
  {
    if name in DirMap(blocks) {
      var e := MapFrom(AllLive(blocks), name);
      InSomeBlock(blocks, e);
    }
  }

  lemma DirDots(blocks: seq<Block>)
    requires Dir(blocks)
    ensures DirMap(blocks).Keys <= {DOT, DOTDOT} <==> DotsUpTo(blocks, |blocks|)
  {
    if DotsUpTo(blocks, |blocks|) {
      forall n | n in DirMap(blocks) ensures n in {DOT, DOTDOT} {
        var e := MapFrom(AllLive(blocks), n);
        InSomeBlock(blocks, e);
      }
    } else {
      var k :| 0 <= k < |blocks| && !DotsOnly(Listing(blocks[k]));
      var e :| e in Listing(blocks[k]) && e.name != DOT && e.name != DOTDOT;
      DirHas(blocks, k, e);
    }
  }

  lemma OneBlock(g: Block)
    ensures AllLive([g]) == Listing(g)
  {
    assert [g][..0] == [] && AllLive([]) == [];
  }

  lemma TwoNames(es: seq<Dirent>, a: Dirent, b: Dirent)
    requires es == [a, b] && a.name != b.name
    ensures UniqueNames(es) && NamesOf(es) == {a.name, b.name}
  {
    assert es[0] == a && es[1] == b;
  }

  lemma DotsMap(g: Block, ino: nat, parent: nat, fileType: Byte)
    requires Tiled(g) && Listing(g) == [Dirent(DOT, ino, fileType), Dirent(DOTDOT, parent, fileType)]
    ensures Dir([g]) && DirMap([g]) == map[DOT := ino, DOTDOT := parent]
  {
    hide Tiled, Listing, AllLive, InoOf;
    var es := [Dirent(DOT, ino, fileType), Dirent(DOTDOT, parent, fileType)];
    OneBlock(g);
    assert |DOT| == 1 && |DOTDOT| == 2;
    TwoNames(es, es[0], es[1]);
    MapHolds(es, es[0]);
    MapHolds(es, es[1]);
  }

  /** None of the first n blocks has room for the name. */
  ghost predicate Packed(blocks: seq<Block>, n: nat, needed: nat)
    requires n <= |blocks|
  {
    forall l :: 0 <= l < n ==> NoRoom(blocks[l], 0, needed)
  }

  lemma PackedNext(blocks: seq<Block>, n: nat, needed: nat)
    requires n < |blocks| && Packed(blocks, n, needed) && NoRoom(blocks[n], 0, needed)
    ensures Packed(blocks, n + 1, needed)
  {}

  lemma NotPacked(blocks: seq<Block>, n: nat, needed: nat)
    requires n < |blocks| && !NoRoom(blocks[n], 0, needed)
    ensures !Packed(blocks, |blocks|, needed)
  {}

  // ----- adding and removing an entry

  /** The first block from `l` on with room, or the number of blocks. */
  function FirstRoom(blocks: seq<Block>, l: nat, needed: nat): (k: nat)
    requires l <= |blocks|
    ensures l <= k <= |blocks|
    ensures k < |blocks| ==> !NoRoom(blocks[k], 0, needed)
    ensures forall j :: l <= j < k ==> NoRoom(blocks[j], 0, needed)
    decreases |blocks| - l
  {
    if l == |blocks| || !NoRoom(blocks[l], 0, needed) then l else FirstRoom(blocks, l + 1, needed)
  }

  /** The entry goes to the first block with room, or to a new block behind the others. */
  function WithEntry(blocks: seq<Block>, blockSize: nat, ino: nat, fileType: Byte, name: Name): (r: seq<Block>)
    requires 1024 <= blockSize <= 4096 && ino < U32
    ensures |r| == if Packed(blocks, |blocks|, DirentLen(|name|)) then |blocks| + 1 else |blocks|
  {
    var l := FirstRoom(blocks, 0, DirentLen(|name|));
    if l < |blocks| then blocks[l := WithName(blocks[l], 0, ino, fileType, name)]
    else blocks + [Fresh(blockSize, ino, fileType, name)]
  }

  /** The entry is cleared in the first block that lists it. */
  function WithoutEntry(blocks: seq<Block>, l: nat, name: Name): (r: seq<Block>)
    requires l <= |blocks|
    ensures |r| == |blocks|
    decreases |blocks| - l
  {
    if l == |blocks| then blocks
    else
      var q := Position(blocks[l], 0, name);
      if q + HEADER <= |blocks[l]| then blocks[l := Cleared(blocks[l], q)] else WithoutEntry(blocks, l + 1, name)
  }

  /** What is done at block `l`: the entry is found there, or looked for further on. */
  lemma WithoutAt(blocks: seq<Block>, l: nat, name: Name, p: nat)
    requires l < |blocks|
    ensures p == Position(blocks[l], 0, name) && RecordOk(blocks[l], p) ==>
              WithoutEntry(blocks, l, name) == blocks[l := Cleared(blocks[l], p)]
    ensures Position(blocks[l], 0, name) >= |blocks[l]| ==>
              WithoutEntry(blocks, l, name) == WithoutEntry(blocks, l + 1, name)
  {}

  /** Renaming within one directory: the entry is added, growing the directory if it must, and the
      old one then removed through a copy of the inode that was read before and still has the old
      size. */
  function RenamedEntry(blocks: seq<Block>, blockSize: nat, ino: nat, fileType: Byte, from: Name, to: Name): seq<Block>
    requires 1024 <= blockSize <= 4096 && ino < U32
  {
    WithoutEntry(WithEntry(blocks, blockSize, ino, fileType, to)[..|blocks|], 0, from)
  }

  /** Adding an absent name adds just that pair to the map. */
  lemma WithEntryAdds(blocks: seq<Block>, blockSize: nat, ino: nat, fileType: Byte, name: Name)
    requires Dir(blocks) && name !in DirMap(blocks) && 1024 <= blockSize <= 4096 && 0 < ino < U32
    ensures var after := WithEntry(blocks, blockSize, ino, fileType, name);
            Dir(after) && DirMap(after) == DirMap(blocks)[name := ino]
  {
    var l := FirstRoom(blocks, 0, DirentLen(|name|));
    if l < |blocks| {
      ReachesStart(Read(blocks[l]), |blocks[l]|);
      WithNameGains(blocks[l], 0, ino, fileType, name);
      DirGains(blocks, l, WithName(blocks[l], 0, ino, fileType, name), Dirent(name, ino, fileType));
    } else {
      FreshLists(blockSize, ino, fileType, name);
      DirGrows(blocks, Fresh(blockSize, ino, fileType, name), Dirent(name, ino, fileType));
    }
  }

  /** Removing a name takes just that pair from the map. */
  lemma {:induction false} WithoutEntryDrops(blocks: seq<Block>, l: nat, name: Name)
    requires Dir(blocks) && l <= |blocks| && Absent(blocks, l, name) && name in DirMap(blocks)
    ensures var after := WithoutEntry(blocks, l, name);
            Dir(after) && DirMap(after) == DirMap(blocks) - {name}
    decreases |blocks| - l
  {
    if l == |blocks| {
      DirLacks(blocks, name);
    } else {
      var b := blocks[l];
      ReachesStart(Read(b), |b|);
      PositionFinds(b, 0, name);
      var q := Position(b, 0, name);
      if q < |b| {
        ClearedDrops(b, q);
        DirLoses(blocks, l, Cleared(b, q), Dirent(name, Ino(b, q), TypeAt(b, q)));
      } else {
        AbsentNext(blocks, l, name);
        WithoutEntryDrops(blocks, l + 1, name);
      }
    }
  }

  /** A rename within one directory keeps the entry exactly when it fits a block that the directory
      already has; in a full directory the name is lost. */
  lemma RenamedEntryMap(blocks: seq<Block>, blockSize: nat, ino: nat, fileType: Byte, from: Name, to: Name)
    requires Dir(blocks) && from in DirMap(blocks) && to !in DirMap(blocks)
    requires 1024 <= blockSize <= 4096 && 0 < ino < U32
    ensures var after := RenamedEntry(blocks, blockSize, ino, fileType, from, to);
            && Dir(after)
            && DirMap(after) == if Packed(blocks, |blocks|, DirentLen(|to|)) then DirMap(blocks) - {from}
                                else DirMap(blocks)[to := ino] - {from}
  {
    var added := WithEntry(blocks, blockSize, ino, fileType, to);
    WithEntryAdds(blocks, blockSize, ino, fileType, to);
    assert added[..|blocks|] == if Packed(blocks, |blocks|, DirentLen(|to|)) then blocks else added;
    WithoutEntryDrops(added[..|blocks|], 0, from);
  }

  ghost predicate Sized(blocks: seq<Block>, blockSize: nat) {
    forall l :: 0 <= l < |blocks| ==> |blocks[l]| == blockSize
  }

  lemma {:induction false} EditsKeepSize(blocks: seq<Block>, l: nat, blockSize: nat, ino: nat, fileType: Byte,
          name: Name)
    requires Sized(blocks, blockSize) && 1024 <= blockSize <= 4096 && ino < U32 && l <= |blocks|
    ensures Sized(WithEntry(blocks, blockSize, ino, fileType, name), blockSize)
    ensures Sized(WithoutEntry(blocks, l, name), blockSize)
    decreases |blocks| - l
  {
    if l < |blocks| { EditsKeepSize(blocks, l + 1, blockSize, ino, fileType, name); }
  }

  // ----- a directory that is full

  /** The bytes that names need at least. */
  function Space(es: seq<Dirent>): nat {
    if es == [] then 0 else HEADER + |es[0].name| + Space(es[1..])
  }

  lemma {:induction false} SpaceSum(a: seq<Dirent>, b: seq<Dirent>)
    ensures Space(a + b) == Space(a) + Space(b)
    decreases |a|
  {
    if a == [] {
      assert a + b == b;
    } else {
      assert (a + b)[1..] == a[1..] + b;
      SpaceSum(a[1..], b);
    }
  }

  /** The names in a block leave no more room than the block has. */
  lemma {:induction false} RoomNeedsSpace(b: Block, p: nat, needed: nat)
    requires p <= |b| && Tiles(Read(b), |b|, p)
    ensures Space(Entries(Read(b), |b|, p)) <= |b| - p
    ensures !NoRoom(b, p, needed) ==> Space(Entries(Read(b), |b|, p)) + needed <= |b| - p
    decreases |b| - p
  {
    var r := Read(b);
    assert r(p) == RecordAt(b, p);
    if p < |b| {
      var q := p + RecLen(b, p);
      RoomNeedsSpace(b, q, needed);
      SpaceSum(r(p).live, Entries(r, |b|, q));
    }
  }

  /** A block whose names and the new one need more than the block has no room for it. */
  lemma CrowdedIsFull(b: Block, needed: nat)
    requires Tiled(b) && Space(Listing(b)) + needed > |b|
    ensures NoRoom(b, 0, needed)
  {
    RoomNeedsSpace(b, 0, needed);
  }
}
