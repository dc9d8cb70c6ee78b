/** The ext4 volume: geometry, block bitmaps with their counters, data blocks and the inode
    table.  Bitmaps, descriptors, inodes and data blocks are kept as records; a disk transfer
    always succeeds. */
module Ext4Volume {
  import opened Arithmetic
  import opened Bytes
  import opened Ext4Common

  /** What mounting reads from the superblock. */
  datatype Geometry = Geometry(blockSize: nat, perGroup: nat, total: nat, first: nat)
  {
    ghost predicate Valid() {
      blockSize in {1024, 2048, 4096} && 0 < perGroup && first < total < U32
    }

    function Groups(): nat
      requires perGroup > 0
    {
      (total + perGroup - 1) / perGroup
    }

    /** How many bits of group g stand for blocks of the volume. */
    function Cap(g: nat): nat {
      var left := total - first - g * perGroup;
      if left < 0 then 0 else if left < perGroup then left else perGroup
    }

    function Number(g: nat, i: nat): nat { g * perGroup + i + first }

    function GroupOf(b: nat): nat
      requires perGroup > 0 && first <= b
    {
      (b - first) / perGroup
    }

    function BitOf(b: nat): nat
      requires perGroup > 0 && first <= b
    {
      (b - first) % perGroup
    }

    lemma Locate(b: nat)
      requires perGroup > 0 && first <= b < total
      ensures GroupOf(b) < Groups() && BitOf(b) < Cap(GroupOf(b)) && Number(GroupOf(b), BitOf(b)) == b
    {
      var a, p := b - first, perGroup;
      assert a == a / p * p + a % p;
      assert total <= (total + p - 1) / p * p;
      if a / p >= Groups() { MulStep(Groups() - 1, a / p, p); }
    }

    lemma Unlocate(g: nat, i: nat)
      requires perGroup > 0 && i < Cap(g)
      ensures first <= Number(g, i) < total && GroupOf(Number(g, i)) == g && BitOf(Number(g, i)) == i
    {
      DivUnique(g, i, perGroup);
    }
  }

  // ----- bitmaps and counters

  type Bitmap = seq<seq<bool>>

  function ClearCount(bits: seq<bool>, n: nat): (c: nat)
    requires n <= |bits|
    ensures c <= n
  {
    if n == 0 then 0 else ClearCount(bits, n - 1) + if bits[n - 1] then 0 else 1
  }

  lemma {:induction false} ClearCountZero(bits: seq<bool>, n: nat)
    requires n <= |bits|
    ensures ClearCount(bits, n) == 0 <==> forall i :: 0 <= i < n ==> bits[i]
  {
    if n > 0 { ClearCountZero(bits, n - 1); }
  }

  lemma {:induction false} ClearCountUpdate(bits: seq<bool>, n: nat, i: nat, value: bool)
    requires n <= |bits| && i < |bits| && bits[i] != value
    ensures ClearCount(bits[i := value], n) == ClearCount(bits, n) + if i >= n then 0 else if value then -1 else 1
  {
    if n > 0 {
      ClearCountUpdate(bits, n - 1, i, value);
      if i == n - 1 { ClearCountSame(bits, bits[i := value], n - 1); }
    }
  }

  lemma {:induction false} ClearCountSame(a: seq<bool>, b: seq<bool>, n: nat)
    requires n <= |a| && n <= |b| && a[..n] == b[..n]
    ensures ClearCount(a, n) == ClearCount(b, n)
  {
    if n > 0 {
      assert a[..n - 1] == a[..n][..n - 1] && b[..n - 1] == b[..n][..n - 1];
      assert a[n - 1] == a[..n][n - 1] && b[n - 1] == b[..n][n - 1];
      ClearCountSame(a, b, n - 1);
    }
  }

  function Sum(s: seq<nat>): nat {
    if s == [] then 0 else Sum(s[..|s| - 1]) + s[|s| - 1]
  }

  lemma {:induction false} SumUpdate(s: seq<nat>, g: nat, x: nat)
    requires g < |s|
    ensures Sum(s[g := x]) == Sum(s) - s[g] + x
  {
    var t := s[g := x];
    if g == |s| - 1 {
      assert t[..|t| - 1] == s[..|s| - 1];
    } else {
      assert t[..|t| - 1] == s[..|s| - 1][g := x];
      SumUpdate(s[..|s| - 1], g, x);
    }
  }

  /** The block accounting of a volume. */
  datatype Ledger = Ledger(bitmap: Bitmap, groupFree: seq<nat>, superFree: nat)
  {
    ghost predicate Shaped(geo: Geometry) {
      && geo.Valid() && |bitmap| == |groupFree| == geo.Groups()
      && forall g {:trigger bitmap[g]} :: 0 <= g < |bitmap| ==> |bitmap[g]| == geo.perGroup
    }

    /** Each group's free count is the number of its clear bits, the superblock's is their sum. */
    ghost predicate Balanced(geo: Geometry) {
      && Shaped(geo)
      && (forall g {:trigger groupFree[g]} :: 0 <= g < |bitmap| ==> groupFree[g] == ClearCount(bitmap[g], geo.Cap(g)))
      && superFree == Sum(groupFree)
    }

    /** The first n bits of group g are all set. */
    ghost predicate Full(g: nat, n: nat)
      requires g < |bitmap| && n <= |bitmap[g]|
    {
      forall i :: 0 <= i < n ==> bitmap[g][i]
    }

    predicate Used(geo: Geometry, b: nat)
      requires Shaped(geo) && geo.first <= b < geo.total
    {
      geo.Locate(b);
      bitmap[geo.GroupOf(b)][geo.BitOf(b)]
    }

    /** The lowest free block from b on, or the end of the volume. */
    function LowestFree(geo: Geometry, b: nat): (r: nat)
      requires Shaped(geo) && geo.first <= b <= geo.total
      ensures b <= r <= geo.total
      ensures r < geo.total ==> !Used(geo, r)
      ensures forall c {:trigger Used(geo, c)} :: b <= c < r ==> Used(geo, c)
      decreases geo.total - b
    {
      if b == geo.total || !Used(geo, b) then b else LowestFree(geo, b + 1)
    }

    /** The ledger after taking or releasing one bit. */
    function Flip(g: nat, i: nat): Ledger
      requires g < |bitmap| == |groupFree| && i < |bitmap[g]| && (bitmap[g][i] || (groupFree[g] > 0 && superFree > 0))
    {
      if bitmap[g][i]
      then Ledger(bitmap[g := bitmap[g][i := false]], groupFree[g := groupFree[g] + 1], superFree + 1)
      else Ledger(bitmap[g := bitmap[g][i := true]], groupFree[g := groupFree[g] - 1], superFree - 1)
    }

    /** The books after block b changes hands. */
    ghost function Toggle(geo: Geometry, b: nat): (l: Ledger)
      requires Balanced(geo) && geo.first <= b < geo.total
      ensures l.Balanced(geo) && l.Used(geo, b) == !Used(geo, b)
    {
      geo.Locate(b);
      FlipBalanced(geo, this, geo.GroupOf(b), geo.BitOf(b));
      Flip(geo.GroupOf(b), geo.BitOf(b))
    }

    /** Exactly one block changes hands. */
    lemma ToggleMovesOne(geo: Geometry, b: nat)
      requires Balanced(geo) && geo.first <= b < geo.total
      ensures forall c {:trigger Used(geo, c)} {:trigger Toggle(geo, b).Used(geo, c)} :: geo.first <= c < geo.total ==>
                Toggle(geo, b).Used(geo, c) == if c == b then !Used(geo, b) else Used(geo, c)
    {
      geo.Locate(b);
      FlipBalanced(geo, this, geo.GroupOf(b), geo.BitOf(b));
    }

    /** Releasing what was just taken gives back the very same books. */
    lemma ToggleTwice(geo: Geometry, b: nat)
      requires Balanced(geo) && geo.first <= b < geo.total
      ensures Toggle(geo, b).Toggle(geo, b) == this
    {
      geo.Locate(b);
      var g, i := geo.GroupOf(b), geo.BitOf(b);
      FlipBalanced(geo, this, g, i);
      var m := Flip(g, i);
      FlipBalanced(geo, m, g, i);
      assert m.bitmap[g][i := bitmap[g][i]] == bitmap[g];
      assert m.Flip(g, i).bitmap == bitmap;
      assert m.Flip(g, i).groupFree == groupFree;
    }
  }

  /** Taking or releasing one block keeps the books balanced and moves just that block. */
  lemma FlipBalanced(geo: Geometry, l: Ledger, g: nat, i: nat)
    requires l.Balanced(geo) && g < |l.bitmap| && i < geo.Cap(g)
    ensures l.bitmap[g][i] || (l.groupFree[g] > 0 && l.superFree > 0)
    ensures l.Flip(g, i).Balanced(geo)
    ensures forall b {:trigger l.Flip(g, i).Used(geo, b)} :: geo.first <= b < geo.total ==>
              l.Flip(g, i).Used(geo, b) == (if b == geo.Number(g, i) then !l.bitmap[g][i] else l.Used(geo, b))
  {
    if !l.bitmap[g][i] {
      ClearCountZero(l.bitmap[g], geo.Cap(g));
      SumUpdate(l.groupFree, g, 0);
    }
    var m := l.Flip(g, i);
    ClearCountUpdate(l.bitmap[g], geo.Cap(g), i, !l.bitmap[g][i]);
    SumUpdate(l.groupFree, g, m.groupFree[g]);
    assert m.Balanced(geo);
    geo.Unlocate(g, i);
    forall b | geo.first <= b < geo.total
      ensures m.Used(geo, b) == if b == geo.Number(g, i) then !l.bitmap[g][i] else l.Used(geo, b)
    {
      geo.Locate(b);
    }
  }

  // ----- inodes

  const EXTENT_SLOTS := 4
  const EXTENT_LEN_MAX := 0x7fff

  datatype Extent = Extent(block: nat, len: nat, start: nat)

  datatype Kind = Free | Regular | Directory | Symlink

  datatype Inode = Inode(kind: Kind, links: nat, size: nat, sectors: nat, extents: seq<Extent>)

  // ----- the mounted volume

  class Volume {
    const geo: Geometry
    var ledger: Ledger
    var blocks: seq<seq<Byte>>
    var inodes: seq<Inode>
    /** Who owns each mapped block: the inode and its logical block. */
    ghost var owner: map<nat, (nat, nat)>

    /** Mounting takes over what it finds; no block has an owner yet that the table does not name. */
    constructor (g: Geometry, books: Ledger, data: seq<seq<Byte>>, table: seq<Inode>)
      ensures geo == g && ledger == books && blocks == data && inodes == table && owner == map[]
    {
      geo, ledger, blocks, inodes, owner := g, books, data, table, map[];
    }

    ghost predicate Valid()
      reads this
    {
      && ledger.Balanced(geo) && |blocks| == geo.total
      && forall b {:trigger blocks[b]} :: 0 <= b < |blocks| ==> |blocks[b]| == geo.blockSize
    }

    predicate Used(b: nat)
      requires Valid() && geo.first <= b < geo.total
      reads this
    {
      ledger.Used(geo, b)
    }

    /** The first clear bit of a group that stands for a block, if any. */
    method FindClearBit(group: nat) returns (found: bool, i: nat)
      requires Valid() && group < geo.Groups()
      ensures found ==> i < geo.Cap(group) && !ledger.bitmap[group][i]
      ensures ledger.Full(group, if found then i else geo.Cap(group))
    {
      var rest := geo.total - group * geo.perGroup;
      var inGroup := if geo.perGroup < rest then geo.perGroup else rest;
      i := 0;
      while i < inGroup
        invariant forall k :: 0 <= k < i && k < geo.Cap(group) ==> ledger.bitmap[group][k]
      {
        if geo.Number(group, i) >= geo.total { break; }
        if !ledger.bitmap[group][i] { return true, i; }
        i := i + 1;
      }
      return false, i;
    }

    /** First fit: the lowest free block is taken and zeroed, or the volume is full. */
    method AllocateBlock() returns (status: Status, block: nat)
      requires Valid()
      modifies this`ledger, this`blocks
      ensures Valid() && (status == Ok || status == NoMemory)
      ensures status == NoMemory ==>
                ledger == old(ledger) && blocks == old(blocks) && forall b :: geo.first <= b < geo.total ==> Used(b)
      ensures var lowest := old(ledger).LowestFree(geo, geo.first);
              if lowest == geo.total then status == NoMemory else status == Ok && block == lowest
      ensures status == Ok ==>
                geo.first <= block < geo.total && !old(Used(block))
                && (forall b {:trigger old(Used(b))} :: geo.first <= b < block ==> old(Used(b)))
                && ledger == old(ledger).Toggle(geo, block)
                && blocks == old(blocks)[block := Zeros(geo.blockSize)]
    {
      for group := 0 to geo.Groups()
        invariant Valid() && ledger == old(ledger) && blocks == old(blocks)
        invariant forall g :: 0 <= g < group ==> ledger.Full(g, geo.Cap(g))
      {
        if ledger.groupFree[group] == 0 {
          ClearCountZero(ledger.bitmap[group], geo.Cap(group));
          continue;
        }
        var found, i := FindClearBit(group);
        if found {
          block := geo.Number(group, i);
          LowerBlocksUsed(geo, ledger, group, i);
          FlipBalanced(geo, ledger, group, i);
          ledger := ledger.Flip(group, i);
          blocks := blocks[block := Zeros(geo.blockSize)];
          return Ok, block;
        }
      }
      AllBlocksUsed(geo, ledger);
      return NoMemory, 0;
    }

    /** Releases a block; releasing a free block changes nothing. */
    method FreeBlock(block: nat) returns (status: Status)
      requires Valid() && geo.first <= block
      modifies this`ledger
      ensures Valid()
      ensures status == if block >= geo.total then InvalidArgument else Ok
      ensures ledger == if status == Ok && old(Used(block)) then old(ledger).Toggle(geo, block) else old(ledger)
    {
      if block >= geo.total { return InvalidArgument; }
      geo.Locate(block);
      var group, index := geo.GroupOf(block), geo.BitOf(block);
      if !ledger.bitmap[group][index] { return Ok; }
      FlipBalanced(geo, ledger, group, index);
      ledger := ledger.Flip(group, index);
      return Ok;
    }
  }

  lemma LowerBlocksUsed(geo: Geometry, l: Ledger, g: nat, i: nat)
    requires l.Shaped(geo) && g < geo.Groups() && i < geo.Cap(g) && l.Full(g, i)
    requires forall h :: 0 <= h < g ==> l.Full(h, geo.Cap(h))
    ensures geo.first <= geo.Number(g, i) < geo.total && l.Used(geo, geo.Number(g, i)) == l.bitmap[g][i]
    ensures geo.GroupOf(geo.Number(g, i)) == g && geo.BitOf(geo.Number(g, i)) == i
    ensures forall b :: geo.first <= b < geo.Number(g, i) ==> l.Used(geo, b)
  {
    geo.Unlocate(g, i);
    forall b | geo.first <= b < geo.Number(g, i) ensures l.Used(geo, b) {
      geo.Locate(b);
      var h := geo.GroupOf(b);
      if h > g { MulStep(g, h, geo.perGroup); }
      assert l.Full(h, if h == g then i else geo.Cap(h));
    }
  }

  lemma AllBlocksUsed(geo: Geometry, l: Ledger)
    requires l.Shaped(geo) && forall h :: 0 <= h < geo.Groups() ==> l.Full(h, geo.Cap(h))
    ensures forall b :: geo.first <= b < geo.total ==> l.Used(geo, b)
  {
    forall b | geo.first <= b < geo.total ensures l.Used(geo, b) {
      geo.Locate(b);
      assert l.Full(geo.GroupOf(b), geo.Cap(geo.GroupOf(b)));
    }
  }
}
