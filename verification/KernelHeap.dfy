/** The kernel allocator: first fit over the block list, splitting on allocation and joining free
    neighbours on release, with a tag before each user pointer that leads back to its block. */
module KernelHeap {
  import opened Arithmetic
  import opened HeapLayout

  const WORD := 0x1_0000_0000_0000_0000   // sizes are 64-bit words

  // ----- how much is asked of the block list

  function AlignUp(v: nat, a: nat): (r: nat)
    requires a > 0
    ensures r % a == 0 && v <= r < v + a
  {
    UpFacts(v, a);
    (v + a - 1) / a * a
  }

  lemma UpFacts(v: nat, a: nat)
    requires a > 0
    ensures var r := (v + a - 1) / a * a; r % a == 0 && v <= r < v + a
  {
    var w := v + a - 1;
    assert w == w / a * a + w % a;
    DivUnique(w / a, 0, a);
  }

  /** Zero bytes count as one; alignments below 16 count as 16. */
  function AtLeast(v: nat, least: nat): (r: nat)
    ensures r >= v && r >= least && (r == v || r == least)
  {
    if v < least then least else v
  }

  predicate Supported(alignment: nat) {
    alignment in {16, 32, 64, 128, 256, 512, 1024, 2048, 4096}
  }

  /** The powers of two from 16 to 4096, by the test of the lowest bit that is set. */
  lemma SupportedIff(x: bv16)
    ensures Supported(x as nat) <==> x & (x - 1) == 0 && 16 <= x <= 4096
  {}

  /** The block size asked for, in 64-bit arithmetic. */
  function Total(size: nat, alignment: nat): nat {
    var v := (size + alignment - 1 + TAG) % WORD;
    AlignUp(v, GRAIN) % WORD
  }

  /** The sum of the size and its overhead leaves the 64-bit range. */
  predicate Wraps(size: nat, alignment: nat) { size + alignment + TAG + GRAIN - 2 >= WORD }

  /** The least multiple of 64 that is not below `v`. */
  predicate Rounded(r: nat, v: nat) { r % GRAIN == 0 && v <= r < v + GRAIN }

  lemma WordMod(v: nat)
    ensures v < WORD ==> v % WORD == v
  {}

  /** A block of the size asked for holds the tag, the alignment gap and the requested bytes exactly
      when the sum does not wrap. */
  lemma TotalHoldsIff(size: nat, alignment: nat)
    requires 0 < size < WORD && 16 <= alignment <= 4096
    ensures Total(size, alignment) >= size + alignment - 1 + TAG <==> !Wraps(size, alignment)
    ensures !Wraps(size, alignment) ==> Rounded(Total(size, alignment), size + alignment - 1 + TAG)
  {
    var sum := size + alignment - 1 + TAG;
    WordMod(sum);
    if sum < WORD {
      WordMod(AlignUp(sum, GRAIN));
      GrainEdge(sum);
    }
  }

  /** Rounding up to 64 leaves the 64-bit range exactly in the last 63 numbers. */
  lemma GrainEdge(v: nat)
    requires v < WORD
    ensures AlignUp(v, GRAIN) < WORD <==> v + GRAIN - 1 < WORD
    ensures AlignUp(v, GRAIN) >= WORD ==> AlignUp(v, GRAIN) % WORD < v
  {
    var r := AlignUp(v, GRAIN);
    assert WORD % GRAIN == 0;
    if r >= WORD {
      assert r < WORD + GRAIN;
      assert r % WORD == r - WORD;
    }
  }

  // ----- what is live

  /** What a pointer was asked for. */
  datatype Ask = Ask(size: nat, alignment: nat)

  /** The pointer is aligned, and its tag and bytes lie in the data of its block. */
  ghost predicate Fits(used: map<Address, nat>, block: Address, p: Address, ask: Ask) {
    && block in used && ask.alignment > 0 && p % ask.alignment == 0
    && block + HEADER + TAG <= p && p + ask.size <= block + HEADER + used[block]
  }

  /** Live pointers and blocks in use correspond one to one, and every pointer fits its block. */
  ghost predicate TagsRight(used: map<Address, nat>, tags: map<Address, Address>, asks: map<Address, Ask>) {
    && asks.Keys == tags.Keys
    && (forall p :: p in tags ==> Fits(used, tags[p], p, asks[p]))
    && (forall p, q :: p in tags && q in tags && tags[p] == tags[q] ==> p == q)
    && (forall b :: b in used ==> Owned(tags, b))
  }

  ghost predicate Owned(tags: map<Address, Address>, b: Address) { exists p :: p in tags && tags[p] == b }

  /** Live allocations never overlap, tags included. */
  lemma LiveApart(a: Address, cells: seq<Cell>, tags: map<Address, Address>, asks: map<Address, Ask>, p: Address,
          q: Address)
    requires TagsRight(Used(a, cells), tags, asks) && p in tags && q in tags && p != q
    ensures p + asks[p].size <= q - TAG || q + asks[q].size <= p - TAG
  {
    var x, y := tags[p], tags[q];
    UsedIsCell(a, cells, x);
    UsedIsCell(a, cells, y);
    assert Fits(Used(a, cells), x, p, asks[p]) && Fits(Used(a, cells), y, q, asks[q]);
    var i: nat :| CellAt(a, cells, i, x) && !cells[i].free;
    var j: nat :| CellAt(a, cells, j, y) && !cells[j].free;
    BlocksApart(a, cells, i, j);
  }

  /** Nor does an allocation overlap any block header. */
  lemma LiveOffHeaders(a: Address, cells: seq<Cell>, tags: map<Address, Address>, asks: map<Address, Ask>, p: Address,
          j: nat)
    requires TagsRight(Used(a, cells), tags, asks) && p in tags && j < |cells|
    ensures var h := At(a, cells, j); p + asks[p].size <= h || h + HEADER <= p - TAG
  {
    var x := tags[p];
    UsedIsCell(a, cells, x);
    assert Fits(Used(a, cells), x, p, asks[p]);
    var i: nat :| CellAt(a, cells, i, x) && !cells[i].free;
    if i != j { BlocksApart(a, cells, i, j); }
  }

  /** Taking a free cell of at least `total` bytes. */
  function Fit(cells: seq<Cell>, total: nat, i: nat): (r: nat)
    requires i <= |cells|
    ensures i <= r <= |cells|
    ensures r < |cells| ==> cells[r].free && cells[r].size >= total
    ensures forall j :: i <= j < r ==> !(cells[j].free && cells[j].size >= total)
    decreases |cells| - i
  {
    if i == |cells| || (cells[i].free && cells[i].size >= total) then i else Fit(cells, total, i + 1)
  }

  /** The first free block of at least `need` bytes is taken. It keeps what is beyond that only if this
      is less than a header and 64 bytes; otherwise the rest is a free block. */
  predicate TookAt(before: seq<Cell>, after: seq<Cell>, need: nat, i: nat) {
    && i < |before| && before[i].free && before[i].size >= need
    && (forall j :: 0 <= j < i ==> !(before[j].free && before[j].size >= need))
    && var spare := before[i].size - need;
       if spare < HEADER + 64 then after == before[i := Cell(before[i].size, false)]
       else after == before[..i] + [Cell(need, false), Cell(spare - HEADER, true)] + before[i + 1..]
  }

  /** The block at `b` was taken for so many bytes, rounded up to a multiple of 64. */
  ghost predicate Took(a: Address, before: seq<Cell>, after: seq<Cell>, bytes: nat, b: Address) {
    exists need: nat, i: nat :: Rounded(need, bytes) && TookAt(before, after, need, i) && At(a, before, i) == b
  }

  // ----- how many requests a heap grants

  lemma OneMore(k: nat, c: nat)
    ensures (k + 1) * c == k * c + c
  {}

  /** Requests of one size, one after the other, from a heap with nothing in use. */
  ghost predicate Grants(states: seq<seq<Cell>>, bytes: nat, need: nat) {
    && bytes >= HEADER && states != [] && states[0] == [Cell(bytes - HEADER, true)]
    && forall k :: 0 < k < |states| ==> Granting(states[k - 1], states[k], need)
  }

  ghost predicate Granting(before: seq<Cell>, after: seq<Cell>, need: nat) {
    exists i: nat :: TookAt(before, after, need, i)
  }

  /** As many blocks in use, and the rest of the heap as one free block, or as what the last block has
      kept because it was too little for one. */
  ghost predicate Row(cells: seq<Cell>, bytes: nat, need: nat, k: nat) {
    && k * (HEADER + need) <= bytes
    && (forall j :: 0 <= j < |cells| && j < k ==> !cells[j].free)
    && var rest := bytes - k * (HEADER + need);
       if |cells| == k + 1 then rest >= HEADER && cells[k] == Cell(rest - HEADER, true)
       else |cells| == k && rest < HEADER + need
  }

  lemma RowNext(before: seq<Cell>, after: seq<Cell>, bytes: nat, need: nat, i: nat, k: nat)
    requires Row(before, bytes, need, k) && TookAt(before, after, need, i) && need >= 64
    ensures Row(after, bytes, need, k + 1)
  {
    assert i == k && |before| == k + 1;
    OneMore(k, HEADER + need);
  }

  /** From a heap with nothing in use, requests of one size are granted exactly as long as one more block
      and its header fit into what the others leave. */
  lemma {:induction false} GrantsIff(states: seq<seq<Cell>>, bytes: nat, need: nat)
    requires Grants(states, bytes, need) && need >= 64
    ensures var k := |states| - 1;
            && k * (HEADER + need) <= bytes && Row(states[k], bytes, need, k)
            && (HasFit(states[k], need) <==> (k + 1) * (HEADER + need) <= bytes)
    decreases |states|
  {
    var k := |states| - 1;
    if k > 0 {
      var fewer := states[..k];
      forall j | 0 < j < k ensures Granting(fewer[j - 1], fewer[j], need) {
        assert Granting(states[j - 1], states[j], need);
      }
      GrantsIff(fewer, bytes, need);
      assert Granting(states[k - 1], states[k], need);
      var i: nat :| TookAt(states[k - 1], states[k], need, i);
      RowNext(states[k - 1], states[k], bytes, need, i, k - 1);
    }
    OneMore(k, HEADER + need);
    if |states[k]| == k + 1 { assert states[k][k].free; }
  }

  // ----- the integrity check

  /** From `a`, the list of headers tiles memory up to the end. */
  predicate Intact(m: Memory, a: Address, begin: Address, bytes: nat)
    decreases begin + bytes - a
  {
    && begin <= a && a + HEADER <= begin + bytes
    && m(a).free <= 1 && m(a).size <= bytes
    && var expected := a + HEADER + m(a).size;
       if m(a).next == 0 then expected == begin + bytes
       else m(a).next == expected && Intact(m, expected, begin, bytes)
  }

  lemma {:induction false} LaidIsIntact(m: Memory, a: Address, begin: Address, bytes: nat, cells: seq<Cell>)
    requires Lays(m, a, begin + bytes, cells) && begin <= a && begin > 0
    ensures Intact(m, a, begin, bytes)
    decreases |cells|
  {
    var after := a + HEADER + cells[0].size;
    OneCell(m, a, begin + bytes, cells);
    LaysAt(m, a, begin + bytes, cells, 0);
    AtOrder(a, cells, 0, |cells|);
    if |cells| > 1 { LaidIsIntact(m, after, begin, bytes, cells[1..]); }
  }

  /** A list that passes lays out cells from its first block to the end of the heap. */
  lemma {:induction false} IntactIsLaid(m: Memory, a: Address, begin: Address, bytes: nat) returns (cells: seq<Cell>)
    requires Intact(m, a, begin, bytes)
    ensures Lays(m, a, begin + bytes, cells)
    decreases begin + bytes - a
  {
    cells := [Cell(m(a).size, m(a).free == 1)];
    if m(a).next != 0 {
      var rest := IntactIsLaid(m, m(a).next, begin, bytes);
      cells := cells + rest;
      assert cells[1..] == rest;
    }
  }

  ghost predicate Tiled(m: Memory, begin: Address, end: Address) { exists cells :: Lays(m, begin, end, cells) }

  /** A heap passes exactly when its headers tile it. */
  lemma IntactIff(m: Memory, begin: Address, bytes: nat)
    requires begin > 0
    ensures Intact(m, begin, begin, bytes) <==> Tiled(m, begin, begin + bytes)
  {
    if Intact(m, begin, begin, bytes) {
      var cells := IntactIsLaid(m, begin, begin, bytes);
    }
    if Tiled(m, begin, begin + bytes) {
      var cells :| Lays(m, begin, begin + bytes, cells);
      LaidIsIntact(m, begin, begin, bytes, cells);
    }
  }

  // ----- the allocator

  class Heap {
    const base: Address
    const bytes: nat
    var head: Address            // 0 until the first allocation
    var memory: Memory           // block headers
    var tags: map<Address, Address>   // user pointers that carry the magic number, and their blocks
    var reported: bool
    ghost var cells: seq<Cell>
    ghost var asks: map<Address, Ask>

    ghost predicate Listed()
      reads this
    {
      && base > 0 && base % GRAIN == 0 && bytes % GRAIN == 0 && bytes >= HEADER && base + bytes < WORD
      && (if head == 0 then cells == [Cell(bytes - HEADER, true)]
          else head == base && Lays(memory, base, base + bytes, cells))
      && Grained(cells)
    }

    /** The block list tiles the heap, no two free blocks are neighbours, and live pointers and
        blocks in use correspond one to one. */
    ghost predicate Valid()
      reads this
    {
      Listed() && Coalesced(cells) && TagsRight(Used(base, cells), tags, asks)
    }

    constructor (base: Address, bytes: nat)
      requires base > 0 && base % GRAIN == 0 && bytes % GRAIN == 0 && bytes >= HEADER && base + bytes < WORD
      ensures Valid() && tags == map[] && this.base == base && this.bytes == bytes
      ensures cells == [Cell(bytes - HEADER, true)]
    {
      this.base, this.bytes, head := base, bytes, 0;
      memory := (x: Address) => Block(0, 0, 0);
      tags, reported := map[], false;
      cells, asks := [Cell(bytes - HEADER, true)], map[];
      new;
      OneFree(base, cells);
    }

    method Init()
      requires Valid()
      modifies `head, `memory
      ensures Valid() && head == base && cells != []
    {
      if head != 0 { return; }
      head := base;
      memory := Write(memory, base, Block(bytes - HEADER, 0, 1));
    }

    method SplitBlock(block: Address, size: nat, ghost i: nat)
      requires Listed() && head == base && i < |cells| && block == At(base, cells, i) && size % GRAIN == 0
      requires cells[i].free && cells[i].size >= size
      modifies `memory, `cells
      ensures Listed() && cells == SplitCell(old(cells), i, size)
    {
      SplitLays(memory, base, base + bytes, cells, i, size);
      LaysAt(memory, base, base + bytes, cells, i);
      SplitGrained(cells, i, size);
      ghost var after := SplitMemory(memory, block, size);
      if memory(block).size >= size + HEADER + 64 {
        var next := block + HEADER + size;
        memory := Write(memory, next, Block(memory(block).size - size - HEADER, memory(block).next, 1));
        assert memory(block) == old(memory)(block);
        memory := Write(memory, block, Block(size, next, memory(block).free));
      }
      assert memory == after;
      cells := SplitCell(cells, i, size);
    }

    /** The whole request in 64-bit arithmetic must not wrap; see `TotalHoldsIff`. */
    method AllocateAligned(size: nat, alignment: nat) returns (p: Address)
      requires Valid() && size < WORD && !Wraps(AtLeast(size, 1), AtLeast(alignment, 16))
      modifies this
      ensures Valid()
      ensures p == 0 <==>
              !Supported(AtLeast(alignment, 16)) ||
              !old(HasFit(cells, Total(AtLeast(size, 1), AtLeast(alignment, 16))))
      ensures p == 0 ==> cells == old(cells) && tags == old(tags) && asks == old(asks)
      ensures p != 0 ==> Granted(old(Used(base, cells)), Used(base, cells), old(tags), tags, p)
      ensures p != 0 ==>
                Took(base, old(cells), cells, AtLeast(size, 1) + AtLeast(alignment, 16) - 1 + TAG, tags[p])
      ensures p != 0 ==> 0 <= p - (tags[p] + HEADER + TAG) < AtLeast(alignment, 16)
      ensures p != 0 ==> asks == old(asks)[p := Ask(AtLeast(size, 1), AtLeast(alignment, 16))]
    {
      hide Lays, TagsRight, Coalesced, Grained, Granted, Used, Total, Took, Rounded;
      var bytesAsked, aligned := AtLeast(size, 1), AtLeast(alignment, 16);
      if !Supported(aligned) { return 0; }
      var total := Total(bytesAsked, aligned);
      TotalHoldsIff(bytesAsked, aligned);
      FitsIff(cells, total);
      Init();
      var block := head;
      ghost var i := 0;
      while block != 0
        invariant Valid() && head == base && cells == old(cells) && tags == old(tags) && asks == old(asks)
        invariant 0 <= i <= |cells| && block == if i == |cells| then 0 else At(base, cells, i)
        invariant Fit(cells, total, 0) == Fit(cells, total, i)
        decreases |cells| - i
      {
        LaysAt(memory, base, base + bytes, cells, i);
        if memory(block).free != 0 && memory(block).size >= total {
          p := Take(block, total, bytesAsked, aligned, i);
          return;
        }
        if i + 1 < |cells| { AtFrom(base, cells, i + 1); }
        block := memory(block).next;
        i := i + 1;
      }
      AtFrom(base, cells, i);
      p := 0;
    }

    method Take(block: Address, total: nat, size: nat, alignment: nat, ghost i: nat) returns (p: Address)
      requires Valid() && head == base && i < |cells| && block == At(base, cells, i) && Supported(alignment)
      requires cells[i].free && cells[i].size >= total && Rounded(total, size + alignment - 1 + TAG)
      requires i == Fit(cells, total, 0)
      modifies this
      ensures Valid() && p != 0 && p in tags && Took(base, old(cells), cells, size + alignment - 1 + TAG, tags[p])
      ensures 0 <= p - (tags[p] + HEADER + TAG) < alignment
      ensures Granted(old(Used(base, cells)), Used(base, cells), old(tags), tags, p)
      ensures asks == old(asks)[p := Ask(size, alignment)]
    {
      hide Lays, Used, Coalesced, Grained, TagsRight, Granted, At, SplitCell;
      ghost var before := cells;
      TakenCell(base, cells, i, total);
      FreeNotUsed(base, cells, i);
      SplitBlock(block, total, i);
      MarkLays(memory, base, base + bytes, cells, i, false);
      memory := Write(memory, block, memory(block).(free := 0));
      cells := Mark(cells, i, false);
      var raw := block + HEADER;
      p := AlignUp(raw + TAG, alignment);
      PointerNew(base, before, tags, asks, i, p);
      TagAdded(Used(base, before), tags, asks, block, cells[i].size, p, Ask(size, alignment));
      tags := tags[p := block];
      asks := asks[p := Ask(size, alignment)];
      TookCell(before, total);
      assert At(base, before, i) == block;
    }

    method CoalesceHeap()
      requires Listed() && head == base
      modifies `memory, `cells
      ensures Listed() && Coalesced(cells) && Used(base, cells) == old(Used(base, cells))
    {
      var block := head;
      ghost var i := 0;
      LaysAt(memory, base, base + bytes, cells, 0);
      while block != 0 && memory(block).next != 0
        invariant Listed() && head == base && i < |cells| && block == At(base, cells, i)
        invariant memory(block) == HeaderOf(cells[i], if i + 1 == |cells| then 0 else At(base, cells, i + 1))
        invariant Used(base, cells) == old(Used(base, cells))
        invariant forall j: nat :: j < i ==> !Joinable(cells, j)
        decreases |cells| - i
      {
        var next := memory(block).next;
        LaysAt(memory, base, base + bytes, cells, i + 1);
        if memory(block).free != 0 && memory(next).free != 0 {
          JoinLays(memory, base, base + bytes, cells, i);
          JoinUsed(base, cells, i);
          JoinKeepsPast(cells, i);
          memory := JoinMemory(memory, block);
          cells := Join(cells, i);
          LaysAt(memory, base, base + bytes, cells, i);
        } else {
          AtFrom(base, cells, i + 1);
          block := next;
          i := i + 1;
        }
      }
      AtFrom(base, cells, i);
      AtFrom(base, cells, i + 1);
      forall j: nat ensures !Joinable(cells, j) {}
    }

    /** Releases the block that a live pointer's tag names; any other pointer is ignored. */
    method Free(p: Address)
      requires Valid()
      modifies this
      ensures Valid()
      ensures p !in old(tags) ==> cells == old(cells) && tags == old(tags)
      ensures p in old(tags) ==>
                && Used(base, cells) == old(Used(base, cells)) - {old(tags)[p]}
                && tags == old(tags) - {p} && asks == old(asks) - {p}
    {
      hide Lays, Used, Grained, Coalesced;
      if p == 0 || p !in tags { return; }
      var block := tags[p];
      ghost var used := Used(base, cells);
      assert Fits(used, block, p, asks[p]);
      UsedIsCell(base, cells, block);
      ghost var i: nat :| CellAt(base, cells, i, block) && !cells[i].free;
      NotFresh(bytes, head, cells, i);
      LaysAt(memory, base, base + bytes, cells, i);
      if memory(block).free == 0 {
        TagDropped(used, tags, asks, p);
        tags := tags - {p};
        asks := asks - {p};
        MarkLays(memory, base, base + bytes, cells, i, true);
        MarkGrained(cells, i, true);
        MarkUsed(base, cells, i, true);
        memory := Write(memory, block, memory(block).(free := 1));
        cells := Mark(cells, i, true);
        CoalesceHeap();
      }
    }

    /** The integrity check never reports on a heap that is kept this way. */
    lemma ValidIsIntact()
      requires Valid()
      ensures head == 0 || Intact(memory, head, base, bytes)
    {
      if head != 0 { LaidIsIntact(memory, base, base, bytes, cells); }
    }

    /** With nothing live, the heap is the single block it began as. */
    lemma NothingLive()
      requires Valid() && tags == map[]
      ensures cells == [Cell(bytes - HEADER, true)]
    {
      var used := Used(base, cells);
      forall b: Address ensures b !in used { assert b in used ==> Owned(tags, b); }
      if head != 0 {
        var one := [Cell(bytes - HEADER, true)];
        var m := Write(memory, base, Block(bytes - HEADER, 0, 1));
        OneFree(base, one);
        assert Lays(m, base, base + bytes, one);
        assert used == map[];
        LayoutIsUnique(memory, m, base, base + bytes, cells, one);
      }
    }

    /** Live allocations are aligned, lie apart from each other and from every block header. */
    lemma LiveAreApart(p: Address, q: Address, j: nat)
      requires Valid() && p in tags && q in tags && j < |cells|
      ensures p % asks[p].alignment == 0
      ensures p != q ==> p + asks[p].size <= q - TAG || q + asks[q].size <= p - TAG
      ensures var h := At(base, cells, j); p + asks[p].size <= h || h + HEADER <= p - TAG
      ensures base + HEADER <= p - TAG && p + asks[p].size <= base + bytes
    {
      hide Used, Lays, Grained, Coalesced;
      assert Fits(Used(base, cells), tags[p], p, asks[p]) && Fits(Used(base, cells), tags[q], q, asks[q]);
      if p != q { LiveApart(base, cells, tags, asks, p, q); }
      LiveOffHeaders(base, cells, tags, asks, p, j);
      InHeap(base, bytes, head, memory, cells, tags[p]);
    }

    /** The walk of the integrity check. A report is made once; later checks do not look. */
    method Check() returns (ok: bool)
      requires base > 0
      modifies `reported
      ensures ok <==> !old(reported) && (head == 0 || Intact(memory, head, base, bytes))
      ensures ok && head == base ==> Tiled(memory, base, base + bytes)
      ensures reported <==> old(reported) || !ok
    {
      if reported { return false; }
      var block := head;
      var seen := 0;
      ok := true;
      while ok && block != 0
        invariant head != 0 ==> (Intact(memory, head, base, bytes) <==>
                    ok && (block == 0 || Intact(memory, block, base, bytes)))
        invariant head == 0 ==> ok && block == 0
        invariant ok && seen > 0 && block != 0 ==> base + seen * HEADER <= block
        invariant ok && seen > 0 ==> seen * HEADER <= bytes
        decreases if ok then 1 else 0, if block == 0 then 0 else 1,
                  if base + bytes >= block then base + bytes - block else 0
      {
        if block < base || block + HEADER > base + bytes || memory(block).free > 1 || memory(block).size > bytes {
          ok := false;
        } else {
          var expected := block + HEADER + memory(block).size;
          if memory(block).next != 0 {
            ok := memory(block).next == expected;
          } else {
            ok := expected == base + bytes;
          }
          seen := seen + 1;
          if seen > bytes / HEADER + 4 { ok := false; }
          if ok { block := memory(block).next; }
        }
      }
      if !ok { reported := true; }
      if head == base { IntactIff(memory, base, bytes); }
    }
  }

  lemma InHeap(base: Address, bytes: nat, head: Address, m: Memory, cells: seq<Cell>, b: Address)
    requires b in Used(base, cells) && bytes >= HEADER
    requires if head == 0 then cells == [Cell(bytes - HEADER, true)] else Lays(m, base, base + bytes, cells)
    ensures base <= b && b + HEADER + Used(base, cells)[b] <= base + bytes
  {
    UsedIsCell(base, cells, b);
    var i: nat :| CellAt(base, cells, i, b) && !cells[i].free;
    AtOrder(base, cells, i, |cells|);
    if head != 0 { LaysAt(m, base, base + bytes, cells, i); }
  }

  lemma MarkGrained(cells: seq<Cell>, i: nat, free: bool)
    requires Grained(cells) && i < |cells|
    ensures Grained(Mark(cells, i, free))
  {}

  lemma NotFresh(bytes: nat, head: Address, cells: seq<Cell>, i: nat)
    requires i < |cells| && !cells[i].free
    requires bytes >= HEADER && (head == 0 ==> cells == [Cell(bytes - HEADER, true)])
    ensures head != 0
  {}

  /** The grant: one block more in use, found by the new pointer; the others as before. */
  ghost predicate Granted(used: map<Address, nat>, used': map<Address, nat>, tags: map<Address, Address>,
          tags': map<Address, Address>, p: Address) {
    && p !in tags && p in tags'
    && var b := tags'[p];
       b !in used && b in used' && used' == used[b := used'[b]] && tags' == tags[p := b]
  }

  predicate HasFit(cells: seq<Cell>, total: nat) {
    exists i :: 0 <= i < |cells| && cells[i].free && cells[i].size >= total
  }

  lemma FitsIff(cells: seq<Cell>, total: nat)
    ensures HasFit(cells, total) <==> Fit(cells, total, 0) < |cells|
  {}

  lemma TookCell(cells: seq<Cell>, total: nat)
    requires Fit(cells, total, 0) < |cells|
    ensures var i := Fit(cells, total, 0);
            && i < |SplitCell(cells, i, total)|
            && TookAt(cells, Mark(SplitCell(cells, i, total), i, false), total, i)
  {}

  /** The layout once the cell is split and taken. */
  lemma TakenCell(a: Address, cells: seq<Cell>, i: nat, total: nat)
    requires i < |cells| && cells[i].free && cells[i].size >= total && total % GRAIN == 0 && Coalesced(cells) &&
             Grained(cells)
    ensures var taken := Mark(SplitCell(cells, i, total), i, false);
            && Coalesced(taken) && Grained(taken) && taken[i].size >= total && At(a, taken, i) == At(a, cells, i)
            && i < |SplitCell(cells, i, total)| && At(a, SplitCell(cells, i, total), i) == At(a, cells, i)
            && Used(a, taken) == Used(a, cells)[At(a, cells, i) := taken[i].size]
  {
    var split := SplitCell(cells, i, total);
    var taken := Mark(split, i, false);
    SplitUsed(a, cells, i, total);
    SplitGrained(cells, i, total);
    MarkUsed(a, split, i, false);
    MarkAt(a, split, i, false);
    assert !Joinable(cells, i) && (i > 0 ==> !Joinable(cells, i - 1));
    forall j: nat ensures !Joinable(taken, j) {
      assert !Joinable(cells, j) && (j > 0 ==> !Joinable(cells, j - 1));
      assert Splits(cells[i], total) && j > i + 1 && j < |taken| ==> taken[j] == cells[j - 1];
    }
  }

  lemma {:induction false} MarkAt(a: Address, cells: seq<Cell>, i: nat, free: bool)
    requires i < |cells|
    ensures At(a, Mark(cells, i, free), i) == At(a, cells, i)
    decreases i
  {
    if i > 0 {
      MarkAt(a + HEADER + cells[0].size, cells[1..], i - 1, free);
      assert Mark(cells, i, free)[1..] == Mark(cells[1..], i - 1, free);
    }
  }

  lemma FreeNotUsed(a: Address, cells: seq<Cell>, i: nat)
    requires i < |cells| && cells[i].free
    ensures At(a, cells, i) !in Used(a, cells)
  {
    var x := At(a, cells, i);
    UsedIsCell(a, cells, x);
    forall j: nat | CellAt(a, cells, j, x) ensures cells[j].free {
      if j != i { BlocksApart(a, cells, i, j); }
    }
  }

  /** A pointer into the data of a free cell is not live. */
  lemma PointerNew(a: Address, cells: seq<Cell>, tags: map<Address, Address>, asks: map<Address, Ask>, i: nat,
          p: Address)
    requires TagsRight(Used(a, cells), tags, asks) && i < |cells| && cells[i].free
    requires At(a, cells, i) + HEADER + TAG <= p <= At(a, cells, i) + HEADER + cells[i].size
    ensures p !in tags
  {
    if p in tags {
      var x := tags[p];
      assert Fits(Used(a, cells), x, p, asks[p]);
      UsedIsCell(a, cells, x);
      var j: nat :| CellAt(a, cells, j, x) && !cells[j].free;
      BlocksApart(a, cells, i, j);
    }
  }

  lemma TagAdded(used: map<Address, nat>, tags: map<Address, Address>, asks: map<Address, Ask>, b: Address, size: nat,
          p: Address, ask: Ask)
    requires TagsRight(used, tags, asks) && b !in used && p !in tags && Fits(used[b := size], b, p, ask)
    ensures TagsRight(used[b := size], tags[p := b], asks[p := ask])
    ensures Granted(used, used[b := size], tags, tags[p := b], p)
  {
    var used', tags', asks' := used[b := size], tags[p := b], asks[p := ask];
    forall q | q in tags' ensures Fits(used', tags'[q], q, asks'[q]) {
      if q != p { assert Fits(used, tags[q], q, asks[q]); }
    }
    forall q, r | q in tags' && r in tags' && tags'[q] == tags'[r] ensures q == r {
      if q in tags { assert Fits(used, tags[q], q, asks[q]); }
      if r in tags { assert Fits(used, tags[r], r, asks[r]); }
    }
    forall x | x in used' ensures Owned(tags', x) {
      if x == b {
        assert tags'[p] == b;
      } else {
        assert Owned(tags, x);
        var q :| q in tags && tags[q] == x;
        assert tags'[q] == x;
      }
    }
  }

  lemma TagDropped(used: map<Address, nat>, tags: map<Address, Address>, asks: map<Address, Ask>, p: Address)
    requires TagsRight(used, tags, asks) && p in tags
    ensures TagsRight(used - {tags[p]}, tags - {p}, asks - {p})
  {
    var b := tags[p];
    var used', tags', asks' := used - {b}, tags - {p}, asks - {p};
    forall q | q in tags' ensures Fits(used', tags'[q], q, asks'[q]) { assert Fits(used, tags[q], q, asks[q]); }
    forall x | x in used' ensures Owned(tags', x) {
      assert Owned(tags, x);
      var q :| q in tags && tags[q] == x;
      assert q in tags' && tags'[q] == x;
    }
  }

  lemma JoinKeepsPast(cells: seq<Cell>, i: nat)
    requires Joinable(cells, i) && (forall j: nat :: j < i ==> !Joinable(cells, j)) && Grained(cells)
    ensures (forall j: nat :: j < i ==> !Joinable(Join(cells, i), j)) && Grained(Join(cells, i))
    ensures |Join(cells, i)| == |cells| - 1 && Join(cells, i)[i].free
  {
    var join := Join(cells, i);
    forall j: nat | j < i ensures !Joinable(join, j) { assert !Joinable(cells, j); }
    forall j | 0 <= j < |join| ensures join[j].size % GRAIN == 0 {
      assert j > i ==> join[j] == cells[j + 1];
    }
  }

  lemma OneFree(a: Address, cells: seq<Cell>)
    requires |cells| == 1 && cells[0].free
    ensures Used(a, cells) == map[]
  {
    assert cells[1..] == [];
  }

  lemma SplitGrained(cells: seq<Cell>, i: nat, size: nat)
    requires Grained(cells) && i < |cells| && size % GRAIN == 0
    ensures Grained(SplitCell(cells, i, size))
  {
    var split := SplitCell(cells, i, size);
    if Splits(cells[i], size) {
      forall j | 0 <= j < |split| ensures split[j].size % GRAIN == 0 {
        assert j > i + 1 ==> split[j] == cells[j - 1];
      }
    }
  }
}
