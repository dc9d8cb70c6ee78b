/** The kernel heap's block list in memory, and the cells it lays out: headers of 64 bytes, each
    followed by its data and, without a gap, by the next header. */
module HeapLayout {
  const HEADER := 64
  const TAG := 16        // the allocation header before each user pointer
  const GRAIN := 64      // block sizes are multiples of this

  type Address = nat

  /** A block header; `next` is 0 at the end of the list. */
  datatype Block = Block(size: nat, next: Address, free: nat)

  type Memory = Address -> Block

  /** A block without its place. */
  datatype Cell = Cell(size: nat, free: bool)

  function Write(m: Memory, a: Address, b: Block): Memory {
    (x: Address) => if x == a then b else m(x)
  }

  // ----- where cells are

  function At(a: Address, cells: seq<Cell>, i: nat): Address
    requires i <= |cells|
    decreases i
  {
    if i == 0 then a else At(a + HEADER + cells[0].size, cells[1..], i - 1)
  }

  lemma {:induction false} AtNext(a: Address, cells: seq<Cell>, i: nat)
    requires i < |cells|
    ensures At(a, cells, i + 1) == At(a, cells, i) + HEADER + cells[i].size
    decreases i
  {
    if i > 0 { AtNext(a + HEADER + cells[0].size, cells[1..], i - 1); }
  }

  lemma {:induction false} AtOrder(a: Address, cells: seq<Cell>, i: nat, j: nat)
    requires i < j <= |cells|
    ensures a <= At(a, cells, i) && At(a, cells, i) + HEADER + cells[i].size <= At(a, cells, j)
    decreases j
  {
    if j == i + 1 {
      AtNext(a, cells, i);
      AtFrom(a, cells, i);
    } else {
      AtOrder(a, cells, i, j - 1);
      AtNext(a, cells, j - 1);
    }
  }

  lemma {:induction false} AtFrom(a: Address, cells: seq<Cell>, i: nat)
    requires i <= |cells|
    ensures a <= At(a, cells, i)
    decreases i
  {
    if i > 0 { AtFrom(a + HEADER + cells[0].size, cells[1..], i - 1); }
  }

  // ----- memory holding cells

  function HeaderOf(c: Cell, next: Address): Block { Block(c.size, next, if c.free then 1 else 0) }

  /** From `a` to `end`, memory holds the headers of the cells, linked in order. */
  ghost predicate Lays(m: Memory, a: Address, end: Address, cells: seq<Cell>)
    decreases |cells|
  {
    cells != [] &&
    var after := a + HEADER + cells[0].size;
    if |cells| == 1 then m(a) == HeaderOf(cells[0], 0) && after == end
    else m(a) == HeaderOf(cells[0], after) && Lays(m, after, end, cells[1..])
  }

  lemma {:induction false} LaysAt(m: Memory, a: Address, end: Address, cells: seq<Cell>, i: nat)
    requires Lays(m, a, end, cells) && i < |cells|
    ensures m(At(a, cells, i)) == HeaderOf(cells[i], if i + 1 == |cells| then 0 else At(a, cells, i + 1))
    ensures At(a, cells, |cells|) == end
    decreases |cells|
  {
    var after := a + HEADER + cells[0].size;
    if i > 0 {
      LaysAt(m, after, end, cells[1..], i - 1);
    } else if |cells| > 1 {
      LaysAt(m, after, end, cells[1..], 0);
    }
  }

  lemma {:induction false} LaysFrame(m: Memory, m': Memory, a: Address, end: Address, cells: seq<Cell>)
    requires Lays(m, a, end, cells) && forall x: Address :: x >= a ==> m'(x) == m(x)
    ensures Lays(m', a, end, cells)
    decreases |cells|
  {
    if |cells| > 1 { LaysFrame(m, m', a + HEADER + cells[0].size, end, cells[1..]); }
  }

  // ----- the blocks in use

  /** Block addresses to data sizes. */
  function Used(a: Address, cells: seq<Cell>): map<Address, nat>
    decreases |cells|
  {
    if cells == [] then map[]
    else
      var rest := Used(a + HEADER + cells[0].size, cells[1..]);
      if cells[0].free then rest else rest[a := cells[0].size]
  }

  lemma {:induction false} UsedFrom(a: Address, cells: seq<Cell>)
    ensures forall x :: x in Used(a, cells) ==> a <= x
    decreases |cells|
  {
    if cells != [] { UsedFrom(a + HEADER + cells[0].size, cells[1..]); }
  }

  /** A block is in use exactly when it is a cell that is not free. */
  lemma {:induction false} UsedIsCell(a: Address, cells: seq<Cell>, x: Address)
    ensures x in Used(a, cells) <==> exists i: nat :: CellAt(a, cells, i, x) && !cells[i].free
    ensures forall i: nat :: CellAt(a, cells, i, x) && x in Used(a, cells) ==> Used(a, cells)[x] == cells[i].size
    decreases |cells|
  {
    if cells != [] {
      var after := a + HEADER + cells[0].size;
      UsedIsCell(after, cells[1..], x);
      UsedFrom(after, cells[1..]);
      forall i: nat ensures CellAt(a, cells, i, x) <==>
        (i == 0 && x == a) || (i > 0 && CellAt(after, cells[1..], i - 1, x)) {}
      forall i: nat | CellAt(after, cells[1..], i, x) ensures CellAt(a, cells, i + 1, x) { }
      CellFrom(after, cells[1..], x);
    }
  }

  predicate CellAt(a: Address, cells: seq<Cell>, i: nat, x: Address) {
    i < |cells| && At(a, cells, i) == x
  }

  lemma CellFrom(a: Address, cells: seq<Cell>, x: Address)
    ensures forall i: nat :: CellAt(a, cells, i, x) ==> a <= x
  {
    forall i: nat | CellAt(a, cells, i, x) ensures a <= x { AtFrom(a, cells, i); }
  }

  // ----- splitting a block

  /** A block is split when the rest can hold a header and 64 bytes. */
  predicate Splits(c: Cell, size: nat) { c.size >= size + HEADER + 64 }

  function SplitCell(cells: seq<Cell>, i: nat, size: nat): seq<Cell>
    requires i < |cells|
  {
    if Splits(cells[i], size)
    then cells[..i] + [Cell(size, cells[i].free), Cell(cells[i].size - size - HEADER, true)] + cells[i + 1..]
    else cells
  }

  function SplitMemory(m: Memory, b: Address, size: nat): Memory {
    var was := m(b);
    if was.size >= size + HEADER + 64 then
      var next := b + HEADER + size;
      Write(Write(m, next, Block(was.size - size - HEADER, was.next, 1)), b, Block(size, next, was.free))
    else m
  }

  lemma {:induction false} SplitLays(m: Memory, a: Address, end: Address, cells: seq<Cell>, i: nat, size: nat)
    requires Lays(m, a, end, cells) && i < |cells|
    ensures Lays(SplitMemory(m, At(a, cells, i), size), a, end, SplitCell(cells, i, size))
    decreases |cells|
  {
    var b := At(a, cells, i);
    var m' := SplitMemory(m, b, size);
    var after := a + HEADER + cells[0].size;
    LaysAt(m, a, end, cells, i);
    if Splits(cells[i], size) {
      if i == 0 {
        var split := SplitCell(cells, 0, size);
        assert split[1..] == [split[1]] + cells[1..];
        assert split[1..][1..] == cells[1..];
        if |cells| > 1 { LaysFrame(m, m', after, end, cells[1..]); }
      } else {
        SplitLays(m, after, end, cells[1..], i - 1, size);
        assert SplitCell(cells, i, size)[1..] == SplitCell(cells[1..], i - 1, size);
        AtFrom(after, cells[1..], i - 1);
      }
    }
  }

  /** The first cell of a split keeps its place, and what is in use is unchanged but for it. */
  lemma {:induction false} SplitUsed(a: Address, cells: seq<Cell>, i: nat, size: nat)
    requires i < |cells| && cells[i].free
    ensures Used(a, SplitCell(cells, i, size)) == Used(a, cells)
    ensures At(a, SplitCell(cells, i, size), i) == At(a, cells, i)
    decreases |cells|
  {
    var split := SplitCell(cells, i, size);
    if Splits(cells[i], size) {
      if i == 0 {
        assert split[1..] == [split[1]] + cells[1..];
        assert split[1..][1..] == cells[1..];
      } else {
        SplitUsed(a + HEADER + cells[0].size, cells[1..], i - 1, size);
        assert split[1..] == SplitCell(cells[1..], i - 1, size);
      }
    }
  }

  // ----- marking a block

  function Mark(cells: seq<Cell>, i: nat, free: bool): seq<Cell>
    requires i < |cells|
  {
    cells[i := cells[i].(free := free)]
  }

  lemma {:induction false} MarkLays(m: Memory, a: Address, end: Address, cells: seq<Cell>, i: nat, free: bool)
    requires Lays(m, a, end, cells) && i < |cells|
    ensures var b := At(a, cells, i);
            Lays(Write(m, b, m(b).(free := if free then 1 else 0)), a, end, Mark(cells, i, free))
    ensures At(a, Mark(cells, i, free), i) == At(a, cells, i)
    decreases |cells|
  {
    var b := At(a, cells, i);
    var m' := Write(m, b, m(b).(free := if free then 1 else 0));
    var after := a + HEADER + cells[0].size;
    if i == 0 {
      assert Mark(cells, 0, free)[1..] == cells[1..];
      if |cells| > 1 { LaysFrame(m, m', after, end, cells[1..]); }
    } else {
      MarkLays(m, after, end, cells[1..], i - 1, free);
      assert Mark(cells, i, free)[1..] == Mark(cells[1..], i - 1, free);
      AtFrom(after, cells[1..], i - 1);
    }
  }

  lemma {:induction false} MarkUsed(a: Address, cells: seq<Cell>, i: nat, free: bool)
    requires i < |cells|
    ensures var b := At(a, cells, i);
            Used(a, Mark(cells, i, free)) == if free then Used(a, cells) - {b} else Used(a, cells)[b := cells[i].size]
    decreases |cells|
  {
    var after := a + HEADER + cells[0].size;
    UsedFrom(after, cells[1..]);
    if i == 0 {
      assert Mark(cells, 0, free)[1..] == cells[1..];
    } else {
      MarkUsed(after, cells[1..], i - 1, free);
      assert Mark(cells, i, free)[1..] == Mark(cells[1..], i - 1, free);
      AtFrom(after, cells[1..], i - 1);
    }
  }

  // ----- joining free neighbours

  predicate Joinable(cells: seq<Cell>, i: nat) {
    i + 1 < |cells| && cells[i].free && cells[i + 1].free
  }

  function Join(cells: seq<Cell>, i: nat): seq<Cell>
    requires i + 1 < |cells|
  {
    cells[..i] + [Cell(cells[i].size + HEADER + cells[i + 1].size, cells[i].free)] + cells[i + 2..]
  }

  function JoinMemory(m: Memory, b: Address): Memory {
    Write(m, b, Block(m(b).size + HEADER + m(m(b).next).size, m(m(b).next).next, m(b).free))
  }

  lemma {:induction false} JoinLays(m: Memory, a: Address, end: Address, cells: seq<Cell>, i: nat)
    requires Lays(m, a, end, cells) && i + 1 < |cells|
    ensures Lays(JoinMemory(m, At(a, cells, i)), a, end, Join(cells, i))
    ensures At(a, Join(cells, i), i) == At(a, cells, i)
    decreases |cells|
  {
    var b := At(a, cells, i);
    var m' := JoinMemory(m, b);
    var after := a + HEADER + cells[0].size;
    if i == 0 {
      var join := Join(cells, 0);
      assert join[1..] == cells[2..] && cells[1..][1..] == cells[2..];
      if |cells| > 2 { LaysFrame(m, m', after + HEADER + cells[1].size, end, cells[2..]); }
    } else {
      JoinLays(m, after, end, cells[1..], i - 1);
      assert Join(cells, i)[1..] == Join(cells[1..], i - 1);
      AtFrom(after, cells[1..], i - 1);
    }
  }

  lemma {:induction false} JoinUsed(a: Address, cells: seq<Cell>, i: nat)
    requires Joinable(cells, i)
    ensures Used(a, Join(cells, i)) == Used(a, cells)
    decreases |cells|
  {
    var join := Join(cells, i);
    if i == 0 {
      assert join[1..] == cells[2..] && cells[1..][1..] == cells[2..];
    } else {
      JoinUsed(a + HEADER + cells[0].size, cells[1..], i - 1);
      assert join[1..] == Join(cells[1..], i - 1);
    }
  }

  /** No two free blocks are neighbours. */
  ghost predicate Coalesced(cells: seq<Cell>) { forall i: nat :: !Joinable(cells, i) }

  // ----- the grain

  ghost predicate Grained(cells: seq<Cell>) { forall i :: 0 <= i < |cells| ==> cells[i].size % GRAIN == 0 }

  /** The list starts at a multiple of 64, and so do all its blocks. */
  lemma {:induction false} AtGrain(a: Address, cells: seq<Cell>, i: nat)
    requires Grained(cells) && i <= |cells| && a % GRAIN == 0
    ensures At(a, cells, i) % GRAIN == 0
    decreases i
  {
    if i > 0 { AtGrain(a + HEADER + cells[0].size, cells[1..], i - 1); }
  }

  // ----- what the layout guarantees

  /** Data of one block never reaches a header of another. */
  lemma BlocksApart(a: Address, cells: seq<Cell>, i: nat, j: nat)
    requires i < |cells| && j < |cells| && i != j
    ensures var x, y := At(a, cells, i), At(a, cells, j);
            x + HEADER + cells[i].size <= y || y + HEADER + cells[j].size <= x
  {
    if i < j { AtOrder(a, cells, i, j); } else { AtOrder(a, cells, j, i); }
  }

  /** Two coalesced layouts of the same range with the same blocks in use are the same: what is
      allocated alone decides where everything is. */
  lemma {:induction false} LayoutIsUnique(m: Memory, m': Memory, a: Address, end: Address, c: seq<Cell>, d: seq<Cell>)
    requires Lays(m, a, end, c) && Lays(m', a, end, d) && Coalesced(c) && Coalesced(d)
    requires Used(a, c) == Used(a, d)
    ensures c == d
    decreases |c|
  {
    SameFirst(m, m', a, end, c, d);
    var after := a + HEADER + c[0].size;
    TailCoalesced(c);
    TailCoalesced(d);
    LaysAt(m, a, end, c, 0);
    LaysAt(m', a, end, d, 0);
    if |c| > 1 && |d| > 1 {
      UsedFrom(after, c[1..]);
      UsedFrom(after, d[1..]);
      assert Used(after, c[1..]) == Used(a, c) - {a};
      assert Used(after, d[1..]) == Used(a, d) - {a};
      LayoutIsUnique(m, m', after, end, c[1..], d[1..]);
      assert c == [c[0]] + c[1..] && d == [d[0]] + d[1..];
    } else {
      AtOrder(a, c, 0, |c|);
      AtOrder(a, d, 0, |d|);
      OneCell(m, a, end, c);
      OneCell(m', a, end, d);
    }
  }

  lemma OneCell(m: Memory, a: Address, end: Address, c: seq<Cell>)
    requires Lays(m, a, end, c)
    ensures a + HEADER + c[0].size == end <==> |c| == 1
  {
    LaysAt(m, a, end, c, 0);
    if |c| > 1 {
      AtNext(a, c, 0);
      AtOrder(a, c, 1, |c|);
    }
  }

  lemma TailCoalesced(c: seq<Cell>)
    requires Coalesced(c) && c != []
    ensures Coalesced(c[1..])
  {
    forall i: nat ensures !Joinable(c[1..], i) { assert !Joinable(c, i + 1); }
  }

  lemma SameFirst(m: Memory, m': Memory, a: Address, end: Address, c: seq<Cell>, d: seq<Cell>)
    requires Lays(m, a, end, c) && Lays(m', a, end, d) && Coalesced(c) && Coalesced(d)
    requires Used(a, c) == Used(a, d)
    ensures c[0] == d[0]
  {
    var ca, da := a + HEADER + c[0].size, a + HEADER + d[0].size;
    UsedFrom(ca, c[1..]);
    UsedFrom(da, d[1..]);
    assert c[0].free <==> a !in Used(a, c);
    assert d[0].free <==> a !in Used(a, d);
    if c[0].free {
      AfterFree(m, a, end, c);
      AfterFree(m', a, end, d);
      if Used(a, c) != map[] { assert ca in Used(a, d) && da in Used(a, c); }
    }
  }

  /** A free first block reaches to the first block in use, or to the end. */
  lemma AfterFree(m: Memory, a: Address, end: Address, c: seq<Cell>)
    requires Lays(m, a, end, c) && Coalesced(c) && c[0].free
    ensures var after := a + HEADER + c[0].size;
            && (Used(a, c) == map[] <==> after == end)
            && (after != end ==> after in Used(a, c))
            && (forall x :: x in Used(a, c) ==> after <= x)
  {
    var after := a + HEADER + c[0].size;
    UsedFrom(after, c[1..]);
    OneCell(m, a, end, c);
    if |c| > 1 {
      assert !Joinable(c, 0);
      assert c[1..][0] == c[1];
      assert after in Used(a, c);
    } else {
      assert c[1..] == [] && Used(after, []) == map[];
      assert Used(a, c) == map[];
    }
  }
}
