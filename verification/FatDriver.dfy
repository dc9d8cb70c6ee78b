/** The FAT32 driver over a volume: opening by short name, reading, writing, seeking and closing,
    each file one byte sequence that lives on across closing and opening again. */
module FatDriver {
  import opened Arithmetic
  import opened Bytes
  import opened FatTable
  import opened FatVolume

  const ENTRY_MASK := 0x1000_0000   // table entries keep 28 bits
  const MAX_OPEN := 8

  type Name = seq<Byte>

  datatype Slot = End | Deleted | Long | File(name: Name, isDir: bool, first: nat, size: nat)

  // ----- the directory

  datatype Search = Found(slot: nat) | Missing(free: nat)

  /** The slot of `name`, or the first slot that a new entry can take; `|dir|` if there is none. */
  function Find(dir: seq<Slot>, name: Name, i: nat, free: nat): (r: Search)
    requires i <= |dir|
    ensures r.Found? ==> i <= r.slot < |dir| && dir[r.slot].File? && dir[r.slot].name == name
    decreases |dir| - i
  {
    if i == |dir| then Missing(free)
    else
      var spare := if free == |dir| then i else free;
      match dir[i]
      case End => Missing(spare)
      case Deleted => Find(dir, name, i + 1, spare)
      case Long => Find(dir, name, i + 1, free)
      case File(n, _, _, _) => if n == name then Found(i) else Find(dir, name, i + 1, free)
  }

  function Lookup(dir: seq<Slot>, name: Name): (r: Search)
    ensures r.Found? ==> r.slot < |dir| && dir[r.slot].File? && dir[r.slot].name == name
  {
    Find(dir, name, 0, |dir|)
  }

  /** Nothing stands behind the end mark. */
  ghost predicate Tidy(dir: seq<Slot>) {
    forall i, j :: 0 <= i < j < |dir| && dir[i] == End ==> dir[j] == End
  }

  /** The slot a search offers is at the end mark or deleted. */
  lemma {:induction false} FindMeans(dir: seq<Slot>, name: Name, i: nat, free: nat)
    requires i <= |dir| && (free < i ==> dir[free] == Deleted) && (free < i || free == |dir|)
    ensures var r := Find(dir, name, i, free);
            r.Missing? ==> r.free == |dir| || (r.free < |dir| && (dir[r.free] == End || dir[r.free] == Deleted))
    decreases |dir| - i
  {
    if i < |dir| {
      FindMeans(dir, name, i + 1, if dir[i] == Deleted && free == |dir| then i else free);
    }
  }

  /** The slot holds the name's entry, and no end mark stands before it. */
  predicate EntryAt(dir: seq<Slot>, name: Name, s: nat) {
    && s < |dir| && dir[s].File? && dir[s].name == name
    && forall j :: 0 <= j < s ==> dir[j] != End && !(dir[j].File? && dir[j].name == name)
  }

  predicate Vacant(slot: Slot) { slot == End || slot == Deleted }

  /** From `i` on, behind slots that hold neither the name nor the end mark. */
  lemma {:induction false} FindFrom(dir: seq<Slot>, name: Name, i: nat, free: nat)
    requires i <= |dir|
    requires forall j :: 0 <= j < i ==> dir[j] != End && !(dir[j].File? && dir[j].name == name)
    requires free == |dir| || (free < i && Vacant(dir[free]))
    requires forall j :: 0 <= j < i && j < free ==> !Vacant(dir[j])
    ensures var r := Find(dir, name, i, free);
            && (r.Found? ==> EntryAt(dir, name, r.slot))
            && (r.Missing? ==>
                  && (forall s: nat :: !EntryAt(dir, name, s))
                  && r.free <= |dir| && (r.free < |dir| ==> Vacant(dir[r.free]))
                  && forall j :: 0 <= j < r.free ==> !Vacant(dir[j]))
    decreases |dir| - i
  {
    if i < |dir| && dir[i] != End && !(dir[i].File? && dir[i].name == name) {
      FindFrom(dir, name, i + 1, if dir[i] == Deleted && free == |dir| then i else free);
    }
  }

  /** A search finds the first entry of the name before the end mark, passing over entries that are deleted
      or hold a part of a long name; or it offers the first slot that is deleted or at the end mark. */
  lemma LookupMeans(dir: seq<Slot>, name: Name)
    ensures var r := Lookup(dir, name);
            && (forall s: nat :: r == Found(s) <==> EntryAt(dir, name, s))
            && (r.Missing? ==>
                  && r.free <= |dir| && (r.free < |dir| ==> Vacant(dir[r.free]))
                  && forall j :: 0 <= j < r.free ==> !Vacant(dir[j]))
  {
    FindFrom(dir, name, 0, |dir|);
  }

  /** Writing an entry at the slot that a search offered makes its name found there, and leaves the
      answers for all other names as they were. */
  lemma {:induction false} FindAfterCreate(dir: seq<Slot>, name: Name, other: Name, f: nat, entry: Slot, i: nat,
          free: nat, free': nat)
    requires i <= |dir| && f < |dir| && (dir[f] == End || dir[f] == Deleted) && Tidy(dir)
    requires entry.File? && entry.name == name && other != name
    requires forall j :: 0 <= j < f ==> dir[j] != End
    ensures var r, r' := Find(dir, other, i, free), Find(dir[f := entry], other, i, free');
            (r.Found? <==> r'.Found?) && (r.Found? ==> r == r')
    decreases |dir| - i
  {
    if i < |dir| {
      var d' := dir[f := entry];
      var n := if dir[i] == Deleted && free == |dir| then i else free;
      var n' := if d'[i] == Deleted && free' == |dir| then i else free';
      FindAfterCreate(dir, name, other, f, entry, i + 1, n, n');
      if dir[i] == End { AllEnd(dir, i + 1, d', other, i + 1, n'); }
    }
  }

  /** From a stretch of end marks nothing is found. */
  lemma {:induction false} AllEnd(dir: seq<Slot>, from: nat, d': seq<Slot>, other: Name, i: nat, free: nat)
    requires |d'| == |dir| && from <= i <= |dir| && forall j :: from <= j < |dir| ==> d'[j] == End
    ensures Find(d', other, i, free).Missing?
    decreases |dir| - i
  {}

  // ----- the volume

  function Head(chain: seq<nat>): nat { if chain == [] then 0 else chain[0] }

  /** Entries 0 and 1 are taken, cluster 2 is the root directory. */
  function FormattedTable(clusters: nat): (t: Table)
    ensures |t| == clusters + 3
  {
    [EOC, EOC, EOC] + seq(clusters, _ => 0)
  }

  class Volume {
    const copies: nat
    const shape: Shape
    var fats: seq<Table>
    var data: seq<seq<Byte>>
    var dir: seq<Slot>
    var handles: nat
    ghost var chains: seq<seq<nat>>
    ghost var busy: set<nat>      // slots with an open handle

    /** A volume just formatted: so many clusters are free and so many entries of the root are. */
    constructor Formatted(fatCount: nat, clusterBytes: nat, clusters: nat, entries: nat)
      requires fatCount > 0 && clusterBytes > 0 && clusterBytes % SECTOR == 0 && clusters + 3 <= EOC
      ensures Valid() && handles == 0 && busy == {} && shape.clusterBytes == clusterBytes
      ensures dir == seq(entries, _ => End) && chains == seq(entries, _ => []) && fats[0] == FormattedTable(clusters)
    {
      copies, shape := fatCount, Shape(clusterBytes, 2);
      fats := seq(fatCount, _ => FormattedTable(clusters));
      data := seq(clusters + 3, _ => Zeros(clusterBytes));
      dir := seq(entries, _ => End);
      chains := seq(entries, _ => []);
      handles, busy := 0, {};
      new;
      forall s: nat ensures SlotOk(shape, Img(), s) {}
      forall a: nat, b: nat, c: nat ensures Apart(Img(), a, b, c) {}
    }

    ghost function Img(): Image
      requires |fats| > 0
      reads this
    {
      Image(fats[0], data, chains)
    }

    ghost function SpaceOf(s: nat): Space
      requires |fats| > 0 && s < |chains|
      reads this
    {
      Space(fats[0], chains[s])
    }

    /** All copies of the table agree. */
    ghost predicate Agree()
      reads this
    {
      |fats| == copies > 0 && forall k :: 0 <= k < |fats| ==> fats[k] == fats[0]
    }

    ghost predicate Whole()
      reads this
    {
      Agree() && Sound(shape, Img()) && |chains| == |dir| && Tidy(dir)
    }

    /** A directory entry leads to its slot's chain. */
    ghost predicate Settled(s: nat)
      reads this
    {
      s < |dir| && s < |chains| ==>
        if dir[s].File? then dir[s].first == Head(chains[s]) && dir[s].size < U32
        else chains[s] == []
    }

    ghost predicate Valid()
      reads this
    {
      && Whole() && (forall s: nat :: s !in busy ==> Settled(s))
      && (forall s :: s in busy ==> s < |dir| && dir[s].File?)
      && handles == |busy|
    }

    /** What the directory entry of a closed file shows. */
    ghost function FileBytes(s: nat): seq<Byte>
      requires s < |dir| && dir[s].File? && s < |chains|
      reads this
    {
      Content(shape.clusterBytes, data, chains[s], dir[s].size)
    }

    method FatEntry(c: nat) returns (status: Status, value: nat)
      requires Agree() && c < |fats[0]|
      ensures status == (if c < 2 then InvalidArgument else Ok) && (status == Ok ==> value == fats[0][c])
    {
      if c < 2 { return InvalidArgument, 0; }
      return Ok, fats[0][c];
    }

    /** The entry is written in every copy. */
    method SetFatEntry(c: nat, value: nat) returns (status: Status)
      requires Agree() && 2 <= c < |fats[0]| && value < ENTRY_MASK
      modifies `fats
      ensures status == Ok && Agree() && fats[0] == old(fats[0])[c := value]
    {
      var k := 0;
      while k < copies
        invariant 0 <= k <= copies && |fats| == copies
        invariant forall j :: 0 <= j < k ==> fats[j] == old(fats[0])[c := value]
        invariant forall j :: k <= j < copies ==> fats[j] == old(fats[0])
      {
        var entry: nat := value % ENTRY_MASK;
        var table: Table := fats[k][c := entry];
        fats := fats[k := table];
        k := k + 1;
      }
      status := Ok;
    }

    /** Takes the lowest free cluster, marks it as an end and zeroes it. */
    method AllocateCluster() returns (status: Status, c: nat)
      requires Agree() && |fats[0]| >= 2 && fats[0][0] != 0 && fats[0][1] != 0
      requires |data| == |fats[0]|
      modifies `fats, `data
      ensures Agree() && c == FreeFrom(old(fats[0]), 0)
      ensures status == if c < |old(fats[0])| then Ok else NoMemory
      ensures status == Ok ==>
              2 <= c && fats[0] == old(fats[0])[c := EOC] &&
              data == old(data)[c := Zeros(shape.clusterBytes)]
      ensures status != Ok ==> fats == old(fats) && data == old(data)
    {
      c := 2;
      while c < |fats[0]|
        invariant fats == old(fats) && data == old(data) && 2 <= c <= |fats[0]|
        invariant FreeFrom(fats[0], 0) == FreeFrom(fats[0], c)
      {
        var st, value := FatEntry(c);
        if value == 0 {
          st := SetFatEntry(c, EOC);
          data := data[c := Zeros(shape.clusterBytes)];
          return Ok, c;
        }
        c := c + 1;
      }
      status := NoMemory;
    }

    /** Clears entries from `first` on; ends on any table whose entries stay in range. */
    method FreeChain(first: nat) returns (status: Status)
      requires Agree() && InRange(fats[0]) && (first < |fats[0]| || IsEoc(first))
      modifies `fats
      ensures status == Ok && Agree() && InRange(old(fats[0])) && fats[0] == Freed(old(fats[0]), first)
    {
      var c: nat := first;
      ghost var t := fats[0];
      while c >= 2 && !IsEoc(c)
        invariant Agree() && InRange(fats[0]) && |fats[0]| == |t| && (c < |fats[0]| || IsEoc(c))
        invariant Freed(fats[0], c) == Freed(t, first)
        decreases InUse(fats[0], 0), if c < 2 || IsEoc(c) then 0 else 1
      {
        var st, next := FatEntry(c);
        ghost var u := fats[0];
        if next != 0 { ClearOne(u, c, 0); } else { ClearNone(u, c); }
        st := SetFatEntry(c, 0);
        if IsEoc(next) { return Ok; }
        c := next;
      }
      status := Ok;
    }

    method FindEntry(name: Name) returns (r: Search)
      ensures r == Lookup(dir, name)
    {
      var free := |dir|;
      var i := 0;
      while i < |dir|
        invariant 0 <= i <= |dir| && 0 <= free <= |dir|
        invariant Find(dir, name, 0, |dir|) == Find(dir, name, i, free)
      {
        if dir[i] == End { return Missing(if free == |dir| then i else free); }
        if dir[i] == Deleted {
          if free == |dir| { free := i; }
        } else if dir[i].File? && dir[i].name == name {
          return Found(i);
        }
        i := i + 1;
      }
      r := Missing(free);
    }

    /** Writes the entry of a new, empty file. */
    method CreateEntry(name: Name, f: nat)
      requires Valid() && Lookup(dir, name) == Missing(f) && f < |dir|
      modifies `dir
      ensures Valid() && dir == old(dir)[f := File(name, false, 0, 0)]
      ensures Lookup(dir, name) == Found(f) && chains[f] == [] && f !in busy
      ensures forall other: Name :: other != name ==>
                (Lookup(dir, other).Found? <==> Lookup(old(dir), other).Found?)
                && (Lookup(dir, other).Found? ==> Lookup(dir, other) == Lookup(old(dir), other))
    {
      CreatedLookup(dir, name, f);
      assert Settled(f) && f !in busy;
      dir := dir[f := File(name, false, 0, 0)];
    }

    /** Releases the chain of a slot and empties its entry. */
    method Empty(s: nat)
      requires Valid() && s < |dir| && s !in busy && dir[s].File?
      modifies `fats, `dir, `chains
      ensures Valid() && dir == old(dir)[s := old(dir[s]).(first := 0, size := 0)]
      ensures Img() == ReleasedImage(old(Img()), s)
    {
      hide Chained, InRange, Tidy, OthersKept;
      ghost var m := Img();
      assert Settled(s);
      ReleasedSound(shape, m, s);
      HeadZero(shape, m, s);
      var first := dir[s].first;
      if first != 0 {
        EntryInRange(shape, m, s);
        var st := FreeChain(first);
      } else {
        ClearedNothing(m.table);
      }
      chains := chains[s := []];
      TidyWrite(dir, s, dir[s].(first := 0, size := 0));
      dir := dir[s := dir[s].(first := 0, size := 0)];
      assert Img() == ReleasedImage(m, s);
    }

    /** Opens by short name.  A file has one opener at a time.  An entry that is new or truncated is
        written first and space for the handle is looked for last, so a failure then still leaves the
        file created or emptied. */
    method Open(name: Name, create: bool, truncate: bool, append: bool, readable: bool, writable: bool)
      returns (status: Status, f: OpenFile?)
      requires Valid() && (Lookup(dir, name).Found? ==> Lookup(dir, name).slot !in busy)
      modifies this
      ensures Valid() && (f != null <==> status == Ok) && (f != null ==> fresh(f))
      ensures var r := old(Lookup(dir, name));
              status == if r.Missing? && (!create || r.free == |old(dir)|) then NotFound
                        else if r.Found? && old(dir)[r.slot].isDir then InvalidArgument
                        else if old(handles) >= MAX_OPEN then NoMemory else Ok
      ensures status == NotFound || status == InvalidArgument ==>
                dir == old(dir) && Img() == old(Img()) && busy == old(busy)
      ensures status == Ok || status == NoMemory ==>
                var r := old(Lookup(dir, name));
                var s := if r.Found? then r.slot else r.free;
                && s < |dir| && Lookup(dir, name) == Found(s)
                && Prepared(name, s, r.Missing? || (truncate && writable), old(dir), old(Img()))
                && busy == (if status == Ok then old(busy) + {s} else old(busy))
                && (status == Ok ==>
                      && f.On(this) && f.slot == s && f.size == dir[s].size && s !in old(busy)
                      && f.position == (if append then f.size else 0) && f.readable == readable &&
                        f.writable == writable)
      ensures forall other: Name :: other != name ==>
                (Lookup(dir, other).Found? <==> Lookup(old(dir), other).Found?)
                && (Lookup(dir, other).Found? ==> Lookup(dir, other) == Lookup(old(dir), other))
    {
      var r := FindEntry(name);
      FindMeans(dir, name, 0, |dir|);
      var slot;
      if r.Missing? {
        if !create || r.free == |dir| { return NotFound, null; }
        slot := r.free;
        CreateEntry(name, slot);
      } else {
        slot := r.slot;
      }
      if r.Missing? { ReleasedNothing(Img(), slot); }
      status, f := OpenSlot(name, slot, truncate, append, readable, writable);
    }

    /** An open leaves the entry of slot s alone, or new and without clusters; nothing else changes. */
    ghost predicate Prepared(name: Name, s: nat, emptied: bool, was: seq<Slot>, m: Image)
      requires |fats| > 0
      reads this
    {
      && s < |was| && s < |m.chains|
      && dir == (if emptied then was[s := File(name, false, 0, 0)] else was)
      && Img() == (if emptied then ReleasedImage(m, s) else m)
    }

    method OpenSlot(name: Name, s: nat, truncate: bool, append: bool, readable: bool, writable: bool)
      returns (status: Status, f: OpenFile?)
      requires Valid() && s < |dir| && dir[s].File? && s !in busy && Lookup(dir, name) == Found(s)
      modifies this
      ensures Valid() && (f != null <==> status == Ok) && (f != null ==> fresh(f))
      ensures status == (if old(dir[s].isDir) then InvalidArgument else if old(handles) >= MAX_OPEN then NoMemory
                else Ok)
      ensures status == InvalidArgument ==> dir == old(dir) && Img() == old(Img()) && busy == old(busy)
      ensures status != InvalidArgument ==> Prepared(name, s, truncate && writable, old(dir), old(Img()))
      ensures forall other: Name :: Lookup(dir, other) == Lookup(old(dir), other)
      ensures status == NoMemory ==> busy == old(busy)
      ensures status == Ok ==>
                && busy == old(busy) + {s} && f.On(this) && f.slot == s && f.size == dir[s].size
                && f.position == (if append then f.size else 0) && f.readable == readable && f.writable == writable
    {
      hide Sound, Tidy, ReleasedImage;
      f := null;
      if dir[s].isDir { return InvalidArgument, null; }
      assert Settled(s);
      if truncate && writable {
        forall other: Name ensures Lookup(dir[s := dir[s].(first := 0, size := 0)], other) == Lookup(dir, other) {
          SameNames(dir, other, s, dir[s].(first := 0, size := 0), 0, |dir|, |dir|);
        }
        Empty(s);
        assert Settled(s);
      }
      if handles >= MAX_OPEN { return NoMemory, null; }
      f := new OpenFile(dir[s].first, dir[s].size, if append then dir[s].size else 0, s, readable, writable);
      handles := handles + 1;
      busy := busy + {s};
      status := Ok;
    }
  }

  lemma CreatedLookup(dir: seq<Slot>, name: Name, f: nat)
    requires Lookup(dir, name) == Missing(f) && f < |dir| && Tidy(dir)
    ensures (dir[f] == End || dir[f] == Deleted) && Tidy(dir[f := File(name, false, 0, 0)])
    ensures Lookup(dir[f := File(name, false, 0, 0)], name) == Found(f)
    ensures forall other: Name :: other != name ==>
              (Lookup(dir[f := File(name, false, 0, 0)], other).Found? <==> Lookup(dir, other).Found?)
              && (Lookup(dir[f := File(name, false, 0, 0)], other).Found? ==>
                    Lookup(dir[f := File(name, false, 0, 0)], other) == Lookup(dir, other))
  {
    var entry := File(name, false, 0, 0);
    FindMeans(dir, name, 0, |dir|);
    MissingMeans(dir, name, 0, |dir|);
    FoundHere(dir, name, entry, f, 0, |dir|);
    forall other: Name | other != name
      ensures (Lookup(dir[f := entry], other).Found? <==> Lookup(dir, other).Found?)
              && (Lookup(dir[f := entry], other).Found? ==> Lookup(dir[f := entry], other) == Lookup(dir, other))
    {
      FindAfterCreate(dir, name, other, f, entry, 0, |dir|, |dir|);
    }
  }

  /** A search that found nothing met neither the name nor, before the slot it offers, an end mark. */
  lemma {:induction false} MissingMeans(dir: seq<Slot>, name: Name, i: nat, free: nat)
    requires i <= |dir| && Find(dir, name, i, free).Missing? && (free < i || free == |dir|)
    ensures var f := Find(dir, name, i, free).free;
            forall j :: i <= j < f && j < |dir| ==> dir[j] != End && !(dir[j].File? && dir[j].name == name)
    decreases |dir| - i
  {
    if i < |dir| && dir[i] != End {
      MissingMeans(dir, name, i + 1, if dir[i] == Deleted && free == |dir| then i else free);
    }
  }

  lemma {:induction false} FoundHere(dir: seq<Slot>, name: Name, entry: Slot, f: nat, i: nat, free: nat)
    requires i <= f < |dir| && entry.File? && entry.name == name
    requires forall j :: i <= j < f ==> dir[j] != End && !(dir[j].File? && dir[j].name == name)
    ensures Find(dir[f := entry], name, i, free) == Found(f)
    decreases f - i
  {
    if i < f { FoundHere(dir, name, entry, f, i + 1, if dir[i] == Deleted && free == |dir| then i else free); }
  }

  /** Rewriting an entry under its own name changes no search. */
  lemma {:induction false} SameNames(dir: seq<Slot>, name: Name, s: nat, entry: Slot, i: nat, free: nat, free': nat)
    requires i <= |dir| && s < |dir| && dir[s].File? && entry.File? && entry.name == dir[s].name
    requires free == free'
    ensures Find(dir[s := entry], name, i, free') == Find(dir, name, i, free)
    decreases |dir| - i
  {
    if i < |dir| {
      var n := if dir[i] == Deleted && free == |dir| then i else free;
      SameNames(dir, name, s, entry, i + 1, n, n);
    }
  }

  lemma TidyWrite(dir: seq<Slot>, s: nat, entry: Slot)
    requires Tidy(dir) && s < |dir| && dir[s] != End && entry != End
    ensures Tidy(dir[s := entry])
  {}

  ghost function ReleasedImage(m: Image, s: nat): Image
    requires s < |m.chains|
  {
    Image(Cleared(m.table, m.chains[s]), m.data, m.chains[s := []])
  }

  lemma ReleasedNothing(m: Image, s: nat)
    requires s < |m.chains| && m.chains[s] == []
    ensures ReleasedImage(m, s) == m
  {
    ClearedNothing(m.table);
    assert m.chains[s := []] == m.chains;
  }

  lemma ClearedNothing(t: Table)
    ensures Cleared(t, []) == t
  {}

  lemma EntryInRange(sh: Shape, m: Image, s: nat)
    requires Sound(sh, m) && s < |m.chains| && m.chains[s] != []
    ensures m.chains[s][0] < |m.table|
    ensures Freed(m.table, m.chains[s][0]) == Cleared(m.table, m.chains[s])
  {
    assert SlotOk(sh, m, s) && Link(m.table, m.chains[s], 0);
    FreedChain(m.table, m.chains[s]);
  }

  /** Releasing one file's clusters leaves the others sound. */
  lemma ReleasedSound(sh: Shape, m: Image, s: nat)
    requires Sound(sh, m) && s < |m.chains|
    ensures Sound(sh, ReleasedImage(m, s)) && OthersKept(m, ReleasedImage(m, s), s)
  {
    var m' := ReleasedImage(m, s);
    assert SlotOk(sh, m, s);
    forall i: nat | i < |m.chains[s]| ensures m.chains[s][i] >= 2 { assert Link(m.table, m.chains[s], i); }
    forall a: nat ensures SlotOk(sh, m', a) {
      assert SlotOk(sh, m, a);
      if a < |m.chains| && a != s {
        forall i | 0 <= i < |m.chains[a]| ensures m.chains[a][i] !in m.chains[s] {
          assert Apart(m, a, s, m.chains[a][i]);
        }
        ClearedKeeps(m.table, m.chains[s], m.chains[a]);
      }
    }
    forall a: nat, b: nat, k: nat ensures Apart(m', a, b, k) { assert Apart(m, a, b, k); }
  }

  /** How many clusters a chain lacks that is to have one at `index`. */
  function Lack(have: nat, index: nat): nat { if index < have then 0 else index + 1 - have }

  /** How many clusters a file must have for n bytes at `at`; none for no bytes. */
  function Clusters(cb: nat, at: nat, n: nat): nat
    requires cb > 0
  {
    if n == 0 then 0 else (at + n - 1) / cb + 1
  }

  /** How many of them a chain of `have` lacks. */
  function Missed(cb: nat, have: nat, at: nat, n: nat): nat
    requires cb > 0
  {
    if n == 0 then 0 else Lack(have, (at + n - 1) / cb)
  }

  /** How many of n bytes at `at` go into `room` clusters. */
  function StoredBytes(cb: nat, room: nat, at: nat, n: nat): (r: nat)
    requires cb > 0
    ensures r <= n
  {
    if Clusters(cb, at, n) <= room then n
    else if room * cb <= at then 0
    else RoomEnds(cb, room, at, n); room * cb - at
  }

  lemma RoomEnds(cb: nat, room: nat, at: nat, n: nat)
    requires cb > 0 && Clusters(cb, at, n) > room
    ensures room * cb <= at + n
  {
    if n > 0 {
      var last := at + n - 1;
      assert last == last / cb * cb + last % cb;
      if room < last / cb { MulStep(room, last / cb, cb); }
    }
  }

  /** What `done` bytes written at `at` have taken. */
  ghost predicate Taken(cb: nat, sp: Space, now: Space, at: nat, done: nat)
    requires cb > 0
  {
    && now == Take(sp, Missed(cb, |sp.chain|, at, done))
    && (done > 0 ==> (at + done - 1) / cb < |now.chain|)
  }

  lemma SlotTakeable(sh: Shape, m: Image, s: nat)
    requires Sound(sh, m) && s < |m.chains|
    ensures Takeable(Space(m.table, m.chains[s]))
  {
    assert SlotOk(sh, m, s);
  }

  lemma TakenNext(cb: nat, sp: Space, now: Space, at: nat, done: nat)
    requires cb > 0 && Takeable(sp) && Taken(cb, sp, now, at, done)
    ensures var index := (at + done) / cb; Take(now, Lack(|now.chain|, index)) == Take(sp, Lack(|sp.chain|, index))
  {
    hide Take, Takeable, Free;
    var index, before, have := (at + done) / cb, Missed(cb, |sp.chain|, at, done), |sp.chain|;
    TakeCounts(sp, before);
    if done > 0 { DivOrder(cb, at + done - 1, at + done); }
    TakeMore(sp, before, Lack(|now.chain|, index));
  }

  lemma TakenNothing(cb: nat, sp: Space, at: nat)
    requires cb > 0
    ensures Taken(cb, sp, sp, at, 0)
  {}

  lemma TakenMore(cb: nat, sp: Space, now: Space, at: nat, done: nat, copied: nat)
    requires cb > 0 && Takeable(sp) && Taken(cb, sp, now, at, done) && copied > 0
    requires (at + done + copied - 1) / cb == (at + done) / cb
    requires var next := Take(now, Lack(|now.chain|, (at + done) / cb)); (at + done) / cb < |next.chain|
    ensures Taken(cb, sp, Take(now, Lack(|now.chain|, (at + done) / cb)), at, done + copied)
  {
    TakenNext(cb, sp, now, at, done);
  }

  /** When a write stops, all that was free is taken and what was stored ends where the chain does. */
  lemma TakenStops(cb: nat, sp: Space, now: Space, at: nat, done: nat, n: nat)
    requires cb > 0 && Takeable(sp) && Taken(cb, sp, now, at, done) && done < n
    requires var next := Take(now, Lack(|now.chain|, (at + done) / cb));
             (at + done) / cb >= |next.chain| && FreeFrom(next.table, 0) == |next.table|
    ensures var next, room := Take(now, Lack(|now.chain|, (at + done) / cb)), |sp.chain| + Free(sp.table);
            && next == Take(sp, Missed(cb, |sp.chain|, at, n))
            && Clusters(cb, at, n) > room && StoredBytes(cb, room, at, n) == done
  {
    hide Take, Takeable;
    var index, last, have := (at + done) / cb, (at + n - 1) / cb, |sp.chain|;
    var next := Take(now, Lack(|now.chain|, index));
    DivOrder(cb, at + done, at + n - 1);
    TakenNext(cb, sp, now, at, done);
    TakeCounts(sp, Lack(have, index));
    TakeMore(sp, Lack(have, index), Lack(have, last) - Lack(have, index));
    TakeNone(next, Lack(have, last) - Lack(have, index));
    NoneFree(next.table, 0);
    assert |next.chain| == have + Free(sp.table);
    StopsAtEdge(cb, |next.chain|, at, done);
    if done > 0 { TakeLonger(now, Lack(|now.chain|, index)); }
  }

  lemma TakeLonger(sp: Space, k: nat)
    ensures |Take(sp, k).chain| >= |sp.chain|
    decreases k
  {
    var c := FreeFrom(sp.table, 0);
    if k > 0 && c < |sp.table| { TakeLonger(Space(Extended(sp.table, sp.chain, c), sp.chain + [c]), k - 1); }
  }

  lemma DivOrder(cb: nat, a: nat, b: nat)
    requires cb > 0 && a <= b
    ensures a / cb <= b / cb
  {
    assert a == a / cb * cb + a % cb && b == b / cb * cb + b % cb;
    if b / cb < a / cb { MulStep(b / cb, a / cb, cb); }
  }

  lemma StopsAtEdge(cb: nat, room: nat, at: nat, done: nat)
    requires cb > 0 && (at + done) / cb >= room
    ensures at + done >= room * cb
    ensures done > 0 && (at + done - 1) / cb < room ==> at + done == room * cb
  {
    var a := at + done;
    assert a == a / cb * cb + a % cb;
    if room < a / cb { MulStep(room, a / cb, cb); }
    if done > 0 && (a - 1) / cb < room {
      assert a - 1 == (a - 1) / cb * cb + (a - 1) % cb;
      MulStep((a - 1) / cb, room, cb);
    }
  }

  lemma TakenAll(cb: nat, sp: Space, now: Space, at: nat, n: nat)
    requires cb > 0 && Takeable(sp) && Taken(cb, sp, now, at, n)
    ensures Clusters(cb, at, n) <= |sp.chain| + Free(sp.table)
    ensures StoredBytes(cb, |sp.chain| + Free(sp.table), at, n) == n
  {
    TakeCounts(sp, Missed(cb, |sp.chain|, at, n));
  }

  ghost predicate Covers(sh: Shape, chain: seq<nat>, size: nat) { size <= |chain| * sh.clusterBytes }

  /** How far a file of this size can be read. */
  ghost function Reach(sh: Shape, chain: seq<nat>, size: nat): nat {
    if Covers(sh, chain, size) then size else |chain| * sh.clusterBytes
  }

  // ----- open files

  class OpenFile {
    var first: nat
    var size: nat
    var position: nat
    const slot: nat
    const readable: bool
    const writable: bool

    constructor (first: nat, size: nat, position: nat, slot: nat, readable: bool, writable: bool)
      ensures this.first == first && this.size == size && this.position == position && this.slot == slot
      ensures this.readable == readable && this.writable == writable
    {
      this.first, this.size, this.position, this.slot := first, size, position, slot;
      this.readable, this.writable := readable, writable;
    }

    /** The handle of a slot's only opener agrees with the slot's chain. */
    ghost predicate On(v: Volume)
      reads this, v
    {
      && v.Valid() && slot in v.busy && slot < |v.dir| == |v.chains| && v.dir[slot].File? && !v.dir[slot].isDir
      && first == Head(v.chains[slot]) && size < U32 && position < U32
    }

    ghost function Bytes(v: Volume): seq<Byte>
      requires slot < |v.chains|
      reads this, v
    {
      Content(v.shape.clusterBytes, v.data, v.chains[slot], size)
    }

    /** The cluster `index` steps along the chain; 0 if the chain is shorter. */
    method ClusterAt(v: Volume, index: nat) returns (cluster: nat)
      requires On(v)
      ensures cluster == if index < |v.chains[slot]| then v.chains[slot][index] else 0
    {
      if first == 0 {
        HeadZero(v.shape, v.Img(), slot);
        return 0;
      }
      ghost var chain := v.chains[slot];
      ChainLinks(v.shape, v.Img(), slot, 0);
      cluster := first;
      var i := 0;
      while i < index
        invariant 0 <= i <= index && i < |chain| && cluster == chain[i]
      {
        ChainLinks(v.shape, v.Img(), slot, i);
        var st, next := v.FatEntry(cluster);
        if IsEoc(next) { return 0; }
        cluster := next;
        i := i + 1;
      }
    }

    /** Takes the lowest free cluster and links it behind the last one; `last` is 0 for an empty chain. */
    method AppendCluster(v: Volume, last: nat) returns (status: Status, c: nat)
      requires On(v) && last == (if v.chains[slot] == [] then 0 else v.chains[slot][|v.chains[slot]| - 1])
      modifies `first, v`fats, v`data, v`chains
      ensures On(v) && c == FreeFrom(old(v.fats[0]), 0) && status == (if c < |old(v.fats[0])| then Ok else NoMemory)
      ensures status != Ok ==> v.fats == old(v.fats) && v.data == old(v.data) && v.chains == old(v.chains)
      ensures status == Ok ==> c < |old(v.data)| && v.Img() == Grown(v.shape, old(v.Img()), slot, c)
      ensures v.SpaceOf(slot) == Take(old(v.SpaceOf(slot)), 1)
      ensures Shows(v.shape, old(v.Img()), v.Img(), slot, 0, []) && OthersKept(old(v.Img()), v.Img(), slot)
    {
      hide Sound, Shows, OthersKept, Tidy, Covers;
      ghost var m, chain := v.Img(), v.chains[slot];
      SoundFacts(v.shape, m);
      ShowsSelf(v.shape, m, slot);
      HeadZero(v.shape, m, slot);
      if chain != [] { ChainLinks(v.shape, m, slot, |chain| - 1); }
      status, c := v.AllocateCluster();
      if status != Ok { return; }
      GrownSound(v.shape, m, slot, c);
      GrownShows(v.shape, m, slot, c);
      if last == 0 {
        first := c;
      } else {
        var st := v.SetFatEntry(last, c);
      }
      v.chains := v.chains[slot := chain + [c]];
      assert v.Img() == Grown(v.shape, m, slot, c);
    }

    /** As `ClusterAt`, with clusters appended, the lowest free ones and zeroed, exactly as many as are
        needed and to be had. */
    method GrowTo(v: Volume, index: nat) returns (status: Status, cluster: nat)
      requires On(v)
      modifies `first, v`fats, v`data, v`chains
      ensures On(v) && status == (if index < |v.chains[slot]| then Ok else NoMemory)
      ensures v.SpaceOf(slot) == Take(old(v.SpaceOf(slot)), Lack(|old(v.chains[slot])|, index))
      ensures Shows(v.shape, old(v.Img()), v.Img(), slot, 0, []) && OthersKept(old(v.Img()), v.Img(), slot)
      ensures status == Ok ==> cluster == v.chains[slot][index]
      ensures status != Ok ==> FreeFrom(v.fats[0], 0) == |v.fats[0]|
    {
      hide Sound, Shows, OthersKept, Tidy, Covers;
      ghost var m, sp := v.Img(), v.SpaceOf(slot);
      ShowsSelf(v.shape, m, slot);
      FirstIsHead(this, v);
      if first == 0 {
        status, cluster := AppendCluster(v, 0);
        if status != Ok {
          TakeMore(sp, 1, index);
          TakeNone(v.SpaceOf(slot), index);
          return;
        }
      }
      FirstIsHead(this, v);
      cluster := first;
      status := Ok;
      var i := 0;
      while i < index
        invariant On(v) && 0 <= i <= index && i < |v.chains[slot]| && cluster == v.chains[slot][i] && status == Ok
        invariant v.SpaceOf(slot) == Take(sp, Lack(|sp.chain|, i))
        invariant i < |sp.chain| || i + 1 == |v.chains[slot]|
        invariant Shows(v.shape, m, v.Img(), slot, 0, []) && OthersKept(m, v.Img(), slot)
      {
        status, cluster := NextCluster(v, cluster, i, m, sp);
        if status != Ok {
          TakeMore(sp, Lack(|sp.chain|, i), index - i);
          TakeNone(v.SpaceOf(slot), index - i);
          return;
        }
        i := i + 1;
      }
    }

    method NextCluster(v: Volume, cluster: nat, i: nat, ghost m: Image, ghost sp: Space)
      returns (status: Status, next: nat)
      requires On(v) && i < |v.chains[slot]| && cluster == v.chains[slot][i]
      requires v.SpaceOf(slot) == Take(sp, Lack(|sp.chain|, i)) && (i < |sp.chain| || i + 1 == |v.chains[slot]|)
      requires Shows(v.shape, m, v.Img(), slot, 0, []) && OthersKept(m, v.Img(), slot)
      modifies `first, v`fats, v`data, v`chains
      ensures On(v) && Shows(v.shape, m, v.Img(), slot, 0, []) && OthersKept(m, v.Img(), slot)
      ensures status == Ok || (status == NoMemory && FreeFrom(v.fats[0], 0) == |v.fats[0]|)
      ensures status == Ok ==>
                && i + 1 < |v.chains[slot]| && next == v.chains[slot][i + 1]
                && v.SpaceOf(slot) == Take(sp, Lack(|sp.chain|, i + 1))
                && (i + 1 < |sp.chain| || i + 2 == |v.chains[slot]|)
      ensures status != Ok ==>
                && v.SpaceOf(slot) == Take(sp, Lack(|sp.chain|, i)) && i + 1 == |v.chains[slot]| && i + 1 >= |sp.chain|
    {
      hide Sound, Shows, OthersKept, Tidy, Covers;
      ChainLinks(v.shape, v.Img(), slot, i);
      status, next := v.FatEntry(cluster);
      if IsEoc(next) {
        ghost var k := v.Img();
        status, next := AppendCluster(v, cluster);
        ShowsNothingThen(v.shape, m, k, v.Img(), slot, 0, []);
        OthersTrans(m, k, v.Img(), slot);
        TakeMore(sp, Lack(|sp.chain|, i), 1);
      }
    }

    /** One round of the write loop: up to the end of a sector. */
    method WriteSector(v: Volume, buffer: seq<Byte>, done: nat) returns (status: Status, copied: nat)
      requires On(v) && done < |buffer| && position + |buffer| < U32
      modifies `first, v`fats, v`data, v`chains
      ensures On(v) && OthersKept(old(v.Img()), v.Img(), slot) && done + copied <= |buffer|
      ensures Shows(v.shape, old(v.Img()), v.Img(), slot, position + done, buffer[done..done + copied])
      ensures v.shape.clusterBytes > 0
      ensures var index := (position + done) / v.shape.clusterBytes;
              && v.SpaceOf(slot) == Take(old(v.SpaceOf(slot)), Lack(|old(v.chains[slot])|, index))
              && status == (if index < |v.chains[slot]| then Ok else NoMemory)
              && (status == Ok ==> copied > 0 && (position + done + copied - 1) / v.shape.clusterBytes == index)
              && (status != Ok ==> copied == 0 && FreeFrom(v.fats[0], 0) == |v.fats[0]|)
    {
      hide Sound, Shows, OthersKept, Tidy, Covers, Take;
      ghost var m := v.Img();
      SoundFacts(v.shape, m);
      var cb := v.shape.clusterBytes;
      var absolute := position + done;
      var index, offset := absolute / cb, absolute % cb;
      var cluster;
      copied := 0;
      status, cluster := GrowTo(v, index);
      ghost var k := v.Img();
      SoundFacts(v.shape, k);
      EmptyShows(v.shape, m, k, slot, absolute);
      assert buffer[done..done + 0] == [];
      if status != Ok { return; }
      copied := if |buffer| - done < SECTOR - offset % SECTOR then |buffer| - done else SECTOR - offset % SECTOR;
      SectorRoom(cb, offset, copied);
      NextByte(cb, absolute, copied - 1);
      var chunk := buffer[done..done + copied];
      StoreChunk(v, cluster, index, offset, chunk);
      assert absolute == index * cb + offset;
      ShowsNothingThen(v.shape, m, k, v.Img(), slot, absolute, chunk);
      OthersTrans(m, k, v.Img(), slot);
    }

    method StoreChunk(v: Volume, cluster: nat, index: nat, offset: nat, chunk: seq<Byte>)
      requires On(v) && index < |v.chains[slot]| && cluster == v.chains[slot][index]
      requires offset + |chunk| <= v.shape.clusterBytes
      modifies v`data
      ensures On(v) && OthersKept(old(v.Img()), v.Img(), slot)
      ensures Shows(v.shape, old(v.Img()), v.Img(), slot, index * v.shape.clusterBytes + offset, chunk)
    {
      hide Shows, OthersKept, Tidy;
      ghost var k := v.Img();
      StoredSound(v.shape, k, slot, index, offset, chunk);
      StoredShows(v.shape, k, slot, index, offset, chunk);
      v.data := v.data[cluster := Overwrite(v.data[cluster], offset, chunk)];
      assert v.Img() == Stored(k, cluster, offset, chunk);
    }

    /** Writes at the position, filling a gap before it with zeros.  It succeeds exactly when the free
        clusters suffice for what the chain lacks; otherwise the part that fits is stored, but position
        and size stay.  A write of nothing still moves the end up to the position, without giving the
        gap clusters.  The 32-bit position must not wrap. */
    method Write(v: Volume, buffer: seq<Byte>) returns (status: Status, done: nat)
      requires On(v) && position + |buffer| < U32
      modifies this`first, this`size, this`position, v`fats, v`data, v`chains
      ensures On(v) && OthersKept(old(v.Img()), v.Img(), slot) && v.shape.clusterBytes > 0
      ensures var cb, n, room := v.shape.clusterBytes, |buffer|, |old(v.chains[slot])| + Free(old(v.fats[0]));
              && status == (if !writable then InvalidArgument
                            else if Clusters(cb, old(position), n) <= room then Ok else NoMemory)
              && v.SpaceOf(slot) == (if !writable then old(v.SpaceOf(slot))
                                     else Take(old(v.SpaceOf(slot)), Missed(cb, |old(v.chains[slot])|, old(position),
                                         n)))
              && Shows(v.shape, old(v.Img()), v.Img(), slot, old(position),
                       buffer[..if writable then StoredBytes(cb, room, old(position), n) else 0])
      ensures status == Ok ==> done == |buffer| && position == old(position) + |buffer|
                               && size == (if position > old(size) then position else old(size))
      ensures status != Ok ==> done == 0 && position == old(position) && size == old(size)
      ensures !writable ==> v.Img() == old(v.Img())
    {
      hide Sound, Shows, OthersKept, Tidy, Covers, Take, Missed, Clusters, StoredBytes, Free, Lack;
      FirstIsHead(this, v);
      ghost var m, sp := v.Img(), v.SpaceOf(slot);
      SoundFacts(v.shape, m);
      ShowsSelf(v.shape, m, slot);
      EmptyShows(v.shape, m, m, slot, position);
      SlotTakeable(v.shape, m, slot);
      assert buffer[..0] == [];
      done := 0;
      if !writable { return InvalidArgument, 0; }
      var at := 0;
      TakenNothing(v.shape.clusterBytes, sp, position);
      while at < |buffer|
        invariant 0 <= at <= |buffer| && position == old(position) && size == old(size)
        invariant On(v) && OthersKept(m, v.Img(), slot)
        invariant Shows(v.shape, m, v.Img(), slot, position, buffer[..at])
        invariant Taken(v.shape.clusterBytes, sp, v.SpaceOf(slot), position, at)
      {
        ghost var k, now := v.Img(), v.SpaceOf(slot);
        var copied;
        status, copied := WriteSector(v, buffer, at);
        ShowsThen(v.shape, m, k, v.Img(), slot, position, buffer[..at], buffer[at..at + copied]);
        OthersTrans(m, k, v.Img(), slot);
        assert buffer[..at] + buffer[at..at + copied] == buffer[..at + copied];
        if status != Ok {
          TakenStops(v.shape.clusterBytes, sp, now, position, at, |buffer|);
          return NoMemory, 0;
        }
        TakenMore(v.shape.clusterBytes, sp, now, position, at, copied);
        at := at + copied;
      }
      assert buffer[..at] == buffer;
      TakenAll(v.shape.clusterBytes, sp, v.SpaceOf(slot), position, at);
      position := position + at;
      if position > size {
        size := position;
      }
      status, done := Ok, at;
    }

    /** Reads from the position up to the end, or to where the chain ends. */
    method Read(v: Volume, count: nat) returns (status: Status, buffer: seq<Byte>)
      requires On(v)
      modifies this`position
      ensures On(v) && position == old(position) + |buffer|
      ensures if readable then status == Ok &&
              buffer == Slice(Bytes(v)[..Reach(v.shape, v.chains[slot], size)], old(position), count)
              else status == InvalidArgument && buffer == []
    {
      hide Sound, Content, Slice, Volume.Valid, Reach, Covers;
      buffer := [];
      if !readable { return InvalidArgument, []; }
      var remaining := if position < size then size - position else 0;
      if remaining > count { remaining := count; }
      ghost var reach := Reach(v.shape, v.chains[slot], size);
      ReachWithin(v.shape, v.chains[slot], size);
      ghost var c := Bytes(v)[..reach];
      SliceMore(c, position, 0, 0);
      var done := 0;
      while done < remaining
        invariant 0 <= done <= remaining && position == old(position) && |buffer| == done
        invariant done > 0 ==> position + done <= reach
        invariant buffer == Slice(c, position, done)
      {
        var piece := ReadSector(v, position + done, remaining - done);
        if piece == [] {
          SliceAll(c, position, count, done);
          position := position + done;
          return Ok, buffer;
        }
        ReadMore(Bytes(v), reach, position, done, piece);
        buffer := buffer + piece;
        done := done + |piece|;
      }
      SliceAll(c, position, count, done);
      position := position + done;
      status := Ok;
    }

    /** Up to the end of a sector; nothing where the chain has ended. */
    method ReadSector(v: Volume, absolute: nat, left: nat) returns (piece: seq<Byte>)
      requires On(v) && 0 < left && absolute + left <= size
      ensures |piece| <= left && absolute + |piece| <= size && piece == Bytes(v)[absolute..absolute + |piece|]
      ensures piece == [] <==> Reach(v.shape, v.chains[slot], size) <= absolute
      ensures piece != [] ==> absolute + |piece| <= Reach(v.shape, v.chains[slot], size)
    {
      hide Sound, Tidy, Volume.Valid, Reach, Covers;
      WholeFacts(v);
      var cb := v.shape.clusterBytes;
      var index, offset := absolute / cb, absolute % cb;
      ReachBounds(v.shape, v.chains[slot], size, absolute);
      ChainLinks(v.shape, v.Img(), slot, index);
      var cluster := ClusterAt(v, index);
      if cluster == 0 { return []; }
      var copied := if left < SECTOR - offset % SECTOR then left else SECTOR - offset % SECTOR;
      SectorRoom(cb, offset, copied);
      IndexCovers(v.shape, v.chains[slot], index, offset, absolute, copied);
      CoversReach(v.shape, v.chains[slot], size, absolute + copied);
      piece := v.data[cluster][offset..offset + copied];
      forall k | 0 <= k < copied ensures piece[k] == ByteAt(cb, v.data, v.chains[slot], absolute + k) {
        NextByte(cb, absolute, k);
      }
    }

    /** The position is kept in 32 bits. */
    method Seek(offset: int, origin: Origin) returns (status: Status)
      modifies this`position
      ensures var next := offset + (match origin case SeekSet => 0 case SeekCur => old(position) case SeekEnd => size);
              if next < 0 then status == InvalidArgument && position == old(position)
              else status == Ok && position == next % U32 && (position == next <==> next < U32)
    {
      var base := 0;
      if origin == SeekCur { base := position; }
      if origin == SeekEnd { base := size; }
      var next := base + offset;
      if next < 0 { return InvalidArgument; }
      position := next % U32;
      status := Ok;
    }

    /** The directory entry takes over size and first cluster: what was written stays. */
    method Close(v: Volume)
      requires On(v)
      modifies v`dir, v`busy, v`handles
      ensures v.Valid() && v.busy == old(v.busy) - {slot}
      ensures v.dir == old(v.dir)[slot := old(v.dir[slot]).(size := size, first := first)]
      ensures v.FileBytes(slot) == old(Bytes(v)) && v.dir[slot].size == size
    {
      v.dir := v.dir[slot := v.dir[slot].(size := size, first := first)];
      v.handles := v.handles - 1;
      v.busy := v.busy - {slot};
    }
  }

  lemma FirstIsHead(f: OpenFile, v: Volume)
    requires f.On(v)
    ensures f.first == 0 <==> v.chains[f.slot] == []
    ensures v.chains[f.slot] != [] ==> f.first == v.chains[f.slot][0]
    ensures Sound(v.shape, v.Img())
  {
    HeadZero(v.shape, v.Img(), f.slot);
  }

  lemma WholeFacts(v: Volume)
    requires v.Valid()
    ensures |v.fats| > 0 && Sound(v.shape, v.Img()) && |v.data| == |v.fats[0]| && v.shape.clusterBytes > 0
    ensures v.shape.clusterBytes % SECTOR == 0
    ensures forall c :: 0 <= c < |v.data| ==> |v.data[c]| == v.shape.clusterBytes
  {}

  lemma ReachBounds(sh: Shape, chain: seq<nat>, size: nat, absolute: nat)
    requires sh.clusterBytes > 0
    ensures Reach(sh, chain, size) <= size
    ensures absolute < size ==> (Reach(sh, chain, size) <= absolute <==> absolute / sh.clusterBytes >= |chain|)
  {
    var cb := sh.clusterBytes;
    var k := absolute / cb;
    InCluster(cb, k, absolute);
    if k < |chain| { MulStep(k, |chain|, cb); }
    if k > |chain| { MulStep(|chain|, k, cb); }
  }

  lemma ReachWithin(sh: Shape, chain: seq<nat>, size: nat)
    ensures Reach(sh, chain, size) <= size
  {}

  lemma CoversReach(sh: Shape, chain: seq<nat>, size: nat, x: nat)
    requires Covers(sh, chain, x) && x <= size
    ensures x <= Reach(sh, chain, size)
  {}

  lemma SliceMore(c: seq<Byte>, offset: nat, done: nat, more: nat)
    requires (done == 0 && more == 0) || offset + done + more <= |c|
    ensures offset + done + more <= |c| ==>
            Slice(c, offset, done) + c[offset + done..offset + done + more] ==
            Slice(c, offset, done + more)
    ensures done == 0 ==> Slice(c, offset, done) == []
  {}

  lemma ReadMore(b: seq<Byte>, reach: nat, offset: nat, done: nat, piece: seq<Byte>)
    requires reach <= |b| && offset + done + |piece| <= reach && piece == b[offset + done..offset + done + |piece|]
    ensures Slice(b[..reach], offset, done) + piece == Slice(b[..reach], offset, done + |piece|)
  {
    SliceMore(b[..reach], offset, done, |piece|);
    assert b[..reach][offset + done..offset + done + |piece|] == piece;
  }

  /** A reader that has stopped has everything there is. */
  lemma SliceAll(c: seq<Byte>, offset: nat, count: nat, done: nat)
    requires done <= count && (done == count || |c| <= offset + done) && (done == 0 || offset + done <= |c|)
    ensures Slice(c, offset, done) == Slice(c, offset, count)
  {}

  lemma NextByte(cb: nat, absolute: nat, k: nat)
    requires cb > 0 && absolute % cb + k < cb
    ensures (absolute + k) / cb == absolute / cb && (absolute + k) % cb == absolute % cb + k
  {
    InCluster(cb, absolute / cb, absolute);
    InCluster(cb, absolute / cb, absolute + k);
  }

  lemma EmptyShows(sh: Shape, m: Image, k: Image, s: nat, offset: nat)
    requires Shows(sh, m, k, s, 0, [])
    ensures Shows(sh, m, k, s, offset, [])
  {
    forall i: nat ensures ByteAt(sh.clusterBytes, k.data, k.chains[s], i) ==
      ByteAt(sh.clusterBytes, m.data, m.chains[s], i) {}
  }

  lemma SectorRoom(cb: nat, offset: nat, copied: nat)
    requires cb % SECTOR == 0 && offset < cb && copied <= SECTOR - offset % SECTOR
    ensures offset + copied <= cb
  {}

  lemma IndexCovers(sh: Shape, chain: seq<nat>, index: nat, offset: nat, absolute: nat, copied: nat)
    requires sh.clusterBytes > 0 && index < |chain| && offset + copied <= sh.clusterBytes
    requires index == absolute / sh.clusterBytes && offset == absolute % sh.clusterBytes
    ensures Covers(sh, chain, absolute + copied) && absolute == index * sh.clusterBytes + offset
  {
    MulStep(index, |chain|, sh.clusterBytes);
    if index + 1 < |chain| { MulStep(index + 1, |chain|, sh.clusterBytes); }
  }

  lemma ShowsSelf(sh: Shape, m: Image, s: nat)
    requires s < |m.chains|
    ensures Shows(sh, m, m, s, 0, []) && OthersKept(m, m, s)
  {}

  lemma SoundFacts(sh: Shape, m: Image)
    requires Sound(sh, m)
    ensures |m.table| >= 2 && m.table[0] != 0 && m.table[1] != 0 && |m.data| == |m.table| <= EOC && InRange(m.table)
    ensures sh.clusterBytes > 0 && sh.clusterBytes % SECTOR == 0
    ensures forall c :: 0 <= c < |m.data| ==> |m.data[c]| == sh.clusterBytes
  {}

  lemma HeadZero(sh: Shape, m: Image, s: nat)
    requires Sound(sh, m) && s < |m.chains|
    ensures Head(m.chains[s]) == 0 <==> m.chains[s] == []
  {
    assert SlotOk(sh, m, s) && Link(m.table, m.chains[s], 0);
  }

  /** What the table says about a cluster of a chain. */
  lemma ChainLinks(sh: Shape, m: Image, s: nat, i: nat)
    requires Sound(sh, m) && s < |m.chains|
    ensures i < |m.chains[s]| ==>
              && Cluster(m.table, m.chains[s][i])
              && (IsEoc(m.table[m.chains[s][i]]) <==> i + 1 == |m.chains[s]|)
              && (i + 1 < |m.chains[s]| ==> m.table[m.chains[s][i]] == m.chains[s][i + 1])
  {
    assert SlotOk(sh, m, s) && Link(m.table, m.chains[s], i) && Link(m.table, m.chains[s], i + 1);
  }
}
