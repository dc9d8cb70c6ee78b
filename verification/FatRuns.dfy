/** Whole runs over a FAT32 volume: opening, reading, writing, seeking and closing any number of files
    by name act as on a table of byte strings with one number of free clusters.  The table decides
    every answer, failures included. */
module FatRuns {
  import opened Arithmetic
  import opened Bytes
  import opened FatTable
  import opened FatVolume
  import opened FatDriver

  // ----- the table of files

  /** The bytes of a file's clusters, and its size. */
  datatype Contents = Contents(bytes: seq<Byte>, size: nat)

  datatype Held = Held(name: Name, file: Contents, position: nat, readable: bool, writable: bool)

  /** The closed files, the folders, the open files in the order of opening, and what is left of
      clusters and directory entries. */
  datatype World = World(cb: nat, files: map<Name, Contents>, folders: set<Name>, held: seq<Held>, free: nat,
    spare: nat)

  datatype Op =
    | Opens(name: Name, create: bool, truncate: bool, append: bool, readable: bool, writable: bool)
    | Reads(i: nat, count: nat)
    | Writes(i: nat, data: seq<Byte>)
    | Seeks(i: nat, offset: int, origin: Origin)
    | Closes(i: nat)

  datatype Answer = Opened | Got(bytes: seq<Byte>) | Wrote(count: nat) | Done | Failed(status: Status)

  /** A file is opened once at a time, and 32-bit positions do not wrap in a write. */
  predicate Possible(w: World, op: Op) {
    match op
    case Opens(name, _, _, _, _, _) => forall i :: 0 <= i < |w.held| ==> w.held[i].name != name
    case Reads(i, _) => i < |w.held|
    case Writes(i, data) => i < |w.held| && w.held[i].position + |data| < U32
    case Seeks(i, _, _) => i < |w.held|
    case Closes(i) => i < |w.held|
  }

  /** What a reader can reach. */
  function Readable(c: Contents): seq<Byte> { if c.size <= |c.bytes| then c.bytes[..c.size] else c.bytes }

  /** `part` laid over `bytes` at `at`, in `n` bytes; the rest is zero. */
  function Laid(bytes: seq<Byte>, n: nat, at: nat, part: seq<Byte>): (r: seq<Byte>)
    ensures |r| == n
  {
    seq(n, k requires 0 <= k < n =>
      if at <= k < at + |part| then part[k - at] else if k < |bytes| then bytes[k] else 0)
  }

  const NOTHING := Contents([], 0)

  function OpenStep(w: World, name: Name, create: bool, truncate: bool, append: bool, readable: bool, writable: bool):
    (World, Answer)
    requires w.cb > 0
  {
    var was := if name in w.files then w.files[name] else NOTHING;
    var now := if truncate && writable then NOTHING else was;
    if name in w.folders then (w, Failed(InvalidArgument))
    else if name !in w.files && (!create || w.spare == 0) then (w, Failed(NotFound))
    else
      var next := w.(free := w.free + |was.bytes| / w.cb - |now.bytes| / w.cb,
                     spare := if name in w.files then w.spare else w.spare - 1);
      if |w.held| >= MAX_OPEN then (next.(files := w.files[name := now]), Failed(NoMemory))
      else
        var h := Held(name, now, if append then now.size else 0, readable, writable);
        (next.(files := w.files - {name}, held := w.held + [h]), Opened)
  }

  /** How many clusters a file of `have` gets to that needs `need`. */
  function Granted(have: nat, free: nat, need: nat): (n: nat)
    ensures have <= n <= have + free
  {
    if need <= have then have else if need <= have + free then need else have + free
  }

  function WriteStep(w: World, i: nat, data: seq<Byte>): (r: (World, Answer))
    requires w.cb > 0 && i < |w.held|
    ensures |r.0.held| == |w.held|
  {
    var h := w.held[i];
    var c, at, have := h.file, h.position, |h.file.bytes| / w.cb;
    var need, room := Clusters(w.cb, at, |data|), have + w.free;
    var now := Granted(have, w.free, need);
    var end := if need <= room then at + |data| else at;
    var file := Contents(Laid(c.bytes, now * w.cb, at, data[..StoredBytes(w.cb, room, at, |data|)]),
                         if need <= room && end > c.size then end else c.size);
    if !h.writable then (w, Failed(InvalidArgument))
    else (w.(held := w.held[i := h.(file := file, position := end)], free := w.free - (now - have)),
          if need <= room then Wrote(|data|) else Failed(NoMemory))
  }

  function ReadStep(w: World, i: nat, count: nat): (World, Answer)
    requires i < |w.held|
  {
    var h := w.held[i];
    var got := Slice(Readable(h.file), h.position, count);
    if !h.readable then (w, Failed(InvalidArgument))
    else (w.(held := w.held[i := h.(position := h.position + |got|)]), Got(got))
  }

  function SeekStep(w: World, i: nat, offset: int, origin: Origin): (World, Answer)
    requires i < |w.held|
  {
    var h := w.held[i];
    var next := offset + (match origin case SeekSet => 0 case SeekCur => h.position case SeekEnd => h.file.size);
    if next < 0 then (w, Failed(InvalidArgument)) else (w.(held := w.held[i := h.(position := next % U32)]), Done)
  }

  function CloseStep(w: World, i: nat): (World, Answer)
    requires i < |w.held|
  {
    (w.(files := w.files[w.held[i].name := w.held[i].file], held := w.held[..i] + w.held[i + 1..]), Done)
  }

  function Step(w: World, op: Op): (r: (World, Answer))
    requires w.cb > 0 && Possible(w, op)
    ensures r.0.cb == w.cb
  {
    match op
    case Opens(name, create, truncate, append, readable, writable) =>
      OpenStep(w, name, create, truncate, append, readable, writable)
    case Reads(i, count) => ReadStep(w, i, count)
    case Writes(i, data) => WriteStep(w, i, data)
    case Seeks(i, offset, origin) => SeekStep(w, i, offset, origin)
    case Closes(i) => CloseStep(w, i)
  }

  // ----- what a volume shows

  /** The volume as values. */
  datatype Disk = Disk(sh: Shape, dir: seq<Slot>, m: Image, busy: set<nat>)

  datatype Mark = Mark(slot: nat, size: nat, position: nat, readable: bool, writable: bool)

  ghost function DiskOf(v: Volume): Disk
    requires |v.fats| > 0
    reads v
  {
    Disk(v.shape, v.dir, v.Img(), v.busy)
  }

  ghost function MarkOf(f: OpenFile): Mark
    reads f
  {
    Mark(f.slot, f.size, f.position, f.readable, f.writable)
  }

  ghost function Marks(fs: seq<OpenFile>): seq<Mark>
    reads fs
  {
    seq(|fs|, i requires 0 <= i < |fs| reads fs => MarkOf(fs[i]))
  }

  function StoreOf(cb: nat, data: seq<seq<Byte>>, chain: seq<nat>): (r: seq<Byte>)
    ensures |r| == |chain| * cb
  {
    seq(|chain| * cb, i requires 0 <= i => ByteAt(cb, data, chain, i))
  }

  function View(d: Disk, s: nat, size: nat): Contents
    requires s < |d.m.chains|
  {
    Contents(StoreOf(d.sh.clusterBytes, d.m.data, d.m.chains[s]), size)
  }

  /** How many directory entries can be given to a new file. */
  function Spare(dir: seq<Slot>, i: nat): nat
    requires i <= |dir|
    decreases |dir| - i
  {
    if i == |dir| then 0 else Spare(dir, i + 1) + if dir[i] == End || dir[i] == Deleted then 1 else 0
  }

  ghost predicate NameOk(w: World, d: Disk, n: Name) {
    var r := Lookup(d.dir, n);
    && (n in w.folders <==> r.Found? && d.dir[r.slot].isDir)
    && (n in w.files <==> r.Found? && !d.dir[r.slot].isDir && r.slot !in d.busy)
    && (n in w.files ==> r.slot < |d.m.chains| && w.files[n] == View(d, r.slot, d.dir[r.slot].size))
  }

  ghost predicate HeldOk(h: Held, d: Disk, f: Mark) {
    && f.slot < |d.m.chains| && f.slot in d.busy && Lookup(d.dir, h.name) == Found(f.slot)
    && !d.dir[f.slot].isDir && h == Held(h.name, View(d, f.slot, f.size), f.position, f.readable, f.writable)
  }

  ghost predicate AllHeld(w: World, d: Disk, fs: seq<Mark>) {
    && |fs| == |w.held| == |d.busy|
    && (forall i :: 0 <= i < |fs| ==> HeldOk(w.held[i], d, fs[i]))
    && (forall i, j :: 0 <= i < j < |fs| ==> fs[i].slot != fs[j].slot)
    && (forall s :: s in d.busy ==> exists i :: 0 <= i < |fs| && fs[i].slot == s)
  }

  /** The table of files is what volume and handles show. */
  ghost predicate Matches(w: World, d: Disk, fs: seq<Mark>) {
    && w.cb == d.sh.clusterBytes > 0 && w.free == Free(d.m.table) && w.spare == Spare(d.dir, 0)
    && |d.m.chains| == |d.dir| && (forall n: Name :: NameOk(w, d, n)) && AllHeld(w, d, fs)
  }

  ghost predicate AllOn(v: Volume, fs: seq<OpenFile>)
    reads v, fs
  {
    && (forall i :: 0 <= i < |fs| ==> fs[i].On(v)) && (forall i, j :: 0 <= i < j < |fs| ==> fs[i] != fs[j])
  }

  ghost predicate Represents(w: World, v: Volume, fs: seq<OpenFile>)
    reads v, fs
  {
    v.Valid() && AllOn(v, fs) && Matches(w, DiskOf(v), Marks(fs))
  }

  // ----- how single slots change

  lemma StoreKept(sh: Shape, m: Image, m': Image, s: nat, a: nat)
    requires OthersKept(m, m', s) && a < |m.chains| && a != s
    ensures StoreOf(sh.clusterBytes, m'.data, m'.chains[a]) == StoreOf(sh.clusterBytes, m.data, m.chains[a])
  {
    var cb := sh.clusterBytes;
    forall k | 0 <= k < |m.chains[a]| * cb
      ensures ByteAt(cb, m'.data, m.chains[a], k) == ByteAt(cb, m.data, m.chains[a], k) {
      if cb > 0 && k / cb < |m.chains[a]| { assert m.chains[a][k / cb] in m.chains[a]; }
    }
  }

  lemma BeyondChain(cb: nat, data: seq<seq<Byte>>, chain: seq<nat>, k: nat)
    requires k >= |chain| * cb
    ensures ByteAt(cb, data, chain, k) == 0
  {
    if cb > 0 {
      DivUnique(|chain|, 0, cb);
      DivOrder(cb, |chain| * cb, k);
    }
  }

  lemma StoreShows(sh: Shape, m: Image, m': Image, s: nat, at: nat, part: seq<Byte>)
    requires s < |m.chains| && s < |m'.chains| && Shows(sh, m, m', s, at, part)
    ensures StoreOf(sh.clusterBytes, m'.data, m'.chains[s]) ==
            Laid(StoreOf(sh.clusterBytes, m.data, m.chains[s]), |m'.chains[s]| * sh.clusterBytes, at, part)
  {
    var cb := sh.clusterBytes;
    var was, now := StoreOf(cb, m.data, m.chains[s]), StoreOf(cb, m'.data, m'.chains[s]);
    forall k: nat | k < |now| ensures now[k] == Laid(was, |now|, at, part)[k] {
      assert ByteAt(cb, m'.data, m'.chains[s], k) ==
             if at <= k < at + |part| then part[k - at] else ByteAt(cb, m.data, m.chains[s], k);
      if k >= |was| { BeyondChain(cb, m.data, m.chains[s], k); }
    }
  }

  lemma ClustersOf(cb: nat, chain: seq<nat>)
    requires cb > 0
    ensures |chain| * cb / cb == |chain|
  {
    DivUnique(|chain|, 0, cb);
  }

  lemma {:induction false} ClearedFree(t: Table, chain: seq<nat>)
    requires Chained(t, chain)
    ensures Free(Cleared(t, chain)) == Free(t) + |chain|
    decreases |chain|
  {
    if chain == [] {
      ClearedNothing(t);
    } else {
      assert Link(t, chain, 0) && Link(t, chain, 1);
      var t' := t[chain[0] := 0];
      forall i: nat ensures Link(t', chain[1..], i) { assert Link(t, chain, i + 1) && Link(t, chain, i + 2); }
      ClearOne(t, chain[0], 0);
      ClearedFree(t', chain[1..]);
      assert chain == [chain[0]] + chain[1..];
      assert Cleared(t', chain[1..]) == Cleared(t, chain);
    }
  }

  lemma {:induction false} SpareMeans(dir: seq<Slot>, name: Name, i: nat, free: nat)
    requires i <= |dir| && (free < i || free == |dir|) && Find(dir, name, i, free).Missing?
    ensures Find(dir, name, i, free).free == |dir| <==> free == |dir| && Spare(dir, i) == 0
    decreases |dir| - i
  {
    if i < |dir| && dir[i] != End {
      SpareMeans(dir, name, i + 1, if dir[i] == Deleted && free == |dir| then i else free);
    }
  }

  lemma {:induction false} SpareUsed(dir: seq<Slot>, f: nat, entry: Slot, i: nat)
    requires i <= |dir| && f < |dir| && entry.File?
    ensures Spare(dir[f := entry], i) ==
            Spare(dir, i) - if i <= f && (dir[f] == End || dir[f] == Deleted) then 1 else 0
    decreases |dir| - i
  {
    if i < |dir| { SpareUsed(dir, f, entry, i + 1); }
  }

  // ----- how operations keep the match

  lemma MoveMatches(w: World, d: Disk, fs: seq<Mark>, i: nat, position: nat)
    requires Matches(w, d, fs) && i < |fs|
    ensures Matches(w.(held := w.held[i := w.held[i].(position := position)]), d, fs[i := fs[i].(position := position)])
  {
    hide View, Lookup;
    var w', fs' := w.(held := w.held[i := w.held[i].(position := position)]), fs[i := fs[i].(position := position)];
    forall n: Name ensures NameOk(w', d, n) { assert NameOk(w, d, n); }
    forall j | 0 <= j < |fs'| ensures HeldOk(w'.held[j], d, fs'[j]) { assert HeldOk(w.held[j], d, fs[j]); }
    forall s | s in d.busy ensures exists j :: 0 <= j < |fs'| && fs'[j].slot == s {
      var j :| 0 <= j < |fs| && fs[j].slot == s;
      assert fs'[j].slot == s;
    }
  }

  /** A write through handle i, as the driver describes it. */
  ghost predicate Writing(d: Disk, f: Mark, data: seq<Byte>, m': Image, f': Mark)
    requires d.sh.clusterBytes > 0 && f.slot < |d.m.chains|
  {
    var cb, have, n := d.sh.clusterBytes, |d.m.chains[f.slot]|, |data|;
    var room := have + Free(d.m.table);
    var ok := Clusters(cb, f.position, n) <= room;
    && f.slot < |m'.chains| && OthersKept(d.m, m', f.slot)
    && Space(m'.table, m'.chains[f.slot]) == Take(Space(d.m.table, d.m.chains[f.slot]), Missed(cb, have, f.position, n))
    && Shows(d.sh, d.m, m', f.slot, f.position, data[..StoredBytes(cb, room, f.position, n)])
    && f' == f.(position := if ok then f.position + n else f.position,
                size := if ok && f.position + n > f.size then f.position + n else f.size)
  }

  /** What the write leaves of its own file and of the free clusters. */
  lemma WritingLeaves(d: Disk, f: Mark, data: seq<Byte>, m': Image, f': Mark)
    requires d.sh.clusterBytes > 0 && f.slot < |d.m.chains| && Writing(d, f, data, m', f')
    requires Takeable(Space(d.m.table, d.m.chains[f.slot]))
    ensures var cb, have := d.sh.clusterBytes, |d.m.chains[f.slot]|;
            var need, room := Clusters(cb, f.position, |data|), have + Free(d.m.table);
            var now := Granted(have, Free(d.m.table), need);
            && |m'.chains[f.slot]| == now && Free(m'.table) == Free(d.m.table) - (now - have)
            && StoreOf(cb, m'.data, m'.chains[f.slot]) ==
               Laid(StoreOf(cb, d.m.data, d.m.chains[f.slot]), now * cb, f.position,
                    data[..StoredBytes(cb, room, f.position, |data|)])
  {
    hide Take, Takeable, Free, Laid, StoreOf, Shows, OthersKept, StoredBytes;
    var cb, have := d.sh.clusterBytes, |d.m.chains[f.slot]|;
    TakeCounts(Space(d.m.table, d.m.chains[f.slot]), Missed(cb, have, f.position, |data|));
    StoreShows(d.sh, d.m, m', f.slot, f.position, data[..StoredBytes(cb, have + Free(d.m.table), f.position, |data|)]);
  }

  lemma WriteMatches(w: World, d: Disk, fs: seq<Mark>, i: nat, data: seq<Byte>, m': Image, f': Mark)
    requires Matches(w, d, fs) && i < |fs| && fs[i].writable && fs[i].slot < |d.m.chains|
    requires Takeable(Space(d.m.table, d.m.chains[fs[i].slot])) && Writing(d, fs[i], data, m', f')
    ensures Matches(WriteStep(w, i, data).0, d.(m := m'), fs[i := f'])
    ensures WriteStep(w, i, data).1 ==
            if Clusters(w.cb, fs[i].position, |data|) <= |d.m.chains[fs[i].slot]| + w.free then Wrote(|data|)
            else Failed(NoMemory)
  {
    hide Lookup, Laid, StoreOf, Shows, Takeable, Clusters, StoredBytes, Missed, Take, Free, Spare;
    var s, cb, w', d', fs' := fs[i].slot, w.cb, WriteStep(w, i, data).0, d.(m := m'), fs[i := f'];
    assert HeldOk(w.held[i], d, fs[i]);
    WritingLeaves(d, fs[i], data, m', f');
    ClustersOf(cb, d.m.chains[s]);
    forall a | 0 <= a < |d.m.chains| && a != s
      ensures StoreOf(cb, m'.data, m'.chains[a]) == StoreOf(cb, d.m.data, d.m.chains[a]) {
      StoreKept(d.sh, d.m, m', s, a);
    }
    forall n: Name ensures NameOk(w', d', n) { assert NameOk(w, d, n); }
    OneHandle(w, d, fs, i, w'.held[i], m', f');
  }

  /** One handle changes, and its file with it. */
  lemma OneHandle(w: World, d: Disk, fs: seq<Mark>, i: nat, h: Held, m': Image, f': Mark)
    requires AllHeld(w, d, fs) && i < |fs| && f'.slot == fs[i].slot && HeldOk(h, d.(m := m'), f')
    requires forall a :: 0 <= a < |d.m.chains| && a != f'.slot ==>
               a < |m'.chains| && StoreOf(d.sh.clusterBytes, m'.data, m'.chains[a]) ==
                                  StoreOf(d.sh.clusterBytes, d.m.data, d.m.chains[a])
    ensures AllHeld(w.(held := w.held[i := h]), d.(m := m'), fs[i := f'])
  {
    hide Lookup, StoreOf;
    var fs', held := fs[i := f'], w.held[i := h];
    forall j | 0 <= j < |fs'| ensures HeldOk(held[j], d.(m := m'), fs'[j]) {
      assert HeldOk(w.held[j], d, fs[j]);
      if j < i { assert fs[j].slot != fs[i].slot; } else if j > i { assert fs[i].slot != fs[j].slot; }
    }
    forall t | t in d.busy ensures exists j :: 0 <= j < |fs'| && fs'[j].slot == t {
      var j :| 0 <= j < |fs| && fs[j].slot == t;
      assert fs'[j].slot == t;
    }
  }

  /** Closing writes the entry and drops the handle. */
  lemma CloseMatches(w: World, d: Disk, fs: seq<Mark>, i: nat, entry: Slot)
    requires Matches(w, d, fs) && i < |fs| && fs[i].slot < |d.dir| && d.dir[fs[i].slot].File?
    requires entry.File? && entry == d.dir[fs[i].slot].(first := entry.first, size := fs[i].size)
    ensures Matches(CloseStep(w, i).0, d.(dir := d.dir[fs[i].slot := entry], busy := d.busy - {fs[i].slot}),
                    fs[..i] + fs[i + 1..])
  {
    hide Lookup, StoreOf, Free, View;
    var s, w' := fs[i].slot, CloseStep(w, i).0;
    var d' := d.(dir := d.dir[s := entry], busy := d.busy - {s});
    assert HeldOk(w.held[i], d, fs[i]);
    SpareUsed(d.dir, s, entry, 0);
    forall n: Name ensures NameOk(w', d', n) { CloseNames(w, d, fs, i, entry, n); }
    CloseHandles(w, d, fs, i, entry);
  }

  lemma CloseNames(w: World, d: Disk, fs: seq<Mark>, i: nat, entry: Slot, n: Name)
    requires NameOk(w, d, n) && |fs| == |w.held| && i < |fs| && HeldOk(w.held[i], d, fs[i]) && d.dir[fs[i].slot].File?
    requires entry.File? && entry == d.dir[fs[i].slot].(first := entry.first, size := fs[i].size)
    ensures NameOk(CloseStep(w, i).0, d.(dir := d.dir[fs[i].slot := entry], busy := d.busy - {fs[i].slot}), n)
  {
    hide Lookup, StoreOf;
    LookupKept(d.dir, fs[i].slot, entry, n);
  }

  lemma HeldBusy(h: Held, d: Disk, f: Mark)
    requires HeldOk(h, d, f)
    ensures f.slot in d.busy
  {}

  lemma HeldKept(h: Held, d: Disk, f: Mark, s: nat, entry: Slot)
    requires HeldOk(h, d, f) && f.slot != s && s < |d.dir| && d.dir[s].File? && entry.File? &&
             entry.name == d.dir[s].name
    ensures HeldOk(h, d.(dir := d.dir[s := entry], busy := d.busy - {s}), f)
  {
    hide Lookup, StoreOf;
    LookupKept(d.dir, s, entry, h.name);
  }

  lemma CloseHandles(w: World, d: Disk, fs: seq<Mark>, i: nat, entry: Slot)
    requires AllHeld(w, d, fs) && i < |fs| && fs[i].slot < |d.dir| && d.dir[fs[i].slot].File?
    requires entry.File? && entry == d.dir[fs[i].slot].(first := entry.first, size := fs[i].size)
    ensures AllHeld(CloseStep(w, i).0, d.(dir := d.dir[fs[i].slot := entry], busy := d.busy - {fs[i].slot}),
                    fs[..i] + fs[i + 1..])
  {
    hide Lookup, StoreOf, HeldOk;
    var s, w' := fs[i].slot, CloseStep(w, i).0;
    var d', fs' := d.(dir := d.dir[s := entry], busy := d.busy - {s}), fs[..i] + fs[i + 1..];
    HeldBusy(w.held[i], d, fs[i]);
    forall j | 0 <= j < |fs'| ensures HeldOk(w'.held[j], d', fs'[j]) {
      var k := if j < i then j else j + 1;
      assert HeldOk(w.held[k], d, fs[k]);
      if k < i { assert fs[k].slot != fs[i].slot; } else { assert fs[i].slot != fs[k].slot; }
      HeldKept(w.held[k], d, fs[k], s, entry);
    }
    forall t | t in d'.busy ensures exists j :: 0 <= j < |fs'| && fs'[j].slot == t {
      var k :| 0 <= k < |fs| && fs[k].slot == t;
      assert fs'[if k < i then k else k - 1].slot == t;
    }
  }

  lemma LookupKept(dir: seq<Slot>, s: nat, entry: Slot, n: Name)
    requires s < |dir| && dir[s].File? && entry.File? && entry.name == dir[s].name
    ensures Lookup(dir[s := entry], n) == Lookup(dir, n)
  {
    SameNames(dir, n, s, entry, 0, |dir|, |dir|);
  }

  /** The file that an open has prepared, in the table. */
  function Ready(w: World, name: Name, emptied: bool): (r: World)
    requires w.cb > 0 && (name in w.files || w.spare > 0)
    ensures name in r.files && r.held == w.held
  {
    var was := if name in w.files then w.files[name] else NOTHING;
    var now := if emptied then NOTHING else was;
    w.(free := w.free + |was.bytes| / w.cb - |now.bytes| / w.cb,
       spare := if name in w.files then w.spare else w.spare - 1, files := w.files[name := now])
  }

  /** The file that an open finds, or makes, and may empty. */
  lemma PreparedMatches(w: World, d: Disk, fs: seq<Mark>, name: Name, s: nat, emptied: bool, d': Disk)
    requires Matches(w, d, fs) && s < |d.m.chains| && s !in d.busy && Chained(d.m.table, d.m.chains[s])
    requires name !in w.folders && (name !in w.files ==> emptied && w.spare > 0)
    requires forall j :: 0 <= j < |w.held| ==> w.held[j].name != name
    requires if name in w.files then Lookup(d.dir, name) == Found(s)
             else d.m.chains[s] == [] && (d.dir[s] == End || d.dir[s] == Deleted)
    requires d'.sh == d.sh && d'.busy == d.busy &&
             d'.dir == if emptied then d.dir[s := File(name, false, 0, 0)] else d.dir
    requires d'.m == if emptied then ReleasedImage(d.m, s) else d.m
    requires Lookup(d'.dir, name) == Found(s)
    requires forall n: Name :: n != name ==>
               (Lookup(d'.dir, n).Found? <==> Lookup(d.dir, n).Found?)
               && (Lookup(d'.dir, n).Found? ==> Lookup(d'.dir, n) == Lookup(d.dir, n))
    ensures Matches(Ready(w, name, emptied), d', fs)
  {
    hide Lookup, Free, Chained, StoreOf, HeldOk, View;
    var was := if name in w.files then w.files[name] else NOTHING;
    var now := if emptied then NOTHING else was;
    var w' := Ready(w, name, emptied);
    if name in w.files { NameShows(w, d, name); }
    ClustersOf(w.cb, d.m.chains[s]);
    ClearedFree(d.m.table, d.m.chains[s]);
    SpareUsed(d.dir, s, File(name, false, 0, 0), 0);
    forall n: Name ensures NameOk(w', d', n) { PreparedName(w, d, name, s, emptied, d', now, w', n); }
    forall j | 0 <= j < |fs| ensures HeldOk(w'.held[j], d', fs[j]) {
      assert HeldOk(w.held[j], d, fs[j]);
      PreparedHeld(w.held[j], d, fs[j], name, s, emptied, d');
    }
  }

  lemma NameShows(w: World, d: Disk, name: Name)
    requires NameOk(w, d, name) && name in w.files
    ensures var s := Lookup(d.dir, name).slot;
            s < |d.m.chains| && |w.files[name].bytes| == |d.m.chains[s]| * d.sh.clusterBytes
  {}

  lemma PreparedName(w: World, d: Disk, name: Name, s: nat, emptied: bool, d': Disk, now: Contents, w': World, n: Name)
    requires NameOk(w, d, n) && s < |d.m.chains| && |d.m.chains| == |d.dir| && s !in d.busy && name !in w.folders
    requires if name in w.files then Lookup(d.dir, name) == Found(s) else emptied
    requires d'.sh == d.sh && d'.busy == d.busy &&
             d'.dir == if emptied then d.dir[s := File(name, false, 0, 0)] else d.dir
    requires d'.m == if emptied then ReleasedImage(d.m, s) else d.m
    requires Lookup(d'.dir, name) == Found(s)
    requires n != name ==>
               (Lookup(d'.dir, n).Found? <==> Lookup(d.dir, n).Found?)
               && (Lookup(d'.dir, n).Found? ==> Lookup(d'.dir, n) == Lookup(d.dir, n))
    requires w'.files == w.files[name := now] && w'.folders == w.folders
    requires now == if emptied then NOTHING else if name in w.files then w.files[name] else NOTHING
    ensures NameOk(w', d', n)
  {
    hide Lookup, Cleared;
    var r := Lookup(d'.dir, n);
    if n != name && r.Found? { assert d'.dir[r.slot].name == n; }
    if n == name && emptied { assert View(d', s, 0) == NOTHING; }
  }

  lemma PreparedHeld(h: Held, d: Disk, f: Mark, name: Name, s: nat, emptied: bool, d': Disk)
    requires HeldOk(h, d, f) && s < |d.m.chains| && s < |d.dir| && s !in d.busy && h.name != name
    requires d'.sh == d.sh && d'.busy == d.busy &&
             d'.dir == if emptied then d.dir[s := File(name, false, 0, 0)] else d.dir
    requires d'.m == if emptied then ReleasedImage(d.m, s) else d.m
    requires (Lookup(d'.dir, h.name).Found? <==> Lookup(d.dir, h.name).Found?)
             && (Lookup(d'.dir, h.name).Found? ==> Lookup(d'.dir, h.name) == Lookup(d.dir, h.name))
    ensures HeldOk(h, d', f)
  {
    hide Lookup, Cleared;
  }

  /** The file that has been prepared, held by a handle. */
  lemma HoldMatches(w: World, d: Disk, fs: seq<Mark>, name: Name, f: Mark)
    requires Matches(w, d, fs) && name in w.files && Lookup(d.dir, name) == Found(f.slot) && f.slot !in d.busy
    requires f.size == d.dir[f.slot].size
    ensures Matches(w.(files := w.files - {name},
                       held := w.held + [Held(name, w.files[name], f.position, f.readable, f.writable)]),
                    d.(busy := d.busy + {f.slot}), fs + [f])
  {
    hide Lookup, Free, StoreOf, HeldOk, View;
    var h := Held(name, w.files[name], f.position, f.readable, f.writable);
    var w', d', fs' := w.(files := w.files - {name}, held := w.held + [h]), d.(busy := d.busy + {f.slot}), fs + [f];
    HoldNew(w, d, name, f);
    forall n: Name ensures NameOk(w', d', n) { HoldName(w, d, name, f.slot, n, w'); }
    forall j | 0 <= j < |fs'| ensures HeldOk(w'.held[j], d', fs'[j]) {
      if j < |fs| { HoldOld(w.held[j], d, fs[j], f.slot); }
    }
    forall j, k | 0 <= j < k < |fs'| ensures fs'[j].slot != fs'[k].slot { HeldBusy(w.held[j], d, fs[j]); }
    forall t | t in d'.busy ensures exists j :: 0 <= j < |fs'| && fs'[j].slot == t {
      if t != f.slot {
        var j :| 0 <= j < |fs| && fs[j].slot == t;
        assert fs'[j].slot == t;
      } else {
        assert fs'[|fs|].slot == t;
      }
    }
  }

  lemma HoldNew(w: World, d: Disk, name: Name, f: Mark)
    requires NameOk(w, d, name) && name in w.files && Lookup(d.dir, name) == Found(f.slot) &&
             f.size == d.dir[f.slot].size
    ensures HeldOk(Held(name, w.files[name], f.position, f.readable, f.writable), d.(busy := d.busy + {f.slot}), f)
  {}

  lemma HoldOld(h: Held, d: Disk, f: Mark, s: nat)
    requires HeldOk(h, d, f)
    ensures HeldOk(h, d.(busy := d.busy + {s}), f)
  {}

  lemma HoldName(w: World, d: Disk, name: Name, s: nat, n: Name, w': World)
    requires NameOk(w, d, n) && Lookup(d.dir, name) == Found(s)
    requires w'.files == w.files - {name} && w'.folders == w.folders
    ensures NameOk(w', d.(busy := d.busy + {s}), n)
  {
    hide StoreOf;
  }

  // ----- the driver makes those steps

  lemma HandleFacts(w: World, v: Volume, fs: seq<OpenFile>, i: nat)
    requires Represents(w, v, fs) && i < |fs|
    ensures |Marks(fs)| == |fs| == |w.held| && fs[i].On(v) && Marks(fs)[i] == MarkOf(fs[i])
    ensures HeldOk(w.held[i], DiskOf(v), MarkOf(fs[i])) && v.shape.clusterBytes == w.cb > 0
    ensures w.free == Free(v.fats[0]) && Sound(v.shape, v.Img())
  {
    assert HeldOk(w.held[i], DiskOf(v), Marks(fs)[i]);
  }

  lemma ReachShows(sh: Shape, data: seq<seq<Byte>>, chain: seq<nat>, size: nat)
    ensures Reach(sh, chain, size) <= size
    ensures Content(sh.clusterBytes, data, chain, size)[..Reach(sh, chain, size)] ==
            Readable(Contents(StoreOf(sh.clusterBytes, data, chain), size))
  {}

  /** Only the position of handle i has moved. */
  lemma Moved(w: World, v: Volume, was: seq<Mark>, fs: seq<OpenFile>, i: nat)
    requires v.Valid() && AllOn(v, fs) && Matches(w, DiskOf(v), was) && i < |fs| == |was|
    requires forall j :: 0 <= j < |fs| ==>
               MarkOf(fs[j]) == if j == i then was[i].(position := fs[i].position) else was[j]
    ensures |w.held| == |fs| && Represents(w.(held := w.held[i := w.held[i].(position := fs[i].position)]), v, fs)
  {
    hide Matches, Sound;
    MatchesHeld(w, DiskOf(v), was);
    MoveMatches(w, DiskOf(v), was, i, fs[i].position);
    assert Marks(fs) == was[i := was[i].(position := fs[i].position)];
  }

  lemma MatchesHeld(w: World, d: Disk, fs: seq<Mark>)
    requires Matches(w, d, fs)
    ensures |w.held| == |fs|
  {}

  method DoRead(v: Volume, fs: seq<OpenFile>, i: nat, count: nat, ghost w: World) returns (answer: Answer)
    requires Represents(w, v, fs) && i < |fs|
    modifies fs
    ensures |w.held| == |fs| && Represents(ReadStep(w, i, count).0, v, fs) && answer == ReadStep(w, i, count).1
  {
    hide Matches, Sound, Volume.Valid, StoreOf, Content, Slice, Reach, Readable, Lookup;
    ghost var was := Marks(fs);
    HandleFacts(w, v, fs, i);
    ReachShows(v.shape, v.data, v.chains[fs[i].slot], fs[i].size);
    var status, buffer := fs[i].Read(v, count);
    answer := if status == Ok then Got(buffer) else Failed(status);
    Moved(w, v, was, fs, i);
  }

  method DoSeek(v: Volume, fs: seq<OpenFile>, i: nat, offset: int, origin: Origin, ghost w: World)
    returns (answer: Answer)
    requires Represents(w, v, fs) && i < |fs|
    modifies fs
    ensures |w.held| == |fs| && Represents(SeekStep(w, i, offset, origin).0, v, fs)
    ensures answer == SeekStep(w, i, offset, origin).1
  {
    hide Matches, Sound, Volume.Valid, StoreOf, Lookup;
    ghost var was := Marks(fs);
    HandleFacts(w, v, fs, i);
    var status := fs[i].Seek(offset, origin);
    answer := if status == Ok then Done else Failed(status);
    Moved(w, v, was, fs, i);
  }

  lemma SlotsApart(w: World, v: Volume, fs: seq<OpenFile>, i: nat, j: nat)
    requires Represents(w, v, fs) && i < |fs| && j < |fs| && i != j
    ensures fs[i].slot != fs[j].slot && fs[i] != fs[j] && fs[j].On(v)
  {
    assert Marks(fs)[i].slot == fs[i].slot && Marks(fs)[j].slot == fs[j].slot;
    if i < j { assert Marks(fs)[i].slot != Marks(fs)[j].slot; } else { assert Marks(fs)[j].slot != Marks(fs)[i].slot; }
  }

  method DoWrite(v: Volume, fs: seq<OpenFile>, i: nat, data: seq<Byte>, ghost w: World) returns (answer: Answer)
    requires Represents(w, v, fs) && i < |fs| && fs[i].position + |data| < U32
    modifies fs, v
    ensures |w.held| == |fs| && w.cb > 0
    ensures Represents(WriteStep(w, i, data).0, v, fs) && answer == WriteStep(w, i, data).1
  {
    hide Matches, Sound, StoreOf, Lookup, Take, Takeable, Shows, Clusters, StoredBytes, Missed, Free, Tidy,
         Volume.Settled, Laid;
    ghost var d, was, m := DiskOf(v), Marks(fs), v.Img();
    HandleFacts(w, v, fs, i);
    SlotTakeable(v.shape, m, fs[i].slot);
    forall j | 0 <= j < |fs| && j != i ensures fs[i].slot != fs[j].slot && fs[i] != fs[j] && fs[j].On(v) {
      SlotsApart(w, v, fs, i, j);
    }
    var status, count := fs[i].Write(v, data);
    answer := if status == Ok then Wrote(count) else Failed(status);
    assert AllOn(v, fs);
    if fs[i].writable {
      WriteMatches(w, d, was, i, data, v.Img(), MarkOf(fs[i]));
      assert DiskOf(v) == d.(m := v.Img()) && Marks(fs) == was[i := MarkOf(fs[i])];
    }
  }

  method DoClose(v: Volume, fs: seq<OpenFile>, i: nat, ghost w: World) returns (next: seq<OpenFile>)
    requires Represents(w, v, fs) && i < |fs|
    modifies v
    ensures |w.held| == |fs| && Represents(CloseStep(w, i).0, v, next) && forall f :: f in next ==> f in fs
  {
    hide Matches, Sound, StoreOf, Lookup, Tidy;
    ghost var d, was := DiskOf(v), Marks(fs);
    HandleFacts(w, v, fs, i);
    forall j | 0 <= j < |fs| && j != i ensures fs[i].slot != fs[j].slot && fs[i] != fs[j] && fs[j].On(v) {
      SlotsApart(w, v, fs, i, j);
    }
    fs[i].Close(v);
    next := fs[..i] + fs[i + 1..];
    CloseMatches(w, d, was, i, v.dir[fs[i].slot]);
    assert Marks(next) == was[..i] + was[i + 1..];
  }

  /** What an open needs to know of the table of files. */
  lemma OpenFacts(w: World, d: Disk, fs: seq<Mark>, name: Name)
    requires Matches(w, d, fs) && forall i :: 0 <= i < |w.held| ==> w.held[i].name != name
    ensures var r := Lookup(d.dir, name);
            && (name in w.folders <==> r.Found? && d.dir[r.slot].isDir)
            && (name in w.files <==> r.Found? && !d.dir[r.slot].isDir)
            && (r.Found? ==> r.slot !in d.busy)
            && (r.Missing? ==> (r.free == |d.dir| <==> w.spare == 0))
            && |w.held| == |fs| == |d.busy| && w.cb == d.sh.clusterBytes > 0 && |d.m.chains| == |d.dir|
  {
    var r := Lookup(d.dir, name);
    assert NameOk(w, d, name);
    if r.Found? {
      forall i | 0 <= i < |fs| ensures fs[i].slot != r.slot { assert HeldOk(w.held[i], d, fs[i]); }
    }
    if r.Missing? { SpareMeans(d.dir, name, 0, |d.dir|); }
  }

  lemma OpenedSettled(v: Volume, name: Name)
    requires v.Valid() && (Lookup(v.dir, name).Found? ==> Lookup(v.dir, name).slot !in v.busy)
    ensures var r := Lookup(v.dir, name);
            var s := if r.Found? then r.slot else r.free;
            && s <= |v.dir| == |v.chains|
            && (s < |v.dir| ==>
                  && s !in v.busy && Chained(v.fats[0], v.chains[s])
                  && (r.Missing? ==> v.chains[s] == [] && (v.dir[s] == End || v.dir[s] == Deleted)))
  {
    var r := Lookup(v.dir, name);
    FindMeans(v.dir, name, 0, |v.dir|);
    var s := if r.Found? then r.slot else r.free;
    assert SlotOk(v.shape, v.Img(), s) && v.Settled(s);
  }

  lemma NameSize(w: World, d: Disk, fs: seq<Mark>, name: Name)
    requires Matches(w, d, fs) && name in w.files
    ensures var r := Lookup(d.dir, name); r.Found? && w.files[name].size == d.dir[r.slot].size
  {
    assert NameOk(w, d, name);
  }

  lemma PreparedShows(w: World, d: Disk, fs: seq<Mark>, op: Op, s: nat, emptied: bool, v: Volume)
    requires Matches(w, d, fs) && op.Opens? && v.Valid() && s < |d.m.chains| && s !in d.busy && v.shape == d.sh
    requires Chained(d.m.table, d.m.chains[s]) && v.Prepared(op.name, s, emptied, d.dir, d.m)
    requires op.name !in w.folders && (op.name !in w.files ==> emptied && w.spare > 0)
    requires forall j :: 0 <= j < |w.held| ==> w.held[j].name != op.name
    requires if op.name in w.files then Lookup(d.dir, op.name) == Found(s)
             else d.m.chains[s] == [] && (d.dir[s] == End || d.dir[s] == Deleted)
    requires Lookup(v.dir, op.name) == Found(s)
    requires forall n: Name :: n != op.name ==>
               (Lookup(v.dir, n).Found? <==> Lookup(d.dir, n).Found?)
               && (Lookup(v.dir, n).Found? ==> Lookup(v.dir, n) == Lookup(d.dir, n))
    ensures Matches(Ready(w, op.name, emptied), DiskOf(v).(busy := d.busy), fs)
  {
    hide NameOk, AllHeld, Lookup, Sound, Chained, Ready;
    PreparedMatches(w, d, fs, op.name, s, emptied, DiskOf(v).(busy := d.busy));
  }

  /** The handle fits the volume as it was. */
  ghost predicate Stands(f: OpenFile, d: Disk)
    reads f
  {
    && f.slot < |d.dir| == |d.m.chains| && f.slot in d.busy && d.dir[f.slot].File? && !d.dir[f.slot].isDir
    && f.first == Head(d.m.chains[f.slot]) && f.size < U32 && f.position < U32
  }

  lemma AllStand(v: Volume, fs: seq<OpenFile>)
    requires v.Valid() && AllOn(v, fs)
    ensures forall j :: 0 <= j < |fs| ==> Stands(fs[j], DiskOf(v))
  {
    hide Sound, Tidy;
  }

  lemma OnAgain(v: Volume, fs: seq<OpenFile>)
    requires v.Valid() && forall j :: 0 <= j < |fs| ==> Stands(fs[j], DiskOf(v))
    ensures forall j :: 0 <= j < |fs| ==> fs[j].On(v)
  {
    hide Sound, Tidy;
  }

  lemma StillOn(v: Volume, fs: seq<OpenFile>, d: Disk, name: Name, s: nat, emptied: bool)
    requires v.Valid() && d.busy <= v.busy && s !in d.busy && v.Prepared(name, s, emptied, d.dir, d.m)
    requires forall j :: 0 <= j < |fs| ==> Stands(fs[j], d)
    ensures forall j :: 0 <= j < |fs| ==> fs[j].On(v)
  {
    hide Sound, Tidy, Cleared;
    forall j | 0 <= j < |fs| ensures fs[j].On(v) { assert Stands(fs[j], d); }
  }

  lemma OpenRefused(w: World, op: Op)
    requires w.cb > 0 && op.Opens? && Possible(w, op)
    ensures op.name in w.folders ==> Step(w, op) == (w, Failed(InvalidArgument))
    ensures op.name !in w.folders && op.name !in w.files && (!op.create || w.spare == 0) ==>
              Step(w, op) == (w, Failed(NotFound))
  {}

  lemma OpenStepIs(w: World, op: Op)
    requires w.cb > 0 && op.Opens? && op.name !in w.folders && (op.name in w.files || (op.create && w.spare > 0))
    ensures var name, ready := op.name, Ready(w, op.name, op.name !in w.files || (op.truncate && op.writable));
            var size := ready.files[name].size;
            OpenStep(w, name, op.create, op.truncate, op.append, op.readable, op.writable) ==
            if |w.held| >= MAX_OPEN then (ready, Failed(NoMemory))
            else (ready.(files := ready.files - {name},
                         held := w.held + [Held(name, ready.files[name], if op.append then size else 0, op.readable,
                                                op.writable)]), Opened)
  {
    var ready := Ready(w, op.name, op.name !in w.files || (op.truncate && op.writable));
    assert ready.files - {op.name} == w.files - {op.name};
  }

  /** An open is not refused, and all its handles are taken. */
  lemma OpenEnds(w: World, op: Op, d: Disk, fs: seq<Mark>)
    requires w.cb > 0 && op.Opens? && op.name !in w.folders && (op.name in w.files || (op.create && w.spare > 0))
    requires Matches(Ready(w, op.name, op.name !in w.files || (op.truncate && op.writable)), d, fs)
    requires Possible(w, op)
    ensures |w.held| >= MAX_OPEN ==> Matches(Step(w, op).0, d, fs) && Step(w, op).1 == Failed(NoMemory)
  {
    OpenStepIs(w, op);
  }

  lemma OpenHolds(w: World, op: Op, d: Disk, fs: seq<Mark>, f: Mark)
    requires w.cb > 0 && op.Opens? && op.name !in w.folders && (op.name in w.files || (op.create && w.spare > 0))
    requires Possible(w, op) && |w.held| < MAX_OPEN
    requires Matches(Ready(w, op.name, op.name !in w.files || (op.truncate && op.writable)), d, fs)
    requires Lookup(d.dir, op.name) == Found(f.slot) && f.slot !in d.busy && f.size == d.dir[f.slot].size
    requires f.position == (if op.append then f.size else 0) && f.readable == op.readable && f.writable == op.writable
    ensures Matches(Step(w, op).0, d.(busy := d.busy + {f.slot}), fs + [f]) && Step(w, op).1 == Opened
  {
    hide Matches, Ready, Lookup;
    var ready := Ready(w, op.name, op.name !in w.files || (op.truncate && op.writable));
    OpenStepIs(w, op);
    NameSize(ready, d, fs, op.name);
    HoldMatches(ready, d, fs, op.name, f);
  }

  method DoOpen(v: Volume, fs: seq<OpenFile>, op: Op, ghost w: World) returns (answer: Answer, next: seq<OpenFile>)
    requires Represents(w, v, fs) && op.Opens? && Possible(w, op)
    modifies v
    ensures w.cb > 0 && Represents(Step(w, op).0, v, next) && answer == Step(w, op).1
    ensures forall f :: f in next ==> f in fs || fresh(f)
  {
    hide Matches, Sound, StoreOf, Lookup, Tidy, Spare, Free, Volume.Settled, Chained, Ready, Step, ReleasedImage,
         HeldOk, Volume.Prepared, Stands, OpenFile.On;
    ghost var d, was, name := DiskOf(v), Marks(fs), op.name;
    OpenFacts(w, d, was, name);
    OpenedSettled(v, name);
    AllStand(v, fs);
    next := fs;
    ghost var r := Lookup(v.dir, name);
    ghost var s := if r.Found? then r.slot else r.free;
    var status, f := v.Open(op.name, op.create, op.truncate, op.append, op.readable, op.writable);
    OpenRefused(w, op);
    if status == NotFound || status == InvalidArgument {
      OnAgain(v, fs);
      return Failed(status), fs;
    }
    ghost var emptied := r.Missing? || (op.truncate && op.writable);
    PreparedShows(w, d, was, op, s, emptied, v);
    StillOn(v, fs, d, name, s, emptied);
    OpenEnds(w, op, DiskOf(v).(busy := d.busy), was);
    if status == NoMemory { return Failed(status), fs; }
    answer, next := Opened, fs + [f];
    assert Represents(Step(w, op).0, v, next) && Step(w, op).1 == Opened by {
      OpenHolds(w, op, DiskOf(v).(busy := d.busy), was, MarkOf(f));
      assert Marks(next) == was + [MarkOf(f)];
    }
  }

  /** One operation: the driver answers as the table of files says, and leaves what it leaves. */
  method Perform(v: Volume, fs: seq<OpenFile>, op: Op, ghost w: World) returns (answer: Answer, next: seq<OpenFile>)
    requires Represents(w, v, fs) && Possible(w, op)
    modifies v, fs
    ensures w.cb > 0 && Represents(Step(w, op).0, v, next) && answer == Step(w, op).1
    ensures forall f :: f in next ==> f in fs || fresh(f)
  {
    hide Represents;
    CountsAgree(w, v, fs);
    next := fs;
    match op {
      case Opens(_, _, _, _, _, _) => answer, next := DoOpen(v, fs, op, w);
      case Reads(i, count) => answer := DoRead(v, fs, i, count, w);
      case Writes(i, data) => WriteFits(w, v, fs, i); answer := DoWrite(v, fs, i, data, w);
      case Seeks(i, offset, origin) => answer := DoSeek(v, fs, i, offset, origin, w);
      case Closes(i) =>
        next := DoClose(v, fs, i, w);
        answer := Done;
    }
  }

  lemma CountsAgree(w: World, v: Volume, fs: seq<OpenFile>)
    requires Represents(w, v, fs)
    ensures |w.held| == |fs| && w.cb > 0
  {}

  lemma WriteFits(w: World, v: Volume, fs: seq<OpenFile>, i: nat)
    requires Represents(w, v, fs) && i < |fs|
    ensures |w.held| == |fs| && fs[i].position == w.held[i].position
  {
    HandleFacts(w, v, fs, i);
  }

  function StepAll(w: World, ops: seq<Op>): (r: (World, seq<Answer>))
    requires w.cb > 0 && AllPossible(w, ops)
    ensures r.0.cb == w.cb && |r.1| == |ops|
    decreases |ops|
  {
    if ops == [] then (w, [])
    else
      var one := Step(w, ops[0]);
      var rest := StepAll(one.0, ops[1..]);
      (rest.0, [one.1] + rest.1)
  }

  predicate AllPossible(w: World, ops: seq<Op>)
    requires w.cb > 0
    decreases |ops|
  {
    ops != [] ==> Possible(w, ops[0]) && AllPossible(Step(w, ops[0]).0, ops[1..])
  }

  /** Any run of operations on any number of files answers as the table of files does, and leaves the
      volume showing the table that it leaves. */
  method Replay(v: Volume, fs: seq<OpenFile>, ops: seq<Op>, ghost w: World)
    returns (answers: seq<Answer>, last: seq<OpenFile>)
    requires Represents(w, v, fs) && w.cb > 0 && AllPossible(w, ops)
    modifies v, fs
    ensures Represents(StepAll(w, ops).0, v, last) && answers == StepAll(w, ops).1
    ensures forall f :: f in last ==> f in fs || fresh(f)
    decreases |ops|
  {
    hide Represents, Step, Possible;
    if ops == [] { return [], fs; }
    var first, next := Perform(v, fs, ops[0], w);
    assert forall j :: 0 <= j < |next| ==> next[j] in next && (next[j] in fs || fresh(next[j]));
    var rest;
    rest, last := Replay(v, next, ops[1..], Step(w, ops[0]).0);
    answers := [first] + rest;
  }

  // ----- from a new volume

  function NewWorld(cb: nat, clusters: nat, entries: nat): World { World(cb, map[], {}, [], clusters, entries) }

  lemma {:induction false} FormattedFree(clusters: nat, c: nat)
    requires 3 <= c <= clusters + 3
    ensures InUse(FormattedTable(clusters), c) == 0
    decreases clusters + 3 - c
  {
    if c < clusters + 3 { FormattedFree(clusters, c + 1); }
  }

  lemma {:induction false} FormattedSpare(entries: nat, i: nat)
    requires i <= entries
    ensures Spare(seq(entries, _ => End), i) == entries - i
    decreases entries - i
  {
    if i < entries { FormattedSpare(entries, i + 1); }
  }

  /** A volume just formatted shows no file. */
  lemma NewMatches(v: Volume, clusters: nat, entries: nat)
    requires v.Valid() && v.shape.clusterBytes > 0 && v.busy == {} && v.fats[0] == FormattedTable(clusters)
    requires v.dir == seq(entries, _ => End)
    ensures Represents(NewWorld(v.shape.clusterBytes, clusters, entries), v, [])
  {
    var t := FormattedTable(clusters);
    FormattedFree(clusters, 3);
    assert InUse(t, 0) == 3 by { assert InUse(t, 2) == 1 && InUse(t, 1) == 2; }
    FormattedSpare(entries, 0);
    var w, d := NewWorld(v.shape.clusterBytes, clusters, entries), DiskOf(v);
    forall n: Name ensures NameOk(w, d, n) { AllEnd(v.dir, 0, v.dir, n, 0, |v.dir|); }
  }

  /** The same from a volume just formatted. */
  method ReplayFromNew(fatCount: nat, clusterBytes: nat, clusters: nat, entries: nat, ops: seq<Op>)
    returns (answers: seq<Answer>, v: Volume, last: seq<OpenFile>)
    requires fatCount > 0 && clusterBytes > 0 && clusterBytes % SECTOR == 0 && clusters + 3 <= EOC
    requires AllPossible(NewWorld(clusterBytes, clusters, entries), ops)
    ensures var end := StepAll(NewWorld(clusterBytes, clusters, entries), ops);
            Represents(end.0, v, last) && answers == end.1
  {
    v := new Volume.Formatted(fatCount, clusterBytes, clusters, entries);
    NewMatches(v, clusters, entries);
    answers, last := Replay(v, [], ops, NewWorld(clusterBytes, clusters, entries));
  }
}
