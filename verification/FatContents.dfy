/** What runs over a FAT32 volume do to the contents of files: what was written is there after closing
    and opening again, gaps read as zeros, and exactly which operations spoil that. */
module FatContents {
  import opened Arithmetic
  import opened Bytes
  import opened FatVolume
  import opened FatDriver
  import opened FatRuns

  /** The file as a byte string: where clusters are missing it holds zeros. */
  function Text(c: Contents): (t: seq<Byte>)
    ensures |t| == c.size
  {
    Laid(c.bytes, c.size, 0, [])
  }

  /** The bytes past the end are zero. */
  predicate Neat(c: Contents) { forall k :: c.size <= k < |c.bytes| ==> c.bytes[k] == 0 }

  /** There are clusters up to the end. */
  predicate Whole(c: Contents) { c.size <= |c.bytes| }

  predicate Fitted(cb: nat, c: Contents) { cb > 0 && |c.bytes| == |c.bytes| / cb * cb }

  /** Every file, open or closed, is made of whole clusters. */
  ghost predicate Clustered(w: World) {
    && w.cb > 0 && (forall n :: n in w.files ==> Fitted(w.cb, w.files[n]))
    && forall i :: 0 <= i < |w.held| ==> Fitted(w.cb, w.held[i].file)
  }

  ghost predicate AllNeat(w: World) {
    (forall n :: n in w.files ==> Neat(w.files[n])) && forall i :: 0 <= i < |w.held| ==> Neat(w.held[i].file)
  }

  ghost predicate AllWhole(w: World) {
    (forall n :: n in w.files ==> Whole(w.files[n])) && forall i :: 0 <= i < |w.held| ==> Whole(w.held[i].file)
  }

  // ----- one write

  lemma ClustersHold(cb: nat, at: nat, n: nat)
    requires cb > 0
    ensures n > 0 ==> at + n <= Clusters(cb, at, n) * cb
  {
    if n > 0 {
      var last := at + n - 1;
      assert last == last / cb * cb + last % cb;
    }
  }

  lemma MoreClusters(cb: nat, a: nat, b: nat)
    requires a <= b
    ensures a * cb <= b * cb
  {
    if a < b { MulStep(a, b, cb); }
  }

  /** What a write through handle i comes to. */
  lemma WriteMeans(w: World, i: nat, data: seq<Byte>)
    requires Clustered(w) && i < |w.held| && w.held[i].writable
    ensures var c, c', at := w.held[i].file, WriteStep(w, i, data).0.held[i].file, w.held[i].position;
            var room := |c.bytes| / w.cb + w.free;
            var part := data[..StoredBytes(w.cb, room, at, |data|)];
            && Fitted(w.cb, c') && |c.bytes| <= |c'.bytes| && (part != [] ==> at + |part| <= |c'.bytes|)
            && c'.bytes == Laid(c.bytes, |c'.bytes|, at, part)
            && (data == [] ==> c'.bytes == c.bytes)
            && (Clusters(w.cb, at, |data|) <= room ==> part == data)
            && c'.size == (if Clusters(w.cb, at, |data|) <= room && at + |data| > c.size then at + |data| else c.size)
            && (WriteStep(w, i, data).1 == Wrote(|data|) <==> Clusters(w.cb, at, |data|) <= room)
  {
    var c, at, cb := w.held[i].file, w.held[i].position, w.cb;
    var have, need := |c.bytes| / cb, Clusters(cb, at, |data|);
    var room := have + w.free;
    var now := Granted(have, w.free, need);
    assert Fitted(cb, c);
    DivUnique(now, 0, cb);
    ClustersHold(cb, at, |data|);
    MoreClusters(cb, have, now);
    if need <= now { MoreClusters(cb, need, now); }
    if need > room { RoomEnds(cb, room, at, |data|); }
    if data == [] { assert Laid(c.bytes, |c.bytes|, at, []) == c.bytes; }
  }

  /** A write that succeeds splices the data into the text; a gap before it reads as zeros. */
  lemma WriteSplices(w: World, i: nat, data: seq<Byte>)
    requires Clustered(w) && i < |w.held| && w.held[i].writable && Neat(w.held[i].file)
    requires WriteStep(w, i, data).1 == Wrote(|data|)
    ensures var c' := WriteStep(w, i, data).0.held[i].file;
            Text(c') == Splice(Text(w.held[i].file), w.held[i].position, data) && Neat(c')
  {
    hide StoredBytes, Clusters, WriteStep, Laid, Splice;
    WriteMeans(w, i, data);
    LaidSplices(w.held[i].file, WriteStep(w, i, data).0.held[i].file, w.held[i].position, data);
  }

  lemma LaidSplices(c: Contents, c': Contents, at: nat, data: seq<Byte>)
    requires Neat(c) && |c.bytes| <= |c'.bytes| && (data != [] ==> at + |data| <= |c'.bytes|)
    requires c'.bytes == Laid(c.bytes, |c'.bytes|, at, data)
    requires c'.size == if at + |data| > c.size then at + |data| else c.size
    ensures Text(c') == Splice(Text(c), at, data) && Neat(c')
  {
    var t, r := Text(c'), Splice(Text(c), at, data);
    assert |t| == |r|;
    forall k: nat | k < |t| ensures t[k] == r[k] {
      assert t[k] == if k < |c'.bytes| then c'.bytes[k] else 0;
    }
  }

  /** The bytes that a write stores past the end although it fails. */
  ghost predicate StoresPastEnd(w: World, i: nat, data: seq<Byte>)
    requires w.cb > 0 && i < |w.held|
  {
    var c, at := w.held[i].file, w.held[i].position;
    var room := |c.bytes| / w.cb + w.free;
    && w.held[i].writable && Clusters(w.cb, at, |data|) > room
    && exists k :: 0 <= k < StoredBytes(w.cb, room, at, |data|) && at + k >= c.size && data[k] != 0
  }

  /** A write keeps the bytes past the end zero unless it runs out of clusters and has stored another
      byte there. */
  lemma WriteNeatIff(w: World, i: nat, data: seq<Byte>)
    requires Clustered(w) && i < |w.held| && Neat(w.held[i].file)
    ensures Neat(WriteStep(w, i, data).0.held[i].file) <==> !StoresPastEnd(w, i, data)
  {
    hide StoredBytes, Clusters;
    var c, c', at := w.held[i].file, WriteStep(w, i, data).0.held[i].file, w.held[i].position;
    var room := |c.bytes| / w.cb + w.free;
    var part := data[..StoredBytes(w.cb, room, at, |data|)];
    if w.held[i].writable {
      WriteMeans(w, i, data);
      if WriteStep(w, i, data).1 == Wrote(|data|) {
        WriteSplices(w, i, data);
      } else if StoresPastEnd(w, i, data) {
        var k :| 0 <= k < |part| && at + k >= c.size && data[k] != 0;
        assert c'.bytes[at + k] == data[k];
      }
    }
  }

  /** A write of nothing behind the last cluster moves the end where no cluster is. */
  predicate EndsBeyond(w: World, i: nat, data: seq<Byte>)
    requires i < |w.held|
  {
    w.held[i].writable && data == [] && w.held[i].position > |w.held[i].file.bytes|
  }

  lemma WriteWholeIff(w: World, i: nat, data: seq<Byte>)
    requires Clustered(w) && i < |w.held| && Whole(w.held[i].file)
    ensures Whole(WriteStep(w, i, data).0.held[i].file) <==> !EndsBeyond(w, i, data)
  {
    hide StoredBytes, Laid;
    if w.held[i].writable { WriteMeans(w, i, data); }
  }

  /** Reading shows the text, cut off only where the clusters end. */
  lemma ReadShows(c: Contents)
    ensures Readable(c) == Text(c)[..if Whole(c) then c.size else |c.bytes|]
    ensures Readable(c) == Text(c) <==> Whole(c)
  {
    assert Readable(c) == Text(c)[..if Whole(c) then c.size else |c.bytes|];
    if !Whole(c) { assert |Readable(c)| < |Text(c)|; }
  }

  // ----- any operation, and runs

  lemma StepClustered(w: World, op: Op)
    requires Clustered(w) && Possible(w, op)
    ensures Clustered(Step(w, op).0)
  {
    hide Laid;
    if op.Writes? && w.held[op.i].writable { WriteMeans(w, op.i, op.data); }
    assert Fitted(w.cb, NOTHING);
  }

  /** The operations that spoil contents that are in order. */
  ghost predicate Spoils(w: World, op: Op)
    requires w.cb > 0 && Possible(w, op)
  {
    op.Writes? && (StoresPastEnd(w, op.i, op.data) || EndsBeyond(w, op.i, op.data))
  }

  ghost predicate Orderly(w: World) { Clustered(w) && AllNeat(w) && AllWhole(w) }

  lemma StepOrderlyIff(w: World, op: Op)
    requires Orderly(w) && Possible(w, op)
    ensures Orderly(Step(w, op).0) <==> !Spoils(w, op)
  {
    hide Laid, Clusters, StoredBytes, Neat, Whole, Fitted, StoresPastEnd, EndsBeyond;
    StepClustered(w, op);
    NothingOrderly();
    if op.Writes? {
      WriteNeatIff(w, op.i, op.data);
      WriteWholeIff(w, op.i, op.data);
    }
  }

  lemma NothingOrderly()
    ensures Neat(NOTHING) && Whole(NOTHING)
  {}

  ghost predicate OrderlyAlong(w: World, ops: seq<Op>)
    requires w.cb > 0 && AllPossible(w, ops)
    decreases |ops|
  {
    Orderly(w) && (ops != [] ==> OrderlyAlong(Step(w, ops[0]).0, ops[1..]))
  }

  ghost predicate NeverSpoils(w: World, ops: seq<Op>)
    requires w.cb > 0 && AllPossible(w, ops)
    decreases |ops|
  {
    ops != [] ==> !Spoils(w, ops[0]) && NeverSpoils(Step(w, ops[0]).0, ops[1..])
  }

  /** Along a run all files stay in order exactly when no operation of it spoils one. */
  lemma {:induction false} RunOrderlyIff(w: World, ops: seq<Op>)
    requires Orderly(w) && AllPossible(w, ops)
    ensures OrderlyAlong(w, ops) <==> NeverSpoils(w, ops)
    decreases |ops|
  {
    hide Step, Possible, Spoils, Orderly;
    OrderlyHasClusters(w);
    if ops != [] {
      StepOrderlyIff(w, ops[0]);
      if !Spoils(w, ops[0]) { RunOrderlyIff(Step(w, ops[0]).0, ops[1..]); }
    }
  }

  lemma OrderlyHasClusters(w: World)
    requires Orderly(w)
    ensures w.cb > 0
  {}

  lemma NewOrderly(cb: nat, clusters: nat, entries: nat)
    requires cb > 0
    ensures Orderly(NewWorld(cb, clusters, entries))
  {}

  // ----- saved and read again

  lemma Cons(w: World, op: Op, rest: seq<Op>, ops: seq<Op>)
    requires w.cb > 0 && Possible(w, op) && AllPossible(Step(w, op).0, rest) && ops == [op] + rest
    ensures AllPossible(w, ops) && StepAll(w, ops).1 == [Step(w, op).1] + StepAll(Step(w, op).0, rest).1
  {
    assert ops[1..] == rest;
  }

  /** The file of that name, or an empty one. */
  function FileOf(w: World, name: Name): Contents { if name in w.files then w.files[name] else NOTHING }

  // ----- what the other operations mean

  /** Opening refuses a folder and, unless one may and can be made, a name that is not there. */
  lemma OpenRefuses(w: World, name: Name, create: bool, truncate: bool, append: bool, readable: bool, writable: bool)
    requires w.cb > 0
    ensures var r := OpenStep(w, name, create, truncate, append, readable, writable);
            && (name in w.folders ==> r == (w, Failed(InvalidArgument)))
            && (name !in w.folders && name !in w.files && (!create || w.spare == 0) ==> r == (w, Failed(NotFound)))
            && (r.1 == Opened <==>
                name !in w.folders && (name in w.files || (create && w.spare > 0)) && |w.held| < MAX_OPEN)
  {}

  /** An open file is what was closed under its name, or empty if it is new or may be and is to be emptied; its
      position is the start, or the end if it appends. Nothing else changes but for the clusters given back. */
  lemma OpenMeans(w: World, name: Name, create: bool, truncate: bool, append: bool, readable: bool, writable: bool)
    requires w.cb > 0 && OpenStep(w, name, create, truncate, append, readable, writable).1 == Opened
    ensures var u := OpenStep(w, name, create, truncate, append, readable, writable).0;
            && |u.held| == |w.held| + 1 && u.held[..|w.held|] == w.held && u.folders == w.folders
            && u.files.Keys == w.files.Keys - {name} && (forall n :: n in u.files ==> u.files[n] == w.files[n])
            && var h := u.held[|w.held|];
            && h.name == name && h.readable == readable && h.writable == writable
            && h.file == (if truncate && writable then NOTHING else FileOf(w, name))
            && h.position == (if append then h.file.size else 0)
            && u.free == w.free + (if truncate && writable then |FileOf(w, name).bytes| / w.cb else 0)
            && u.spare == w.spare - (if name in w.files then 0 else 1)
  {}

  /** A read gives the bytes from the position on, as far as the file can be read, and goes on behind them. */
  lemma ReadMeans(w: World, i: nat, count: nat)
    requires i < |w.held| && w.held[i].readable
    ensures var h, r := w.held[i], ReadStep(w, i, count);
            && r.1.Got? && |r.1.bytes| <= count
            && (|r.1.bytes| < count ==> h.position + |r.1.bytes| >= |Readable(h.file)|)
            && (forall k :: 0 <= k < |r.1.bytes| ==>
                  h.position + k < |Readable(h.file)| && r.1.bytes[k] == Readable(h.file)[h.position + k])
            && r.0 == w.(held := w.held[i := h.(position := h.position + |r.1.bytes|)])
  {}

  /** A seek counts from the start, the position or the end, in 32 bits; one that would go before the start
      is refused, and so are reads and writes that the handle is not open for. */
  lemma SeekMeans(w: World, i: nat, offset: int, data: seq<Byte>)
    requires w.cb > 0 && i < |w.held|
    ensures var h := w.held[i];
            && SeekStep(w, i, offset, SeekSet) == SoughtTo(w, i, offset)
            && SeekStep(w, i, offset, SeekCur) == SoughtTo(w, i, h.position + offset)
            && SeekStep(w, i, offset, SeekEnd) == SoughtTo(w, i, h.file.size + offset)
            && (!h.readable ==> ReadStep(w, i, |data|) == (w, Failed(InvalidArgument)))
            && (!h.writable ==> WriteStep(w, i, data) == (w, Failed(InvalidArgument)))
  {}

  function SoughtTo(w: World, i: nat, to: int): (World, Answer)
    requires i < |w.held|
  {
    if to < 0 then (w, Failed(InvalidArgument))
    else (w.(held := w.held[i := w.held[i].(position := to % 0x1_0000_0000)]), Done)
  }

  /** A closed file is the one that was open, and the other handles move up. */
  lemma CloseMeans(w: World, i: nat, j: nat)
    requires i < |w.held| && j < |w.held| && j != i
    ensures var u := CloseStep(w, i).0;
            && CloseStep(w, i).1 == Done && |u.held| == |w.held| - 1 && u.held[if j < i then j else j - 1] == w.held[j]
            && w.held[i].name in u.files && u.files == w.files[w.held[i].name := w.held[i].file] && u.free == w.free
  {}

  /** A closed file that can be opened, or made. */
  ghost predicate Openable(w: World, name: Name) {
    && w.cb > 0 && name !in w.folders && (name in w.files || w.spare > 0) && |w.held| < MAX_OPEN
    && forall i :: 0 <= i < |w.held| ==> w.held[i].name != name
  }

  /** Opening for writing, seeking and writing: what the handle holds then. */
  lemma WriteRun(w: World, name: Name, p: nat, data: seq<Byte>)
    requires Orderly(w) && Openable(w, name) && p + |data| < U32
    requires Clusters(w.cb, p, |data|) <= |FileOf(w, name).bytes| / w.cb + w.free
    requires data != [] || p <= |FileOf(w, name).bytes|
    ensures var h := |w.held|;
            && Possible(w, Opens(name, true, false, false, false, true))
            && var a := Step(w, Opens(name, true, false, false, false, true));
            && a.1 == Opened && Possible(a.0, Seeks(h, p, SeekSet))
            && var b := Step(a.0, Seeks(h, p, SeekSet));
            && b.1 == Done && Possible(b.0, Writes(h, data))
            && var c := Step(b.0, Writes(h, data));
            && c.1 == Wrote(|data|) && |c.0.held| == h + 1 && c.0.held[..h] == w.held && c.0.held[h].name == name
            && Whole(c.0.held[h].file) && Text(c.0.held[h].file) == Splice(Text(FileOf(w, name)), p, data)
            && c.0.folders == w.folders && c.0.cb == w.cb
  {
    hide Laid, StoredBytes, Neat, Whole, Splice, Text;
    var h := |w.held|;
    var a := Step(w, Opens(name, true, false, false, false, true)).0;
    NothingOrderly();
    assert a.held[h].file == FileOf(w, name) && a.free == w.free;
    var b := Step(a, Seeks(h, p, SeekSet)).0;
    StepClustered(w, Opens(name, true, false, false, false, true));
    StepClustered(a, Seeks(h, p, SeekSet));
    WriteSplices(b, h, data);
    WriteWholeIff(b, h, data);
  }

  /** Closing, opening again and reading. */
  lemma LoadRun(w: World, h: nat, name: Name, text: seq<Byte>)
    requires w.cb > 0 && |w.held| == h + 1 <= MAX_OPEN && w.held[h].name == name && name !in w.folders
    requires Whole(w.held[h].file) && Text(w.held[h].file) == text
    requires forall i :: 0 <= i < h ==> w.held[i].name != name
    ensures var ops := [Closes(h), Opens(name, false, false, false, true, false), Reads(h, |text|)];
            AllPossible(w, ops) && StepAll(w, ops).1 == [Done, Opened, Got(text)]
  {
    hide Text, Whole, Laid, WriteStep;
    var o4, o5, o6 := Closes(h), Opens(name, false, false, false, true, false), Reads(h, |text|);
    var w4 := Step(w, o4).0;
    assert w4.held == w.held[..h] && w4.files[name] == w.held[h].file;
    var w5 := Step(w4, o5).0;
    ReadShows(w5.held[h].file);
    assert Slice(text, 0, |text|) == text;
    Cons(w5, o6, [], [o6]);
    Cons(w4, o5, [o6], [o5, o6]);
    Cons(w, o4, [o5, o6], [o4, o5, o6]);
  }

  /** Written, closed and opened again, a file shows what it showed with the data spliced in; a gap
      reads as zeros. */
  lemma SavedIsLoaded(w: World, name: Name, p: nat, data: seq<Byte>)
    requires Orderly(w) && Openable(w, name) && p + |data| < U32
    requires Clusters(w.cb, p, |data|) <= |FileOf(w, name).bytes| / w.cb + w.free
    requires data != [] || p <= |FileOf(w, name).bytes|
    ensures var h, text := |w.held|, Splice(Text(FileOf(w, name)), p, data);
            var ops := [Opens(name, true, false, false, false, true), Seeks(h, p, SeekSet), Writes(h, data), Closes(h),
                        Opens(name, false, false, false, true, false), Reads(h, |text|)];
            && AllPossible(w, ops)
            && StepAll(w, ops).1 == [Opened, Done, Wrote(|data|), Done, Opened, Got(text)]
  {
    hide Splice, Text, Whole, Clusters, Step, Possible, Orderly, StepAll, AllPossible;
    WriteRun(w, name, p, data);
    var h, text := |w.held|, Splice(Text(FileOf(w, name)), p, data);
    var o1, o2, o3 := Opens(name, true, false, false, false, true), Seeks(h, p, SeekSet), Writes(h, data);
    var load := [Closes(h), Opens(name, false, false, false, true, false), Reads(h, |text|)];
    var w3 := Step(Step(Step(w, o1).0, o2).0, o3).0;
    assert forall i :: 0 <= i < h ==> w3.held[i] == w3.held[..h][i];
    LoadRun(w3, h, name, text);
    ThreeThen(w, o1, o2, o3, load);
    assert [o1, o2, o3] + load == [o1, o2, o3, load[0], load[1], load[2]];
  }

  lemma ThreeThen(w: World, a: Op, b: Op, c: Op, rest: seq<Op>)
    requires w.cb > 0 && Possible(w, a) && Possible(Step(w, a).0, b) && Possible(Step(Step(w, a).0, b).0, c)
    requires AllPossible(Step(Step(Step(w, a).0, b).0, c).0, rest)
    ensures AllPossible(w, [a, b, c] + rest)
    ensures var x, y := Step(w, a), Step(Step(w, a).0, b);
            StepAll(w, [a, b, c] + rest).1 == [x.1, y.1, Step(y.0, c).1] + StepAll(Step(y.0, c).0, rest).1
  {
    hide Step, Possible;
    var w1 := Step(w, a).0;
    Cons(Step(w1, b).0, c, rest, [c] + rest);
    Cons(w1, b, [c] + rest, [b, c] + rest);
    Cons(w, a, [b, c] + rest, [a, b, c] + rest);
  }

  // ----- runs that spoil a file

  function Sevens(n: nat): (s: seq<Byte>)
    ensures |s| == n && forall k :: 0 <= k < n ==> s[k] == 7
  {
    seq(n, _ => 7)
  }

  const NAME: Name := [65]

  function CutShort(): seq<Op> {
    [Opens(NAME, true, false, false, true, true), Writes(0, Sevens(513)), Seeks(0, 5, SeekSet), Writes(0, [1]),
     Seeks(0, 0, SeekSet), Reads(0, 6)]
  }

  function PastClusters(): seq<Op> {
    [Opens(NAME, true, false, false, true, true), Seeks(0, 600, SeekSet), Writes(0, []), Seeks(0, 0, SeekSet),
     Reads(0, 600)]
  }

  /** The first write fails for want of a second cluster but leaves its bytes in the first, and the gap
      before the one byte written later shows them. */
  lemma CutShortRun()
    ensures var w := NewWorld(512, 1, 1);
            && AllPossible(w, CutShort())
            && StepAll(w, CutShort()).1 == [Opened, Failed(NoMemory), Done, Wrote(1), Done, Got([7, 7, 7, 7, 7, 1])]
  {
    hide StepAll, AllPossible;
    var w, o := NewWorld(512, 1, 1), CutShort();
    var a := Step(w, o[0]).0;
    var b := Step(a, o[1]).0;
    assert Clusters(512, 0, 513) == 2 && StoredBytes(512, 1, 0, 513) == 512;
    assert b.held[0].file.bytes == Sevens(512);
    var c := Step(b, o[2]).0;
    assert Clusters(512, 5, 1) == 1;
    var d := Step(c, o[3]).0;
    var e := Step(d, o[4]).0;
    assert Readable(e.held[0].file) == [7, 7, 7, 7, 7, 1];
    assert Step(a, o[1]).1 == Failed(NoMemory) && Step(c, o[3]).1 == Wrote(1);
    assert Step(e, o[5]).1 == Got([7, 7, 7, 7, 7, 1]);
    Nothing(Step(e, o[5]).0);
    ThreeThen(c, o[3], o[4], o[5], []);
    assert [o[3], o[4], o[5]] + [] == [o[3], o[4], o[5]];
    ThreeThen(w, o[0], o[1], o[2], [o[3], o[4], o[5]]);
    assert [o[0], o[1], o[2]] + [o[3], o[4], o[5]] == o;
  }

  lemma Nothing(w: World)
    requires w.cb > 0
    ensures AllPossible(w, []) && StepAll(w, []) == (w, [])
  {}

  /** A write of nothing behind the end makes a file of 600 bytes that cannot be read at all. */
  lemma PastClustersRun()
    ensures var w := NewWorld(512, 1, 1);
            && AllPossible(w, PastClusters())
            && StepAll(w, PastClusters()).1 == [Opened, Done, Wrote(0), Done, Got([])]
            && StepAll(w, PastClusters()).0.held[0].file.size == 600
  {
    var w, o := NewWorld(512, 1, 1), PastClusters();
    var a := Step(w, o[0]).0;
    var b := Step(a, o[1]).0;
    var c := Step(b, o[2]).0;
    var d := Step(c, o[3]).0;
    Nothing(Step(d, o[4]).0);
    Cons(d, o[4], [], [o[4]]);
    Cons(c, o[3], [o[4]], [o[3], o[4]]);
    ThreeThen(w, o[0], o[1], o[2], [o[3], o[4]]);
    assert [o[0], o[1], o[2]] + [o[3], o[4]] == o;
  }

  /** The driver, on a volume of one cluster. */
  method SpoiledFiles() returns (cut: seq<Answer>, past: seq<Answer>)
    ensures cut == [Opened, Failed(NoMemory), Done, Wrote(1), Done, Got([7, 7, 7, 7, 7, 1])]
    ensures past == [Opened, Done, Wrote(0), Done, Got([])]
  {
    CutShortRun();
    PastClustersRun();
    var v, last;
    cut, v, last := ReplayFromNew(1, 512, 1, 1, CutShort());
    past, v, last := ReplayFromNew(1, 512, 1, 1, PastClusters());
  }
}
