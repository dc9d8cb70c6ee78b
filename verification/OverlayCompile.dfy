/** The overlay compiler: nodes and their properties are packed into a string table, records and
    array data. */
module OverlayCompile {
  import opened Bytes
  import opened OverlayFormat

  const SLASH: Byte := 47

  // the kinds of property, as numbered in the records
  const BOOL := 1
  const NUMBER := 2
  const STRING := 3
  const NUMBERS := 4
  const STRINGS := 5

  datatype Value = Flag(on: bool) | Number(n: nat) | Str(s: Text) | Numbers(ns: seq<nat>) | Strs(ss: seq<Text>)

  datatype Property = Property(name: Text, value: Value)

  /** A node as collected from the document, its properties in the order they are packed. */
  datatype Node = Node(path: Text, props: seq<Property>)

  // ----- names from paths

  function Strip(p: Text): (r: Text)
    ensures |r| <= |p|
    decreases |p|
  {
    if p != [] && p[|p| - 1] == SLASH then Strip(p[..|p| - 1]) else p
  }

  function AfterSlash(p: Text): (r: Text)
    ensures |r| <= |p|
    decreases |p|
  {
    if p == [] || p[|p| - 1] == SLASH then [] else AfterSlash(p[..|p| - 1]) + [p[|p| - 1]]
  }

  function BeforeSlash(p: Text): (r: Text)
    ensures |r| <= |p|
    decreases |p|
  {
    if p == [] then [] else if p[|p| - 1] == SLASH then p[..|p| - 1] else BeforeSlash(p[..|p| - 1])
  }

  function NodeName(p: Text): (r: Text)
    ensures |r| <= |p|
  {
    if p == [SLASH] then [] else AfterSlash(Strip(p))
  }

  function ParentPath(p: Text): (r: Text)
    ensures |r| <= |p| || r == [SLASH]
  {
    if p == [SLASH] || SLASH !in Strip(p) then []
    else
      var parent := BeforeSlash(Strip(p));
      if parent == [] then [SLASH] else parent
  }

  // ----- what the sections say

  /** The text stands in the table at the offset, with a zero byte behind it. */
  ghost predicate Stored(table: seq<Byte>, at: nat, t: Text) {
    at + |t| < |table| && (forall k :: 0 <= k < |t| ==> table[at + k] == t[k]) && table[at + |t|] == 0
  }

  ghost predicate Words(data: seq<Byte>, at: nat, ns: seq<nat>) {
    at + 4 * |ns| <= |data| && forall k :: 0 <= k < |ns| ==> Word32(data[at + 4 * k..at + 4 * k + 4]) == ns[k]
  }

  /** The texts, each with a zero byte behind it; a list of none is one zero byte. */
  function Joined(ss: seq<Text>): (j: seq<Byte>)
    ensures |j| > 0
    decreases |ss|
  {
    if |ss| == 0 then [0] else if |ss| == 1 then ss[0] + [0] else ss[0] + [0] + Joined(ss[1..])
  }

  ghost predicate PropHolds(strings: seq<Byte>, data: seq<Byte>, r: PropRec, p: Property) {
    && Stored(strings, r.name, p.name)
    && match p.value
       case Flag(on) => r.kind == BOOL && r.value == (if on then 1 else 0) && r.size == 0
       case Number(n) => r.kind == NUMBER && r.value == n && r.size == 4
       case Str(s) => r.kind == STRING && Stored(strings, r.value, s)
       case Numbers(ns) => r.kind == NUMBERS && r.size == 4 * |ns| && Words(data, r.value, ns)
       case Strs(ss) => r.kind == STRINGS && r.size == |Joined(ss)| && Carries(data, r.value, Joined(ss))
  }

  ghost predicate NodeHolds(strings: seq<Byte>, data: seq<Byte>, props: seq<PropRec>, r: NodeRec, n: Node) {
    && Stored(strings, r.path, n.path) && Stored(strings, r.name, NodeName(n.path)) &&
      Stored(strings, r.parent, ParentPath(n.path))
    && r.count == |n.props| && r.start + r.count <= |props|
    && forall p :: 0 <= p < |n.props| ==> PropHolds(strings, data, props[r.start + p], n.props[p])
  }

  /** The property records of a node carry its number. */
  ghost predicate Marked(props: seq<PropRec>, nodes: seq<NodeRec>, j: nat) {
    j < |nodes| ==>
      forall q :: nodes[j].start <= q < nodes[j].start + nodes[j].count && q < |props| ==> props[q].node == j
  }

  predicate RunWithin(nodes: seq<NodeRec>, j: nat, props: nat) {
    j < |nodes| ==> nodes[j].start + nodes[j].count <= props
  }

  /** The image says what the nodes say. */
  ghost predicate Encodes(m: Image, doc: seq<Node>) {
    |m.nodes| == |doc| && forall i :: 0 <= i < |doc| ==> NodeHolds(m.strings, m.data, m.props, m.nodes[i], doc[i])
  }

  // ----- appending keeps what was said

  ghost predicate Extends<T>(a: seq<T>, b: seq<T>) { |a| <= |b| && forall k :: 0 <= k < |a| ==> b[k] == a[k] }

  lemma StoredLater(a: seq<Byte>, b: seq<Byte>, at: nat, t: Text)
    requires Stored(a, at, t) && Extends(a, b)
    ensures Stored(b, at, t)
  {}

  lemma PropLater(s: seq<Byte>, s': seq<Byte>, d: seq<Byte>, d': seq<Byte>, r: PropRec, p: Property)
    requires PropHolds(s, d, r, p) && Extends(s, s') && Extends(d, d')
    ensures PropHolds(s', d', r, p)
  {
    StoredLater(s, s', r.name, p.name);
    match p.value {
      case Str(t) => StoredLater(s, s', r.value, t);
      case Numbers(ns) =>
        forall k | 0 <= k < |ns| ensures Word32(d'[r.value + 4 * k..r.value + 4 * k + 4]) == ns[k] {
          assert d'[r.value + 4 * k..r.value + 4 * k + 4] == d[r.value + 4 * k..r.value + 4 * k + 4];
        }
      case _ =>
    }
  }

  lemma NodeLater(s: seq<Byte>, s': seq<Byte>, d: seq<Byte>, d': seq<Byte>, ps: seq<PropRec>, ps': seq<PropRec>,
          r: NodeRec, n: Node)
    requires NodeHolds(s, d, ps, r, n) && Extends(s, s') && Extends(d, d') && Extends(ps, ps')
    ensures NodeHolds(s', d', ps', r, n)
  {
    hide PropHolds;
    StoredLater(s, s', r.path, n.path);
    StoredLater(s, s', r.name, NodeName(n.path));
    StoredLater(s, s', r.parent, ParentPath(n.path));
    forall p | 0 <= p < |n.props| ensures PropHolds(s', d', ps'[r.start + p], n.props[p]) {
      PropLater(s, s', d, d', ps[r.start + p], n.props[p]);
    }
  }

  // ----- how large an overlay gets

  /** The bytes of these texts, each with a zero byte behind it. */
  ghost function TextsSize(ts: set<Text>): nat {
    if ts == {} then 0
    else
      var t :| t in ts;
      TextsSize(ts - {t}) + |t| + 1
  }

  lemma {:induction false} TextsSizeAdd(ts: set<Text>, t: Text)
    requires t !in ts
    ensures TextsSize(ts + {t}) == TextsSize(ts) + |t| + 1
    decreases |ts|
  {
    var all := ts + {t};
    var u :| u in all && TextsSize(all) == TextsSize(all - {u}) + |u| + 1;
    if u == t {
      assert all - {u} == ts;
    } else {
      assert all - {u} == (ts - {u}) + {t};
      TextsSizeAdd(ts - {u}, t);
      TextsSizeAdd(ts - {u}, u);
      assert (ts - {u}) + {u} == ts;
    }
  }

  /** The texts that the first k properties of a node put into the string table. */
  function PropTexts(n: Node, k: nat): set<Text>
    requires k <= |n.props|
  {
    if k == 0 then {} else PropTexts(n, k - 1) + TextsOf(n.props[k - 1])
  }

  function TextsOf(p: Property): set<Text> { {p.name} + if p.value.Str? then {p.value.s} else {} }

  /** The texts of the first i nodes. */
  function Texts(doc: seq<Node>, i: nat): set<Text>
    requires i <= |doc|
  {
    if i == 0 then {}
    else
      var n := doc[i - 1];
      Texts(doc, i - 1) + PropTexts(n, |n.props|) + {n.path, NodeName(n.path), ParentPath(n.path)}
  }

  /** The array data of a value. */
  function DataOf(v: Value): nat { if v.Numbers? then 4 * |v.ns| else if v.Strs? then |Joined(v.ss)| else 0 }

  function PropData(n: Node, k: nat): nat
    requires k <= |n.props|
  {
    if k == 0 then 0 else PropData(n, k - 1) + DataOf(n.props[k - 1].value)
  }

  function Data(doc: seq<Node>, i: nat): nat
    requires i <= |doc|
  {
    if i == 0 then 0 else Data(doc, i - 1) + PropData(doc[i - 1], |doc[i - 1].props|)
  }

  function Props(doc: seq<Node>, i: nat): nat
    requires i <= |doc|
  {
    if i == 0 then 0 else Props(doc, i - 1) + |doc[i - 1].props|
  }

  /** The four sections are small enough for the words that count and address them. */
  ghost predicate Small(doc: seq<Node>) {
    && TextsSize(Texts(doc, |doc|)) < U32 && |doc| < U32 && Props(doc, |doc|) < U32 && Data(doc, |doc|) < U32
  }

  ghost function BlobSize(doc: seq<Node>): nat {
    HEADER_SIZE + TextsSize(Texts(doc, |doc|)) + RECORD_SIZE * |doc| + RECORD_SIZE * Props(doc, |doc|) +
      Data(doc, |doc|)
  }

  /** A record addresses and counts within sections of these sizes. */
  predicate RecFits(r: PropRec, strings: nat, data: nat, nodes: nat) {
    && r.node <= nodes && r.name < strings && r.kind < U32
    && (r.value < U32 || r.value < strings || r.value <= data) && (r.size <= 4 || r.size < strings || r.size <= data)
  }

  predicate NodeRecFits(r: NodeRec, strings: nat, props: nat) {
    r.path < strings && r.name < strings && r.parent < strings && r.start <= props && r.count <= props
  }

  /** When all records fit their sections, the sections decide. */
  lemma PackableIff(m: Image)
    requires forall q :: 0 <= q < |m.props| ==> RecFits(m.props[q], |m.strings|, |m.data|, |m.nodes|)
    requires forall j :: 0 <= j < |m.nodes| ==> NodeRecFits(m.nodes[j], |m.strings|, |m.props|)
    ensures Packable(m) <==> |m.strings| < U32 && |m.nodes| < U32 && |m.props| < U32 && |m.data| < U32
  {}

  lemma FitsLater(ps: seq<PropRec>, s: nat, d: nat, n: nat, s': nat, d': nat, n': nat)
    requires s <= s' && d <= d' && n <= n' && forall q :: 0 <= q < |ps| ==> RecFits(ps[q], s, d, n)
    ensures forall q :: 0 <= q < |ps| ==> RecFits(ps[q], s', d', n')
  {}

  lemma RecordFits(r: NodeRec, strings: seq<Byte>, n: Node, props: nat)
    requires Stored(strings, r.path, n.path) && Stored(strings, r.name, NodeName(n.path)) &&
             Stored(strings, r.parent, ParentPath(n.path)) && r.start + r.count <= props
    ensures NodeRecFits(r, |strings|, props)
  {}

  lemma NodesFitLater(ns: seq<NodeRec>, s: nat, p: nat, s': nat, p': nat)
    requires s <= s' && p <= p' && forall j :: 0 <= j < |ns| ==> NodeRecFits(ns[j], s, p)
    ensures forall j :: 0 <= j < |ns| ==> NodeRecFits(ns[j], s', p')
  {}

  // ----- the string table

  class StringTable {
    var offsets: map<Text, nat>
    var data: seq<Byte>

    ghost predicate Valid()
      reads this
    {
      (forall v :: v in offsets ==> Stored(data, offsets[v], v)) && |data| == TextsSize(offsets.Keys)
    }

    constructor ()
      ensures Valid() && data == [] && offsets == map[]
    {
      offsets, data := map[], [];
    }

    /** A text already stored is not stored again. */
    method Add(value: Text) returns (offset: nat)
      requires Valid()
      modifies this
      ensures Valid() && Stored(data, offset, value) && Extends(old(data), data)
      ensures value in old(offsets) ==> data == old(data) && offsets == old(offsets)
      ensures offsets.Keys == old(offsets.Keys) + {value}
    {
      if value in offsets { return offsets[value]; }
      TextsSizeAdd(offsets.Keys, value);
      assert offsets[value := |data|].Keys == offsets.Keys + {value};
      offset := |data|;
      ghost var before := data;
      offsets := offsets[value := offset];
      data := data + value + [0];
      forall v | v in offsets ensures Stored(data, offsets[v], v) {
        if v != value { StoredLater(before, data, offsets[v], v); }
      }
    }
  }

  // ----- packing

  class Packer {
    const strings: StringTable
    var data: seq<Byte>
    var props: seq<PropRec>
    var nodes: seq<NodeRec>

    constructor ()
      ensures fresh(strings) && Valid() && data == [] && props == [] && nodes == [] && strings.offsets == map[]
    {
      strings := new StringTable();
      data, props, nodes := [], [], [];
    }

    ghost predicate Valid()
      reads this, strings
    {
      && strings.Valid()
      && (forall q :: 0 <= q < |props| ==> RecFits(props[q], |strings.data|, |data|, |nodes|))
      && (forall j :: 0 <= j < |nodes| ==> NodeRecFits(nodes[j], |strings.data|, |props|))
    }

    method PackProperty(p: Property)
      requires Valid() && (p.value.Number? ==> p.value.n < U32)
      requires p.value.Numbers? ==> forall k :: 0 <= k < |p.value.ns| ==> p.value.ns[k] < U32
      modifies `data, `props, strings
      ensures Valid() && Extends(old(strings.data), strings.data) && Extends(old(data), data)
      ensures |props| == |old(props)| + 1 && Extends(old(props), props)
      ensures PropHolds(strings.data, data, props[|old(props)|], p) && props[|old(props)|].node == |nodes|
      ensures strings.offsets.Keys == old(strings.offsets.Keys) + TextsOf(p) && |data| == |old(data)| + DataOf(p.value)
    {
      hide PropHolds, RecFits, NodeRecFits, TextsOf, DataOf, StringTable.Valid;
      ghost var s, d := |strings.data|, |data|;
      var record := MakeRecord(p, |nodes|);
      FitsLater(props, s, d, |nodes|, |strings.data|, |data|, |nodes|);
      NodesFitLater(nodes, s, |props|, |strings.data|, |props| + 1);
      props := props + [record];
    }

    method MakeRecord(p: Property, at: nat) returns (record: PropRec)
      requires strings.Valid() && (p.value.Number? ==> p.value.n < U32)
      requires p.value.Numbers? ==> forall k :: 0 <= k < |p.value.ns| ==> p.value.ns[k] < U32
      modifies `data, strings
      ensures strings.Valid() && Extends(old(strings.data), strings.data) && Extends(old(data), data)
      ensures PropHolds(strings.data, data, record, p)
      ensures RecFits(record, |strings.data|, |data|, at) && record.node == at
      ensures strings.offsets.Keys == old(strings.offsets.Keys) + TextsOf(p) && |data| == |old(data)| + DataOf(p.value)
    {
      hide Joined, StringTable.Valid;
      var name := strings.Add(p.name);
      ghost var s := strings.data;
      match p.value {
        case Flag(on) => record := PropRec(at, name, BOOL, if on then 1 else 0, 0);
        case Number(n) => record := PropRec(at, name, NUMBER, n, 4);
        case Str(t) =>
          var value := strings.Add(t);
          StoredLater(s, strings.data, name, p.name);
          record := PropRec(at, name, STRING, value, |t|);
        case Numbers(ns) =>
          var offset := |data|;
          PackNumbers(ns);
          record := PropRec(at, name, NUMBERS, offset, 4 * |ns|);
        case Strs(ss) =>
          var offset := |data|;
          var joined := Joined(ss);
          data := data + joined;
          record := PropRec(at, name, STRINGS, offset, |joined|);
      }
    }

    method PackNumbers(ns: seq<nat>)
      requires forall k :: 0 <= k < |ns| ==> ns[k] < U32
      modifies `data
      ensures Extends(old(data), data) && Words(data, |old(data)|, ns) && |data| == |old(data)| + 4 * |ns|
    {
      ghost var start := |data|;
      var i := 0;
      while i < |ns|
        invariant 0 <= i <= |ns| && |data| == start + 4 * i && Extends(old(data), data)
        invariant forall k :: 0 <= k < i ==> Word32(data[start + 4 * k..start + 4 * k + 4]) == ns[k]
      {
        ghost var before := data;
        data := data + Le32(ns[i]);
        forall k | 0 <= k < i + 1 ensures Word32(data[start + 4 * k..start + 4 * k + 4]) == ns[k] {
          if k < i { assert data[start + 4 * k..start + 4 * k + 4] == before[start + 4 * k..start + 4 * k + 4]; }
          else { assert data[start + 4 * k..start + 4 * k + 4] == Le32(ns[i]); }
        }
        i := i + 1;
      }
    }

    method PackNode(n: Node)
      requires Valid() && ValuesFit(n)
      modifies `data, `props, `nodes, strings
      ensures Valid() && Extends(old(strings.data), strings.data) && Extends(old(data), data) &&
              Extends(old(props), props)
      ensures |nodes| == |old(nodes)| + 1 && Extends(old(nodes), nodes)
      ensures NodeHolds(strings.data, data, props, nodes[|old(nodes)|], n)
      ensures nodes[|old(nodes)|].start == |old(props)| && nodes[|old(nodes)|].count == |n.props|
      ensures forall q :: |old(props)| <= q < |props| ==> props[q].node == |old(nodes)|
      ensures strings.offsets.Keys ==
              old(strings.offsets.Keys) + PropTexts(n, |n.props|) + {n.path, NodeName(n.path), ParentPath(n.path)}
      ensures |data| == |old(data)| + PropData(n, |n.props|) && |props| == |old(props)| + |n.props|
    {
      hide PropHolds, NodeName, ParentPath, StringTable.Valid, RecFits, NodeRecFits, TextsOf, DataOf;
      var start := |props|;
      var p := 0;
      while p < |n.props|
        invariant 0 <= p <= |n.props| && Valid() && nodes == old(nodes)
        invariant strings.offsets.Keys == old(strings.offsets.Keys) + PropTexts(n, p)
        invariant |data| == |old(data)| + PropData(n, p)
        invariant Extends(old(strings.data), strings.data) && Extends(old(data), data) && Extends(old(props), props)
        invariant |props| == start + p
        invariant forall q :: 0 <= q < p ==> PropHolds(strings.data, data, props[start + q], n.props[q])
        invariant forall q :: start <= q < |props| ==> props[q].node == |nodes|
      {
        ghost var s, d, ps := strings.data, data, props;
        PackProperty(n.props[p]);
        forall q | 0 <= q < p + 1 ensures PropHolds(strings.data, data, props[start + q], n.props[q]) {
          if q < p { PropLater(s, strings.data, d, data, ps[start + q], n.props[q]); }
        }
        p := p + 1;
      }
      AddNodeRecord(n, start);
    }

    method AddNodeRecord(n: Node, start: nat)
      requires Valid() && start + |n.props| == |props|
      requires forall q :: 0 <= q < |n.props| ==> PropHolds(strings.data, data, props[start + q], n.props[q])
      modifies `nodes, strings
      ensures Valid() && Extends(old(strings.data), strings.data)
      ensures |nodes| == |old(nodes)| + 1 && Extends(old(nodes), nodes)
      ensures NodeHolds(strings.data, data, props, nodes[|old(nodes)|], n)
      ensures nodes[|old(nodes)|].start == start && nodes[|old(nodes)|].count == |n.props|
      ensures strings.offsets.Keys == old(strings.offsets.Keys) + {n.path, NodeName(n.path), ParentPath(n.path)}
    {
      hide PropHolds, NodeName, ParentPath, StringTable.Valid, RecFits, NodeRecFits;
      ghost var size := |strings.data|;
      ghost var s := strings.data;
      var path := strings.Add(n.path);
      ghost var s1 := strings.data;
      var name := strings.Add(NodeName(n.path));
      ghost var s2 := strings.data;
      var parent := strings.Add(ParentPath(n.path));
      StoredLater(s1, strings.data, path, n.path);
      StoredLater(s2, strings.data, name, NodeName(n.path));
      forall q | 0 <= q < |n.props| ensures PropHolds(strings.data, data, props[start + q], n.props[q]) {
        PropLater(s, strings.data, data, data, props[start + q], n.props[q]);
      }
      FitsLater(props, size, |data|, |nodes|, |strings.data|, |data|, |nodes| + 1);
      NodesFitLater(nodes, size, |props|, |strings.data|, |props|);
      var record := NodeRec(path, name, parent, start, |props| - start);
      RecordFits(record, strings.data, n, |props|);
      nodes := nodes + [record];
    }
  }

  /** Numbers were checked to fit 32 bits when they were collected. */
  predicate ValuesFit(n: Node) {
    forall p | 0 <= p < |n.props| ::
      (n.props[p].value.Number? ==> n.props[p].value.n < U32)
      && (n.props[p].value.Numbers? ==> forall k | 0 <= k < |n.props[p].value.ns| :: n.props[p].value.ns[k] < U32)
  }

  /** Packs the nodes.  There is an overlay exactly when the texts, counted once each, the records and
      the array data are small enough for 32-bit words; its size is theirs and it reads back as the
      nodes. */
  method BuildBlob(doc: seq<Node>) returns (blob: Option<seq<Byte>>)
    requires forall i :: 0 <= i < |doc| ==> ValuesFit(doc[i])
    ensures blob.Some? <==> Small(doc)
    ensures blob.Some? ==>
              && |blob.value| == BlobSize(doc) && Parse(blob.value).Some? && Encodes(Parse(blob.value).value, doc)
              && Packable(Parse(blob.value).value) && blob.value == Blob(Parse(blob.value).value)
    ensures blob.Some? ==> forall j: nat :: Marked(Parse(blob.value).value.props, Parse(blob.value).value.nodes, j)
  {
    hide NodeHolds, Packable, Blob, Parse, StringTable.Valid, RecFits, NodeRecFits, TextsSize, PropTexts, PropData,
         NodeName,
         ParentPath, ValuesFit;
    var packer := new Packer();
    var i := 0;
    while i < |doc|
      invariant 0 <= i <= |doc| && packer.Valid() && fresh(packer) && fresh(packer.strings) && |packer.nodes| == i
      invariant packer.strings.offsets.Keys == Texts(doc, i)
      invariant |packer.data| == Data(doc, i) && |packer.props| == Props(doc, i)
      invariant forall j :: 0 <= j < i ==>
                  NodeHolds(packer.strings.data, packer.data, packer.props, packer.nodes[j], doc[j])
      invariant forall j: nat :: Marked(packer.props, packer.nodes, j) && RunWithin(packer.nodes, j, |packer.props|)
    {
      ghost var s, d, ps, ns := packer.strings.data, packer.data, packer.props, packer.nodes;
      packer.PackNode(doc[i]);
      forall j: nat ensures Marked(packer.props, packer.nodes, j) && RunWithin(packer.nodes, j, |packer.props|) {
        assert Marked(ps, ns, j) && RunWithin(ns, j, |ps|);
        if j == |ns| { assert packer.nodes[j].start == |ps|; }
      }
      forall j | 0 <= j < i + 1
        ensures NodeHolds(packer.strings.data, packer.data, packer.props, packer.nodes[j], doc[j])
      {
        if j < i { NodeLater(s, packer.strings.data, d, packer.data, ps, packer.props, ns[j], doc[j]); }
      }
      i := i + 1;
    }
    var m := Image(packer.strings.data, packer.nodes, packer.props, packer.data);
    TableSize(packer.strings);
    PackableIff(m);
    if Packable(m) {
      BlobParses(m);
      blob := Some(Blob(m));
    } else {
      blob := None;
    }
  }

  lemma TableSize(t: StringTable)
    requires t.Valid()
    ensures |t.data| == TextsSize(t.offsets.Keys)
  {}

  lemma BlobParses(m: Image)
    requires Packable(m)
    ensures Parse(Blob(m)) == Some(m)
    ensures |Blob(m)| == HEADER_SIZE + |m.strings| + RECORD_SIZE * |m.nodes| + RECORD_SIZE * |m.props| + |m.data|
  {
    ParseBlob(m);
    BlobParts(m);
    PayloadParts(m);
  }

  /** What the compiler packs, the loader's parser reads back. */
  lemma BuildParses(m: Image, doc: seq<Node>)
    requires Encodes(m, doc) && Packable(m)
    ensures Parse(Blob(m)).Some? && Encodes(Parse(Blob(m)).value, doc)
  {
    ParseBlob(m);
  }
}
