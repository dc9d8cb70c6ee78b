/** The overlay loader: an overlay is merged into the kernel's tree of nodes and properties, whose
    texts and counts are limited. */
module OverlayTree {
  import opened Bytes
  import opened OverlayFormat
  import opened OverlayCompile

  const MAX_NODES := 64
  const MAX_PROPS := 192
  const NODE_PROPS := 16
  const MAX_OVERLAYS := 16
  const NAME_SIZE := 64
  const PATH_SIZE := 96
  const VALUE_SIZE := 96
  const WORDS := 8

  // ----- C strings

  function CString(t: Text): (r: Text)
    ensures |r| <= |t|
    decreases |t|
  {
    if t == [] || t[0] == 0 then [] else [t[0]] + CString(t[1..])
  }

  /** Copied into a field of `size` bytes, the last of which is the zero. */
  function Clip(t: Text, size: nat): Text
    requires size > 0
  {
    var c := CString(t);
    if |c| < size then c else c[..size - 1]
  }

  predicate Plain(t: Text, size: nat) { 0 !in t && |t| < size }

  lemma {:induction false} PlainCString(t: Text)
    requires 0 !in t
    ensures CString(t) == t
    decreases |t|
  {
    if t != [] {
      PlainCString(t[1..]);
      assert t == [t[0]] + t[1..];
    }
  }

  lemma {:induction false} CStringPlain(t: Text)
    ensures 0 !in CString(t)
    decreases |t|
  {
    if t != [] && t[0] != 0 { CStringPlain(t[1..]); }
  }

  /** A field holds a text whole exactly when it is short enough and has no zero byte. */
  lemma ClipExactIff(t: Text, size: nat)
    requires size > 0
    ensures Clip(t, size) == t <==> Plain(t, size)
  {
    CStringPlain(t);
    if 0 !in t { PlainCString(t); }
    if Clip(t, size) == t {
      assert forall k :: 0 <= k < |t| ==> t[k] == CString(t)[k];
    }
  }

  /** The string at an offset of the table, if it ends inside the table. */
  function StringAt(table: seq<Byte>, at: nat): Option<Text> {
    if at >= |table| || 0 !in table[at..] then None else Some(CString(table[at..]))
  }

  lemma {:induction false} CStringOf(s: seq<Byte>, t: Text)
    requires |t| < |s| && s[|t|] == 0 && forall k :: 0 <= k < |t| ==> s[k] == t[k]
    ensures CString(s) == CString(t)
    decreases |t|
  {
    if t != [] && t[0] != 0 { CStringOf(s[1..], t[1..]); }
  }

  lemma StoredIsRead(table: seq<Byte>, at: nat, t: Text)
    requires Stored(table, at, t)
    ensures StringAt(table, at) == Some(CString(t))
  {
    assert table[at..][|t|] == 0;
    CStringOf(table[at..], t);
  }

  // ----- what a property holds once loaded

  datatype Held = HFlag(on: bool) | HNumber(n: nat) | HString(s: Text) | HNumbers(ns: seq<nat>) | HStrings(first: Text)

  function First(ss: seq<Text>): Text { if ss == [] then [] else ss[0] }

  /** Strings are cut at a zero byte or 95 bytes, arrays of numbers at eight, and of an array of
      strings only the first is kept. */
  function Loaded(v: Value): Held {
    match v
    case Flag(on) => HFlag(on)
    case Number(n) => HNumber(n)
    case Str(s) => HString(Clip(s, VALUE_SIZE))
    case Numbers(ns) => HNumbers(if |ns| <= WORDS then ns else ns[..WORDS])
    case Strs(ss) => HStrings(Clip(First(ss), VALUE_SIZE))
  }

  function Meaning(h: Held): Value {
    match h
    case HFlag(on) => Flag(on)
    case HNumber(n) => Number(n)
    case HString(s) => Str(s)
    case HNumbers(ns) => Numbers(ns)
    case HStrings(first) => Strs([first])
  }

  predicate WithinLimits(v: Value) {
    match v
    case Flag(_) => true
    case Number(_) => true
    case Str(s) => Plain(s, VALUE_SIZE)
    case Numbers(ns) => |ns| <= WORDS
    case Strs(ss) => |ss| == 1 && Plain(ss[0], VALUE_SIZE)
  }

  /** A value survives loading exactly when it is within the loader's limits. */
  lemma LoadedExactIff(v: Value)
    ensures Meaning(Loaded(v)) == v <==> WithinLimits(v)
  {
    match v {
      case Str(s) => ClipExactIff(s, VALUE_SIZE);
      case Strs(ss) =>
        ClipExactIff(First(ss), VALUE_SIZE);
        if Meaning(Loaded(v)) == v { assert ss == [Clip(First(ss), VALUE_SIZE)]; }
      case _ =>
    }
  }

  /** What is kept of a text is all of it up to a zero byte, or as much as fits the field. */
  lemma ClipCuts(t: Text, size: nat)
    requires size > 0
    ensures var c := Clip(t, size);
            && c <= t && 0 !in c && |c| < size
            && (|c| == |t| || |c| == size - 1 || t[|c|] == 0)
  {
    CStringCuts(t);
  }

  lemma {:induction false} CStringCuts(t: Text)
    ensures CString(t) <= t && 0 !in CString(t) && (|CString(t)| == |t| || t[|CString(t)|] == 0)
    decreases |t|
  {
    if t != [] && t[0] != 0 { CStringCuts(t[1..]); }
  }

  /** A value beyond the limits is loaded as the longest part of it that fits: 95 bytes of a text up to a
      zero byte, eight numbers, and of several texts the first. */
  lemma LoadedCuts(v: Value)
    ensures match Loaded(v)
            case HFlag(on) => v == Flag(on)
            case HNumber(n) => v == Number(n)
            case HString(s) => v.Str? && CutTo95(v.s, s)
            case HNumbers(ns) => v.Numbers? && ns <= v.ns && |ns| == if |v.ns| <= 8 then |v.ns| else 8
            case HStrings(first) => v.Strs? && CutTo95(if v.ss == [] then [] else v.ss[0], first)
  {
    match v {
      case Str(s) => ClipCuts(s, VALUE_SIZE);
      case Strs(ss) => ClipCuts(First(ss), VALUE_SIZE);
      case _ =>
    }
  }

  predicate CutTo95(t: Text, c: Text) {
    c <= t && 0 !in c && |c| <= 95 && (|c| == |t| || |c| == 95 || t[|c|] == 0)
  }

  // ----- the tree as maps

  datatype Info = Info(name: Text, parent: Text, moduleName: Text)

  type Key = (Text, Text)   // path and property name

  datatype Spec = Spec(nodes: map<Text, Info>, props: map<Key, Held>)

  /** A node that is there keeps its name and parent unless the overlay gives new ones. */
  function PutNode(s: Spec, path: Text, name: Text, parent: Text): Spec {
    if path in s.nodes then
      var i := s.nodes[path];
      s.(nodes := s.nodes[path := Info(if CString(name) != [] then Clip(name, NAME_SIZE) else i.name,
                                       if CString(parent) != [] then Clip(parent, PATH_SIZE)
                                         else i.parent, i.moduleName)])
    else s.(nodes := s.nodes[path := Info(Clip(name, NAME_SIZE), Clip(parent, PATH_SIZE), [])])
  }

  const MODULE: Text := [109, 111, 100, 117, 108, 101]

  /** A property named "module" is also kept in the node. */
  function PutProp(s: Spec, path: Text, p: Property): Spec {
    var t := s.(props := s.props[(path, p.name) := Loaded(p.value)]);
    if p.value.Str? && p.name == MODULE && path in s.nodes
    then t.(nodes := s.nodes[path := s.nodes[path].(moduleName := Clip(p.value.s, NAME_SIZE))]) else t
  }

  function PutProps(s: Spec, n: Node, p: nat): Spec
    requires p <= |n.props|
    decreases |n.props| - p
  {
    if p == |n.props| then s else PutProps(PutProp(s, n.path, n.props[p]), n, p + 1)
  }

  function PutAll(s: Spec, doc: seq<Node>, i: nat): Spec
    requires i <= |doc|
    decreases |doc| - i
  {
    if i == |doc| then s
    else PutAll(PutProps(PutNode(s, doc[i].path, NodeName(doc[i].path), ParentPath(doc[i].path)), doc[i], 0), doc, i +
        1)
  }

  ghost function PropsOf(s: Spec, path: Text): set<Key> { set k | k in s.props && k.0 == path }

  ghost predicate NodeFits(s: Spec, path: Text) { |PropsOf(s, path)| <= NODE_PROPS }

  /** The loader's counts. */
  ghost predicate Fits(s: Spec) {
    |s.nodes| <= MAX_NODES && |s.props| <= MAX_PROPS && forall path :: NodeFits(s, path)
  }

  ghost predicate Within(a: Spec, b: Spec) { a.nodes.Keys <= b.nodes.Keys && a.props.Keys <= b.props.Keys }

  lemma SetWithin<T>(a: set<T>, b: set<T>)
    requires a <= b
    ensures |a| <= |b|
  {
    assert b == a + (b - a);
  }

  lemma FitsWithin(a: Spec, b: Spec)
    requires Within(a, b) && Fits(b)
    ensures Fits(a)
  {
    SetWithin(a.nodes.Keys, b.nodes.Keys);
    SetWithin(a.props.Keys, b.props.Keys);
    forall path ensures NodeFits(a, path) {
      assert NodeFits(b, path);
      SetWithin(PropsOf(a, path), PropsOf(b, path));
    }
  }

  lemma {:induction false} PropsGrow(s: Spec, n: Node, p: nat)
    requires p <= |n.props|
    ensures Within(s, PutProps(s, n, p))
    decreases |n.props| - p
  {
    if p < |n.props| { PropsGrow(PutProp(s, n.path, n.props[p]), n, p + 1); }
  }

  lemma {:induction false} AllGrow(s: Spec, doc: seq<Node>, i: nat)
    requires i <= |doc|
    ensures Within(s, PutAll(s, doc, i))
    decreases |doc| - i
  {
    if i < |doc| {
      var t := PutNode(s, doc[i].path, NodeName(doc[i].path), ParentPath(doc[i].path));
      PropsGrow(t, doc[i], 0);
      AllGrow(PutProps(t, doc[i], 0), doc, i + 1);
    }
  }

  // ----- the merge is a union, and the later value wins

  ghost predicate DistinctNames(n: Node) {
    forall p, q :: 0 <= p < q < |n.props| ==> n.props[p].name != n.props[q].name
  }

  ghost predicate DistinctPaths(doc: seq<Node>) {
    && (forall i, j :: 0 <= i < j < |doc| ==> doc[i].path != doc[j].path)
    && (forall i :: 0 <= i < |doc| ==> DistinctNames(doc[i]))
  }

  predicate Gives(n: Node, from: nat, p: nat, k: Key) {
    from <= p < |n.props| && k == (n.path, n.props[p].name)
  }

  ghost predicate Given(n: Node, from: nat, k: Key) { exists p: nat :: Gives(n, from, p, k) }

  lemma {:induction false} PropsMerge(s: Spec, n: Node, from: nat, k: Key)
    requires from <= |n.props| && DistinctNames(n)
    ensures var t := PutProps(s, n, from);
            && (k in t.props <==> k in s.props || Given(n, from, k))
            && (forall p: nat :: Gives(n, from, p, k) ==> k in t.props && t.props[k] == Loaded(n.props[p].value))
            && (!Given(n, from, k) && k in s.props ==> t.props[k] == s.props[k])
            && t.nodes.Keys == s.nodes.Keys
    decreases |n.props| - from
  {
    if from < |n.props| {
      var u := PutProp(s, n.path, n.props[from]);
      PropsMerge(u, n, from + 1, k);
      GivesSplit(n, from, from + 1, k);
    }
  }

  lemma GivesSplit(n: Node, from: nat, next: nat, k: Key)
    requires from < |n.props| && next == from + 1 && DistinctNames(n)
    ensures forall p: nat :: Gives(n, from, p, k) <==>
            (p == from && k == (n.path, n.props[from].name)) || Gives(n, next, p, k)
    ensures k == (n.path, n.props[from].name) ==> Gives(n, from, from, k) && !Given(n, next, k)
    ensures Given(n, from, k) <==> k == (n.path, n.props[from].name) || Given(n, next, k)
  {
    if p: nat :| Gives(n, next, p, k) { assert Gives(n, from, p, k); }
    if k == (n.path, n.props[from].name) { assert Gives(n, from, from, k); }
  }

  predicate From(doc: seq<Node>, i: nat, j: nat) { i <= j < |doc| }

  ghost predicate GivenBy(doc: seq<Node>, i: nat, k: Key) {
    exists j: nat :: From(doc, i, j) && Given(doc[j], 0, k)
  }

  ghost predicate PathBy(doc: seq<Node>, i: nat, path: Text) {
    exists j: nat :: From(doc, i, j) && doc[j].path == path
  }

  lemma GivenSplit(doc: seq<Node>, i: nat, next: nat, k: Key, path: Text)
    requires i < |doc| && next == i + 1 && DistinctPaths(doc)
    ensures GivenBy(doc, i, k) <==> Given(doc[i], 0, k) || GivenBy(doc, next, k)
    ensures Given(doc[i], 0, k) ==> !GivenBy(doc, next, k)
    ensures PathBy(doc, i, path) <==> doc[i].path == path || PathBy(doc, next, path)
  {
    assert From(doc, i, i);
    if j: nat :| From(doc, next, j) && Given(doc[j], 0, k) {
      assert From(doc, i, j);
      var p: nat :| Gives(doc[j], 0, p, k);
      assert doc[j].path == k.0 && doc[i].path != doc[j].path;
    }
    if j: nat :| From(doc, next, j) && doc[j].path == path { assert From(doc, i, j); }
  }

  /** Loading gives the union of the tree and the overlay; where both have a property, the overlay's
      value stands. */
  lemma {:induction false} AllMerge(s: Spec, doc: seq<Node>, i: nat, k: Key, path: Text)
    requires i <= |doc| && DistinctPaths(doc)
    ensures var t := PutAll(s, doc, i);
            && (path in t.nodes <==> path in s.nodes || PathBy(doc, i, path))
            && (k in t.props <==> k in s.props || GivenBy(doc, i, k))
            && (!GivenBy(doc, i, k) && k in s.props ==> t.props[k] == s.props[k])
            && (forall j: nat, p: nat :: From(doc, i, j) && Gives(doc[j], 0, p, k) ==>
                  k in t.props && t.props[k] == Loaded(doc[j].props[p].value))
    decreases |doc| - i
  {
    if i < |doc| {
      var n := doc[i];
      var u := PutNode(s, n.path, NodeName(n.path), ParentPath(n.path));
      var v := PutProps(u, n, 0);
      PropsMerge(u, n, 0, k);
      AllMerge(v, doc, i + 1, k, path);
      GivenSplit(doc, i, i + 1, k, path);
      forall j: nat, p: nat | From(doc, i, j) && Gives(doc[j], 0, p, k)
        ensures k in PutAll(s, doc, i).props && PutAll(s, doc, i).props[k] == Loaded(doc[j].props[p].value)
      {
        assert Given(doc[j], 0, k);
        if j > i { assert From(doc, i + 1, j); }
      }
    }
  }

  /** What the tree knows a node by, besides its path. */
  function Look(s: Spec, path: Text): Option<(Text, Text)> {
    if path in s.nodes then Some((s.nodes[path].name, s.nodes[path].parent)) else None
  }

  lemma {:induction false} PropsKeepLooks(s: Spec, n: Node, p: nat, path: Text)
    requires p <= |n.props|
    ensures Look(PutProps(s, n, p), path) == Look(s, path)
    decreases |n.props| - p
  {
    if p < |n.props| { PropsKeepLooks(PutProp(s, n.path, n.props[p]), n, p + 1, path); }
  }

  /** Each node of the overlay is called after its path, and no other node is renamed. */
  lemma {:induction false} NamedAfterPath(s: Spec, doc: seq<Node>, i: nat, path: Text)
    requires i <= |doc| && DistinctPaths(doc)
    ensures Look(PutAll(s, doc, i), path) ==
            if PathBy(doc, i, path) then Look(PutNode(s, path, NodeName(path), ParentPath(path)), path)
              else Look(s, path)
    decreases |doc| - i
  {
    if i < |doc| {
      var u := PutNode(s, doc[i].path, NodeName(doc[i].path), ParentPath(doc[i].path));
      PropsKeepLooks(u, doc[i], 0, path);
      NamedAfterPath(PutProps(u, doc[i], 0), doc, i + 1, path);
      GivenSplit(doc, i, i + 1, (path, path), path);
    }
  }

  /** The tree after a reset. */
  const RESET: Spec := Spec(map[[SLASH] := Info([], [], [])], map[])

  /** Loading into a reset tree gives exactly the overlay's nodes, and the root, and exactly its
      properties; those within the limits with exactly their values. */
  lemma ResetLoad(doc: seq<Node>, k: Key, path: Text)
    requires DistinctPaths(doc)
    ensures var t := PutAll(RESET, doc, 0);
            && (path in t.nodes <==> path == [SLASH] || PathBy(doc, 0, path))
            && (k in t.props <==> GivenBy(doc, 0, k))
            && (forall j: nat, p: nat :: From(doc, 0, j) && Gives(doc[j], 0, p, k) ==>
                  (Meaning(t.props[k]) == doc[j].props[p].value <==> WithinLimits(doc[j].props[p].value)))
  {
    AllMerge(RESET, doc, 0, k, path);
    forall j: nat, p: nat | From(doc, 0, j) && Gives(doc[j], 0, p, k)
      ensures Meaning(PutAll(RESET, doc, 0).props[k]) == doc[j].props[p].value <==> WithinLimits(doc[j].props[p].value)
    {
      assert Given(doc[j], 0, k);
      LoadedExactIff(doc[j].props[p].value);
    }
  }

  /** In a reset tree a node's name and parent are those of its path, as far as they fit. */
  lemma ResetNames(doc: seq<Node>, path: Text)
    requires DistinctPaths(doc) && PathBy(doc, 0, path)
    ensures Look(PutAll(RESET, doc, 0), path) ==
            Some((Clip(NodeName(path), NAME_SIZE), Clip(ParentPath(path), PATH_SIZE)))
  {
    NamedAfterPath(RESET, doc, 0, path);
  }
}
