/** The kernel's tree in its fixed tables, and the loading of an overlay into it. */
module OverlayLoader {
  import opened Bytes
  import opened OverlayFormat
  import opened OverlayCompile
  import opened OverlayTree

  datatype Status = Ok | InvalidArgument | NotFound | NoMemory

  datatype TreeNode = TreeNode(path: Text, name: Text, parent: Text, moduleName: Text, properties: seq<nat>)

  datatype TreeProp = TreeProp(name: Text, value: Held)

  // ----- what the tables show

  predicate Slot(nodes: seq<TreeNode>, i: nat, k: nat) { i < |nodes| && k < |nodes[i].properties| }

  ghost predicate SlotOk(nodes: seq<TreeNode>, props: seq<TreeProp>, s: Spec, i: nat, k: nat) {
    Slot(nodes, i, k) ==>
      var x := nodes[i].properties[k];
      && x < |props|
      && (nodes[i].path, props[x].name) in s.props && s.props[(nodes[i].path, props[x].name)] == props[x].value
  }

  ghost predicate OneSlot(nodes: seq<TreeNode>, i: nat, k: nat, j: nat, l: nat) {
    Slot(nodes, i, k) && Slot(nodes, j, l) && nodes[i].properties[k] == nodes[j].properties[l] ==> i == j && k == l
  }

  ghost predicate NodeOk(nodes: seq<TreeNode>, s: Spec, i: nat) {
    i < |nodes| ==>
      && nodes[i].path in s.nodes
      && s.nodes[nodes[i].path] == Info(nodes[i].name, nodes[i].parent, nodes[i].moduleName)
      && |nodes[i].properties| == |PropsOf(s, nodes[i].path)| <= NODE_PROPS
  }

  ghost predicate OnePath(nodes: seq<TreeNode>, i: nat, j: nat) {
    i < |nodes| && j < |nodes| && nodes[i].path == nodes[j].path ==> i == j
  }

  predicate Names(nodes: seq<TreeNode>, props: seq<TreeProp>, i: nat, k: nat, key: Key) {
    Slot(nodes, i, k) && nodes[i].path == key.0 && nodes[i].properties[k] < |props| &&
      props[nodes[i].properties[k]].name == key.1
  }

  predicate SameKey(nodes: seq<TreeNode>, props: seq<TreeProp>, i: nat, k: nat, j: nat, l: nat)
    requires Slot(nodes, i, k) && Slot(nodes, j, l)
  {
    && nodes[i].path == nodes[j].path
    && nodes[i].properties[k] < |props| && nodes[j].properties[l] < |props|
    && props[nodes[i].properties[k]].name == props[nodes[j].properties[l]].name
  }

  ghost predicate OneName(nodes: seq<TreeNode>, props: seq<TreeProp>, i: nat, k: nat, j: nat, l: nat) {
    Slot(nodes, i, k) && Slot(nodes, j, l) && SameKey(nodes, props, i, k, j, l) ==> i == j && k == l
  }

  ghost predicate KeyOk(nodes: seq<TreeNode>, props: seq<TreeProp>, s: Spec, key: Key) {
    key in s.props ==> key.0 in s.nodes && exists i: nat, k: nat :: Names(nodes, props, i, k, key)
  }

  ghost predicate PathOk(nodes: seq<TreeNode>, s: Spec, path: Text) {
    path in s.nodes ==> exists i: nat :: i < |nodes| && nodes[i].path == path
  }

  /** The tables hold exactly the nodes and properties of the maps. */
  ghost predicate Shows(nodes: seq<TreeNode>, props: seq<TreeProp>, s: Spec) {
    && |nodes| == |s.nodes| <= MAX_NODES && |props| == |s.props| <= MAX_PROPS
    && (forall i: nat :: NodeOk(nodes, s, i))
    && (forall i: nat, j: nat :: OnePath(nodes, i, j))
    && (forall i: nat, k: nat :: SlotOk(nodes, props, s, i, k))
    && (forall i: nat, k: nat, j: nat, l: nat :: OneSlot(nodes, i, k, j, l))
    && (forall i: nat, k: nat, j: nat, l: nat :: OneName(nodes, props, i, k, j, l))
    && (forall key: Key :: KeyOk(nodes, props, s, key))
    && (forall path: Text :: PathOk(nodes, s, path))
  }

  // ----- adding a node

  lemma PropsOfSame(s: Spec, t: Spec, path: Text)
    requires s.props.Keys == t.props.Keys
    ensures PropsOf(s, path) == PropsOf(t, path)
  {
    assert forall k :: k in s.props <==> k in s.props.Keys;
    assert forall k :: k in t.props <==> k in t.props.Keys;
  }

  lemma NoProps(nodes: seq<TreeNode>, props: seq<TreeProp>, s: Spec, path: Text)
    requires Shows(nodes, props, s) && path !in s.nodes
    ensures PropsOf(s, path) == {}
  {
    forall k | k in s.props ensures k.0 != path { assert KeyOk(nodes, props, s, k); }
  }

  lemma NewNode(nodes: seq<TreeNode>, props: seq<TreeProp>, s: Spec, path: Text, name: Text, parent: Text)
    requires Shows(nodes, props, s) && path !in s.nodes && |nodes| < MAX_NODES
    ensures Shows(nodes + [TreeNode(path, Clip(name, NAME_SIZE), Clip(parent, PATH_SIZE), [], [])], props,
              PutNode(s, path, name, parent))
  {
    var t := PutNode(s, path, name, parent);
    var more := nodes + [TreeNode(path, Clip(name, NAME_SIZE), Clip(parent, PATH_SIZE), [], [])];
    NoProps(nodes, props, s, path);
    forall i: nat ensures NodeOk(more, t, i) {
      assert NodeOk(nodes, s, i);
      if i < |more| { PropsOfSame(s, t, more[i].path); }
    }
    forall i: nat, j: nat ensures OnePath(more, i, j) {
      assert OnePath(nodes, i, j) && NodeOk(nodes, s, i) && NodeOk(nodes, s, j);
    }
    forall i: nat, k: nat ensures SlotOk(more, props, t, i, k) { assert SlotOk(nodes, props, s, i, k); }
    forall i: nat, k: nat, j: nat, l: nat ensures OneSlot(more, i, k, j, l) && OneName(more, props, i, k, j, l) {
      assert OneSlot(nodes, i, k, j, l) && OneName(nodes, props, i, k, j, l);
    }
    forall key: Key ensures KeyOk(more, props, t, key) {
      assert KeyOk(nodes, props, s, key);
      if key in s.props {
        var i: nat, k: nat :| Names(nodes, props, i, k, key);
        assert Names(more, props, i, k, key);
      }
    }
    forall p: Text ensures PathOk(more, t, p) {
      assert PathOk(nodes, s, p);
      if p in s.nodes {
        var i: nat :| i < |nodes| && nodes[i].path == p;
        assert more[i].path == p;
      } else if p == path {
        assert more[|nodes|].path == p;
      }
    }
  }

  /** Rewriting a node's texts leaves its place and its properties. */
  lemma RewriteNode(nodes: seq<TreeNode>, props: seq<TreeProp>, s: Spec, i: nat, node: TreeNode)
    requires Shows(nodes, props, s) && i < |nodes| && node.path == nodes[i].path &&
             node.properties == nodes[i].properties
    ensures Shows(nodes[i := node], props,
              s.(nodes := s.nodes[node.path := Info(node.name, node.parent, node.moduleName)]))
  {
    var t := s.(nodes := s.nodes[node.path := Info(node.name, node.parent, node.moduleName)]);
    var more := nodes[i := node];
    assert NodeOk(nodes, s, i);
    forall j: nat ensures NodeOk(more, t, j) {
      assert NodeOk(nodes, s, j) && OnePath(nodes, i, j);
      if j < |more| { PropsOfSame(s, t, more[j].path); }
    }
    forall a: nat, b: nat ensures OnePath(more, a, b) { assert OnePath(nodes, a, b); }
    forall a: nat, k: nat ensures SlotOk(more, props, t, a, k) { assert SlotOk(nodes, props, s, a, k); }
    forall a: nat, k: nat, b: nat, l: nat ensures OneSlot(more, a, k, b, l) && OneName(more, props, a, k, b, l) {
      assert OneSlot(nodes, a, k, b, l) && OneName(nodes, props, a, k, b, l);
    }
    forall key: Key ensures KeyOk(more, props, t, key) {
      assert KeyOk(nodes, props, s, key);
      if key in s.props {
        var a: nat, k: nat :| Names(nodes, props, a, k, key);
        assert Names(more, props, a, k, key);
      }
    }
    forall p: Text ensures PathOk(more, t, p) {
      assert PathOk(nodes, s, p);
      if p in s.nodes {
        var a: nat :| a < |nodes| && nodes[a].path == p;
        assert more[a].path == p;
      }
    }
  }

  // ----- setting a property

  function SetProp(s: Spec, key: Key, v: Held): Spec { s.(props := s.props[key := v]) }

  /** A property that is there takes the new value. */
  lemma OldProp(nodes: seq<TreeNode>, props: seq<TreeProp>, s: Spec, i: nat, k: nat, key: Key, v: Held)
    requires Shows(nodes, props, s) && Names(nodes, props, i, k, key)
    ensures Shows(nodes, props[nodes[i].properties[k] := TreeProp(key.1, v)], SetProp(s, key, v)) && key in s.props
  {
    var x := nodes[i].properties[k];
    var more := props[x := TreeProp(key.1, v)];
    var t := SetProp(s, key, v);
    assert SlotOk(nodes, props, s, i, k);
    forall j: nat ensures NodeOk(nodes, t, j) {
      assert NodeOk(nodes, s, j);
      if j < |nodes| { PropsOfSame(s, t, nodes[j].path); }
    }
    forall a: nat, b: nat ensures SlotOk(nodes, more, t, a, b) {
      assert SlotOk(nodes, props, s, a, b) && OneName(nodes, props, i, k, a, b) && OneSlot(nodes, i, k, a, b);
    }
    forall a: nat, b: nat, c: nat, d: nat ensures OneName(nodes, more, a, b, c, d) {
      assert OneName(nodes, props, a, b, c, d);
    }
    forall q: Key ensures KeyOk(nodes, more, t, q) {
      assert KeyOk(nodes, props, s, q);
      if q in s.props {
        var a: nat, b: nat :| Names(nodes, props, a, b, q);
        assert Names(nodes, more, a, b, q);
      }
    }
    forall p: Text ensures PathOk(nodes, t, p) { assert PathOk(nodes, s, p); }
  }

  /** A new property takes the next free record and the next place in its node. */
  lemma NewProp(nodes: seq<TreeNode>, props: seq<TreeProp>, s: Spec, i: nat, key: Key, v: Held)
    requires Shows(nodes, props, s) && i < |nodes| && nodes[i].path == key.0 && key !in s.props
    requires |nodes[i].properties| < NODE_PROPS && |props| < MAX_PROPS
    ensures Shows(nodes[i := nodes[i].(properties := nodes[i].properties + [|props|])],
                  props + [TreeProp(key.1, v)], SetProp(s, key, v))
  {
    var x, at := |props|, |nodes[i].properties|;
    var ps := props + [TreeProp(key.1, v)];
    var ns := nodes[i := nodes[i].(properties := nodes[i].properties + [x])];
    var t := SetProp(s, key, v);
    assert NodeOk(nodes, s, i);
    forall j: nat ensures NodeOk(ns, t, j) {
      assert NodeOk(nodes, s, j) && OnePath(nodes, i, j);
      if j < |ns| { PropsOfMore(s, key, v, ns[j].path); }
    }
    forall a: nat, b: nat ensures OnePath(ns, a, b) { assert OnePath(nodes, a, b); }
    forall a: nat, b: nat ensures SlotOk(ns, ps, t, a, b) { assert SlotOk(nodes, props, s, a, b); }
    forall a: nat, b: nat, c: nat, d: nat ensures OneSlot(ns, a, b, c, d) {
      assert OneSlot(nodes, a, b, c, d) && SlotOk(nodes, props, s, a, b) && SlotOk(nodes, props, s, c, d);
    }
    forall a: nat, b: nat, c: nat, d: nat ensures OneName(ns, ps, a, b, c, d) {
      assert OneName(nodes, props, a, b, c, d) && SlotOk(nodes, props, s, a, b) && SlotOk(nodes, props, s, c, d);
      assert OnePath(nodes, i, a) && OnePath(nodes, i, c);
    }
    forall q: Key ensures KeyOk(ns, ps, t, q) {
      assert KeyOk(nodes, props, s, q);
      if q == key {
        assert Names(ns, ps, i, at, q);
      } else if q in s.props {
        var a: nat, b: nat :| Names(nodes, props, a, b, q);
        assert Names(ns, ps, a, b, q);
      }
    }
    forall p: Text ensures PathOk(ns, t, p) {
      assert PathOk(nodes, s, p);
      if p in s.nodes {
        var a: nat :| a < |nodes| && nodes[a].path == p;
        assert ns[a].path == p;
      }
    }
  }

  lemma PropsOfMore(s: Spec, key: Key, v: Held, path: Text)
    requires key !in s.props
    ensures PropsOf(SetProp(s, key, v), path) == PropsOf(s, path) + if path == key.0 then {key} else {}
    ensures |PropsOf(SetProp(s, key, v), path)| == |PropsOf(s, path)| + if path == key.0 then 1 else 0
  {
    assert key !in PropsOf(s, path);
    assert PropsOf(SetProp(s, key, v), path) == PropsOf(s, path) + if path == key.0 then {key} else {};
  }

  // ----- reading values

  lemma {:induction false} CStringTwice(t: Text)
    ensures CString(CString(t)) == CString(t)
    decreases |t|
  {
    CStringPlain(t);
    PlainCString(CString(t));
  }

  lemma ClipTwice(t: Text, size: nat)
    requires size > 0
    ensures Clip(CString(t), size) == Clip(t, size)
  {
    CStringTwice(t);
  }

  lemma PlainClip(t: Text, size: nat)
    requires size > 0 && Plain(t, size)
    ensures Clip(t, size) == t && CString(t) == t
  {
    PlainCString(t);
  }

  lemma JoinedStarts(ss: seq<Text>)
    ensures var f := First(ss); |f| < |Joined(ss)| && Joined(ss)[|f|] == 0 && forall k :: 0 <= k < |f| ==>
            Joined(ss)[k] == f[k]
  {}

  lemma FirstIsRead(data: seq<Byte>, at: nat, ss: seq<Text>)
    requires Carries(data, at, Joined(ss))
    ensures at <= |data| && CString(data[at..]) == CString(First(ss))
  {
    var f := First(ss);
    JoinedStarts(ss);
    assert data[at..][|f|] == 0;
    forall k | 0 <= k < |f| ensures data[at..][k] == f[k] { assert data[at + k] == Joined(ss)[k]; }
    CStringOf(data[at..], f);
  }

  function WordsOf(data: seq<Byte>, at: nat, n: nat): (r: seq<nat>)
    requires at + 4 * n <= |data|
    ensures |r| == n
  {
    seq(n, k requires 0 <= k < n => Word32(data[at + 4 * k..at + 4 * k + 4]))
  }

  /** What a property record holds, or nothing if it is malformed. */
  function ValueOf(r: PropRec, strings: seq<Byte>, data: seq<Byte>): Option<Held> {
    if r.kind == BOOL then Some(HFlag(r.value != 0))
    else if r.kind == NUMBER then Some(HNumber(r.value))
    else if r.kind == STRING then
      (match StringAt(strings, r.value) case None => None case Some(v) => Some(HString(Clip(v, VALUE_SIZE))))
    else if r.kind == NUMBERS then
      if r.value > |data| || r.size > |data| - r.value || r.size % 4 != 0 then None
      else Some(HNumbers(WordsOf(data, r.value, if r.size / 4 > WORDS then WORDS else r.size / 4)))
    else if r.kind == STRINGS then
      if r.value > |data| || r.size > |data| - r.value then None else Some(HStrings(Clip(data[r.value..], VALUE_SIZE)))
    else None
  }

  lemma ValueIsLoaded(r: PropRec, strings: seq<Byte>, data: seq<Byte>, p: Property)
    requires PropHolds(strings, data, r, p)
    ensures ValueOf(r, strings, data) == Some(Loaded(p.value))
    ensures StringAt(strings, r.name) == Some(CString(p.name))
    ensures p.value.Str? ==> StringAt(strings, r.value) == Some(CString(p.value.s))
    ensures r.kind == STRING <==> p.value.Str?
  {
    StoredIsRead(strings, r.name, p.name);
    match p.value {
      case Str(s) =>
        StoredIsRead(strings, r.value, s);
        ClipTwice(s, VALUE_SIZE);
      case Numbers(ns) =>
        var n := if |ns| > WORDS then WORDS else |ns|;
        assert r.size / 4 == |ns| && r.size % 4 == 0 && ns[..|ns|] == ns;
        assert WordsOf(data, r.value, n) == ns[..n];
      case Strs(ss) =>
        FirstIsRead(data, r.value, ss);
      case _ =>
    }
  }

  // ----- the loader

  class Tree {
    var nodes: seq<TreeNode>
    var props: seq<TreeProp>
    var overlays: nat

    /** A node's properties are records of the table. */
    ghost predicate Struct()
      reads this
    {
      forall i: nat, k: nat :: Slot(nodes, i, k) ==> nodes[i].properties[k] < |props|
    }

    constructor ()
      ensures Struct() && Shows(nodes, props, RESET) && overlays == 0
    {
      nodes := [TreeNode([SLASH], [], [], [], [])];
      props, overlays := [], 0;
      new;
      assert PropsOf(RESET, [SLASH]) == {};
      forall i: nat ensures NodeOk(nodes, RESET, i) {}
      forall i: nat, j: nat ensures OnePath(nodes, i, j) {}
      forall path: Text ensures PathOk(nodes, RESET, path) { assert nodes[0].path == [SLASH]; }
    }

    method FindNode(path: Text) returns (i: nat)
      ensures i <= |nodes| && (i < |nodes| ==> nodes[i].path == path)
      ensures forall j :: 0 <= j < i ==> nodes[j].path != path
    {
      i := 0;
      while i < |nodes| && nodes[i].path != path
        invariant 0 <= i <= |nodes| && forall j :: 0 <= j < i ==> nodes[j].path != path
      {
        i := i + 1;
      }
    }

    /** The node of the path, made if need be. `good` says that the tables show `s` and that the path
        fits its field. */
    method AllocateNode(path: Text, name: Text, parent: Text, ghost s: Spec, ghost good: bool)
      returns (ok: bool, i: nat)
      requires Struct() && (good ==> Shows(nodes, props, s) && Plain(path, PATH_SIZE))
      modifies `nodes
      ensures Struct() && (ok ==> i < |nodes|)
      ensures good ==> (ok <==> path in s.nodes || |s.nodes| < MAX_NODES)
      ensures good && ok ==> Shows(nodes, props, PutNode(s, path, name, parent)) && nodes[i].path == path
    {
      i := FindNode(path);
      if i < |nodes| {
        if good { FoundNode(nodes, props, s, i, name, parent); }
        var n := nodes[i];
        if CString(name) != [] { n := n.(name := Clip(name, NAME_SIZE)); }
        if CString(parent) != [] { n := n.(parent := Clip(parent, PATH_SIZE)); }
        nodes := nodes[i := n];
        return true, i;
      }
      if good { PathMissing(nodes, props, s, path); }
      if |nodes| >= MAX_NODES { return false, 0; }
      if good {
        PlainClip(path, PATH_SIZE);
        NewNode(nodes, props, s, path, name, parent);
      }
      nodes := nodes + [TreeNode(Clip(path, PATH_SIZE), Clip(name, NAME_SIZE), Clip(parent, PATH_SIZE), [], [])];
      ok := true;
    }

    /** The place of the named property among the node's, or their number. */
    method FindProperty(i: nat, name: Text) returns (k: nat)
      requires Struct() && i < |nodes|
      ensures k <= |nodes[i].properties|
      ensures k < |nodes[i].properties| ==> props[nodes[i].properties[k]].name == name
      ensures forall l :: 0 <= l < k ==> props[nodes[i].properties[l]].name != name
    {
      k := 0;
      while k < |nodes[i].properties|
        invariant 0 <= k <= |nodes[i].properties|
        invariant forall l :: 0 <= l < k ==> props[nodes[i].properties[l]].name != name
      {
        assert Slot(nodes, i, k);
        if props[nodes[i].properties[k]].name == name { return; }
        k := k + 1;
      }
    }

    /** The record of the named property, made if need be and there is room. */
    method AllocateProperty(i: nat, name: Text, ghost s: Spec, ghost good: bool)
      returns (ok: bool, x: nat, ghost k: nat)
      requires Struct() && i < |nodes| && (good ==> Shows(nodes, props, s) && Plain(name, NAME_SIZE))
      modifies `nodes, `props
      ensures Struct() && |nodes| == |old(nodes)| && (ok ==> x < |props|)
      ensures var key := (old(nodes[i].path), name);
              good ==> (ok <==> key in s.props || (|PropsOf(s, key.0)| < NODE_PROPS && |s.props| < MAX_PROPS))
      ensures var key := (old(nodes[i].path), name);
              good && ok ==>
                && Shows(nodes, props, if key in s.props then s else SetProp(s, key, HNumber(0)))
                && Names(nodes, props, i, k, key) && nodes[i].properties[k] == x
    {
      var at := FindProperty(i, name);
      k := at;
      if at < |nodes[i].properties| {
        assert Slot(nodes, i, at);
        assert good ==> SlotOk(nodes, props, s, i, at);
        return true, nodes[i].properties[at], at;
      }
      if good { PropertyMissing(nodes, props, s, i, name); }
      if |nodes[i].properties| >= NODE_PROPS || |props| >= MAX_PROPS { return false, 0, 0; }
      if good {
        PlainClip(name, NAME_SIZE);
        NewProp(nodes, props, s, i, (nodes[i].path, name), HNumber(0));
      }
      x := |props|;
      AddedStruct(nodes, props, i, x);
      props := props + [TreeProp(Clip(name, NAME_SIZE), HNumber(0))];
      nodes := nodes[i := nodes[i].(properties := nodes[i].properties + [x])];
      ok := true;
    }

    /** A record's property is set in the node. */
    method ApplyProperty(i: nat, r: PropRec, strings: seq<Byte>, data: seq<Byte>, ghost s: Spec, ghost good: bool,
            ghost p: Property)
      returns (status: Status)
      requires Struct() && i < |nodes|
      requires good ==> Shows(nodes, props, s) && PropHolds(strings, data, r, p) && Plain(p.name, NAME_SIZE)
      modifies `nodes, `props
      ensures Struct() && |nodes| == |old(nodes)|
      ensures var key := (old(nodes[i].path), p.name);
              good ==> status == (if key in s.props ||
                  (|PropsOf(s, key.0)| < NODE_PROPS && |s.props| < MAX_PROPS) then Ok else NoMemory)
      ensures good && status == Ok ==>
              Shows(nodes, props, PutProp(s, old(nodes[i].path), p)) &&
              nodes[i].path == old(nodes[i].path)
    {
      hide Shows, PropHolds, ValueOf, Loaded, Clip, PropsOf;
      if good {
        ValueIsLoaded(r, strings, data, p);
        PlainCString(p.name);
      }
      var name := StringAt(strings, r.name);
      if name.None? { return InvalidArgument; }
      ghost var key := (nodes[i].path, p.name);
      var ok, x;
      ghost var k;
      ok, x, k := AllocateProperty(i, name.value, s, good);
      if !ok { return NoMemory; }
      var value := ValueOf(r, strings, data);
      if value.None? { return InvalidArgument; }
      ghost var t := if key in s.props then s else SetProp(s, key, HNumber(0));
      if good {
        OldProp(nodes, props, t, i, k, key, Loaded(p.value));
        SetTwice(s, t, key, Loaded(p.value));
        assert props[x].name == p.name;
        SetIsPut(s, key, p);
      }
      props := props[x := props[x].(value := value.value)];
      status := Ok;
      if r.kind == STRING && name.value == MODULE {
        status := SetModule(i, r, strings, SetProp(s, key, Loaded(p.value)), good, p);
      }
    }

    method SetModule(i: nat, r: PropRec, strings: seq<Byte>, ghost s: Spec, ghost good: bool, ghost p: Property)
      returns (status: Status)
      requires Struct() && i < |nodes|
      requires good ==> Shows(nodes, props, s) && p.value.Str? && StringAt(strings, r.value) == Some(CString(p.value.s))
      modifies `nodes
      ensures Struct() && |nodes| == |old(nodes)| && nodes[i].path == old(nodes[i].path)
      ensures good ==>
                && status == Ok && nodes[i].path in s.nodes
                && Shows(nodes, props, s.(nodes := s.nodes[nodes[i].path :=
                    s.nodes[nodes[i].path].(moduleName := Clip(p.value.s, NAME_SIZE))]))
    {
      hide Shows, Clip;
      var text := StringAt(strings, r.value);
      if text.None? { return InvalidArgument; }
      if good { ModuleSet(nodes, props, s, i, p.value.s); }
      nodes := nodes[i := nodes[i].(moduleName := Clip(text.value, NAME_SIZE))];
      status := Ok;
    }

    /** The properties of one node record, in order. */
    method ApplyProperties(i: nat, r: NodeRec, m: Image, ghost s: Spec, ghost good: bool, ghost n: Node)
      returns (status: Status)
      requires Struct() && i < |nodes|
      requires good ==> Shows(nodes, props, s) && NodeHolds(m.strings, m.data, m.props, r, n) && PropNames(n)
      requires good ==> nodes[i].path == n.path && |m.props| < U32
      modifies `nodes, `props
      ensures Struct() && |nodes| == |old(nodes)|
      ensures good ==> status == Ok || (status == NoMemory && !Fits(PutProps(s, n, 0)))
      ensures good && status == Ok ==> Shows(nodes, props, PutProps(s, n, 0))
    {
      hide Shows, PropHolds, PutProp, PropsOf, Fits;
      ghost var u := s;
      var p := 0;
      while p < r.count
        invariant 0 <= p <= r.count && Struct() && |nodes| == |old(nodes)|
        invariant good ==> Shows(nodes, props, u) && nodes[i].path == n.path
        invariant good ==> p <= |n.props| && PutProps(s, n, 0) == PutProps(u, n, p)
      {
        var index := (r.start + p) % U32;
        if index >= |m.props| { return InvalidArgument; }
        ghost var prop := if good then n.props[p] else Property([], Flag(false));
        status := ApplyProperty(i, m.props[index], m.strings, m.data, u, good, prop);
        if status != Ok {
          if good { PropOverflow(u, n, p); }
          return;
        }
        if good { u := PutProp(u, n.path, n.props[p]); }
        p := p + 1;
      }
      status := Ok;
    }

    /** Loads an overlay. When its blob encodes `doc`, whose paths and names fit their fields, and the
        tree shows `s`, loading succeeds exactly when the merged tree fits the tables. */
    method LoadMemory(blob: seq<Byte>, ghost s: Spec, ghost doc: seq<Node>) returns (status: Status)
      requires Struct()
      modifies this
      ensures Struct()
      ensures overlays == old(overlays) + if Parse(blob).Some? && old(overlays) < MAX_OVERLAYS then 1 else 0
      ensures Parse(blob).None? ==> status == InvalidArgument && nodes == old(nodes) && props == old(props)
      ensures Parse(blob).Some? && old(overlays) >= MAX_OVERLAYS ==>
              status == NoMemory && nodes == old(nodes) && props == old(props)
      ensures Sound(blob, doc) && old(Shows(nodes, props, s)) && old(overlays) < MAX_OVERLAYS ==>
                && status == (if Fits(PutAll(s, doc, 0)) then Ok else NoMemory)
                && (status == Ok ==> Shows(nodes, props, PutAll(s, doc, 0)))
    {
      hide Shows, PutNode, PutProps, Fits, Parse, NodeHolds;
      var image := Parse(blob);
      if image.None? { return InvalidArgument; }
      if overlays >= MAX_OVERLAYS { return NoMemory; }
      overlays := overlays + 1;
      var m := image.value;
      ghost var good := Sound(blob, doc) && Shows(nodes, props, s);
      ParseSizes(blob);
      ghost var u := s;
      var i := 0;
      while i < |m.nodes|
        invariant 0 <= i <= |m.nodes| && Struct() && overlays == old(overlays) + 1
        invariant good ==> Shows(nodes, props, u) && |m.nodes| == |doc| && PutAll(s, doc, 0) == PutAll(u, doc, i)
      {
        ghost var n := if good then doc[i] else Node([], []);
        status := LoadNode(m, m.nodes[i], u, good, n);
        if status != Ok {
          if good { LoadOverflow(u, doc, i); }
          return;
        }
        if good { u := PutProps(PutNode(u, n.path, NodeName(n.path), ParentPath(n.path)), n, 0); }
        i := i + 1;
      }
      status := Ok;
      if good { ShowsFits(nodes, props, u); }
    }

    method LoadNode(m: Image, r: NodeRec, ghost u: Spec, ghost good: bool, ghost n: Node) returns (status: Status)
      requires Struct()
      requires good ==> Shows(nodes, props, u) && NodeHolds(m.strings, m.data, m.props, r, n) && |m.props| < U32
      requires good ==> PropNames(n) && Plain(n.path, PATH_SIZE)
      modifies `nodes, `props
      ensures Struct()
      ensures var v := PutProps(PutNode(u, n.path, NodeName(n.path), ParentPath(n.path)), n, 0);
              && (good ==> status == Ok || (status == NoMemory && !Fits(v)))
              && (good && status == Ok ==> Shows(nodes, props, v))
    {
      hide Shows, PutNode, PutProps, Fits, NodeName, ParentPath, PropHolds;
      if good { NodeIsRead(m, r, n); }
      var path := StringAt(m.strings, r.path);
      var name := StringAt(m.strings, r.name);
      var parent := StringAt(m.strings, r.parent);
      if path.None? || name.None? || parent.None? { return InvalidArgument; }
      var ok, i := AllocateNode(path.value, name.value, parent.value, u, good);
      if good { PutNodeClipped(u, n.path, NodeName(n.path), ParentPath(n.path)); }
      ghost var t := PutNode(u, n.path, NodeName(n.path), ParentPath(n.path));
      if !ok {
        if good { NodeOverflow(u, n); }
        return NoMemory;
      }
      status := ApplyProperties(i, r, m, t, good, n);
    }

    /** The value that the tree has for the named property of node i. */
    method Held(i: nat, name: Text, ghost s: Spec) returns (h: Option<OverlayTree.Held>)
      requires Struct() && Shows(nodes, props, s) && i < |nodes|
      ensures var key := (nodes[i].path, name); h == if key in s.props then Some(s.props[key]) else None
    {
      hide Shows;
      var k := FindProperty(i, name);
      if k < |nodes[i].properties| {
        assert Slot(nodes, i, k);
        HeldAt(nodes, props, s, i, k);
        return Some(props[nodes[i].properties[k]].value);
      }
      PropertyMissing(nodes, props, s, i, name);
      h := None;
    }

    method GetNumber(i: nat, name: Text, ghost s: Spec) returns (status: Status, value: nat)
      requires Struct() && Shows(nodes, props, s) && i < |nodes|
      ensures var key := (nodes[i].path, name);
              && status == (if key !in s.props then NotFound else if !s.props[key].HNumber? then InvalidArgument
                  else Ok)
              && (status == Ok ==> s.props[key] == HNumber(value))
    {
      hide Shows;
      var h := Held(i, name, s);
      if h.None? { return NotFound, 0; }
      if !h.value.HNumber? { return InvalidArgument, 0; }
      return Ok, h.value.n;
    }

    method GetFlag(i: nat, name: Text, ghost s: Spec) returns (status: Status, value: bool)
      requires Struct() && Shows(nodes, props, s) && i < |nodes|
      ensures var key := (nodes[i].path, name);
              && status == (if key !in s.props then NotFound else if !s.props[key].HFlag? then InvalidArgument else Ok)
              && (status == Ok ==> s.props[key] == HFlag(value))
    {
      hide Shows;
      var h := Held(i, name, s);
      if h.None? { return NotFound, false; }
      if !h.value.HFlag? { return InvalidArgument, false; }
      return Ok, h.value.on;
    }

    /** A string, or the first of an array, copied into a buffer of `size` bytes. */
    method GetString(i: nat, name: Text, size: nat, ghost s: Spec) returns (status: Status, buffer: Text)
      requires Struct() && Shows(nodes, props, s) && i < |nodes|
      ensures var key := (nodes[i].path, name);
              && (status == NotFound <==> key !in s.props || size == 0)
              && (status == Ok ==>
                  buffer == Clip(match s.props[key] case HString(t) => t case HStrings(t) => t case _ => [], size))
              && (status == InvalidArgument ==> !s.props[key].HString? && !s.props[key].HStrings?)
              && (status == Ok ==> s.props[key].HString? || s.props[key].HStrings?)
    {
      hide Shows;
      var h := Held(i, name, s);
      if h.None? || size == 0 { return NotFound, []; }
      match h.value {
        case HString(t) => return Ok, Clip(t, size);
        case HStrings(t) => return Ok, Clip(t, size);
        case _ => return InvalidArgument, [];
      }
    }

    /** How many numbers the array has, and as many of them as there is room for. */
    method GetNumbers(i: nat, name: Text, capacity: nat, ghost s: Spec) returns (count: nat, values: seq<nat>)
      requires Struct() && Shows(nodes, props, s) && i < |nodes|
      ensures var key := (nodes[i].path, name);
              if key in s.props && s.props[key].HNumbers?
              then count == |s.props[key].ns| && values ==
                s.props[key].ns[..if count < capacity then count else capacity]
              else count == 0 && values == []
    {
      hide Shows;
      var h := Held(i, name, s);
      if h.None? || !h.value.HNumbers? { return 0, []; }
      values := [];
      var k := 0;
      while k < |h.value.ns| && k < capacity
        invariant 0 <= k <= |h.value.ns| && k <= capacity && values == h.value.ns[..k]
      {
        values := values + [h.value.ns[k]];
        k := k + 1;
      }
      return |h.value.ns|, values;
    }
  }

  /** What the tables hold for a property of node i. */
  lemma HeldAt(nodes: seq<TreeNode>, props: seq<TreeProp>, s: Spec, i: nat, k: nat)
    requires Shows(nodes, props, s) && Slot(nodes, i, k)
    ensures var x := nodes[i].properties[k];
            x < |props| && var key := (nodes[i].path, props[x].name); key in s.props && s.props[key] == props[x].value
  {
    assert SlotOk(nodes, props, s, i, k);
  }

  /** Names that fit their fields. */
  predicate PropNames(n: Node) { forall p | 0 <= p < |n.props| :: Plain(n.props[p].name, NAME_SIZE) }

  predicate DocNames(doc: seq<Node>) {
    forall i | 0 <= i < |doc| :: Plain(doc[i].path, PATH_SIZE) && PropNames(doc[i])
  }

  /** The blob is accepted and says what the document says. */
  ghost predicate Sound(blob: seq<Byte>, doc: seq<Node>) {
    Parse(blob).Some? && Encodes(Parse(blob).value, doc) && DocNames(doc)
  }

  /** A compiled overlay is one the loader takes as what the document says: with `LoadMemory` and
      `ResetLoad`, compiling and loading into a reset tree gives back the document. */
  lemma CompiledIsSound(m: Image, doc: seq<Node>)
    requires Encodes(m, doc) && Packable(m) && DocNames(doc)
    ensures Sound(Blob(m), doc)
  {
    BuildParses(m, doc);
  }

  /** One overlay loaded over another: the tree has what either has, and where both have a property the
      later one's value stands. */
  lemma TwoMerge(first: seq<Node>, second: seq<Node>, k: Key, path: Text)
    requires DistinctPaths(first) && DistinctPaths(second)
    ensures var t := PutAll(PutAll(RESET, first, 0), second, 0);
            && (path in t.nodes <==> path == [SLASH] || PathBy(first, 0, path) || PathBy(second, 0, path))
            && (k in t.props <==> GivenBy(first, 0, k) || GivenBy(second, 0, k))
            && (forall j: nat, p: nat :: From(second, 0, j) && Gives(second[j], 0, p, k) ==>
                  t.props[k] == Loaded(second[j].props[p].value))
            && (!GivenBy(second, 0, k) ==>
                  forall j: nat, p: nat :: From(first, 0, j) && Gives(first[j], 0, p, k) ==>
                    t.props[k] == Loaded(first[j].props[p].value))
  {
    AllMerge(RESET, first, 0, k, path);
    AllMerge(PutAll(RESET, first, 0), second, 0, k, path);
  }

  /** Two documents compiled and loaded one after the other into a new tree: both loads succeed exactly
      when the union fits the tables, and the tree then shows it. */
  method LoadTwo(first: seq<Node>, second: seq<Node>) returns (t: Tree, a: Status, b: Status)
    requires Compilable(first) && Compilable(second)
    ensures t.Struct()
    ensures a == Ok && b == Ok <==> Fits(PutAll(PutAll(RESET, first, 0), second, 0))
    ensures a == Ok && b == Ok ==> Shows(t.nodes, t.props, PutAll(PutAll(RESET, first, 0), second, 0))
  {
    hide Shows, Fits, PutAll, Encodes, Parse, Small, DocNames;
    t := new Tree();
    var one := BuildBlob(first);
    var two := BuildBlob(second);
    ghost var s := PutAll(RESET, first, 0);
    a := t.LoadMemory(one.value, RESET, first);
    if Fits(PutAll(s, second, 0)) { FitsBefore(s, second); }
    if a != Ok { return t, a, NoMemory; }
    b := t.LoadMemory(two.value, s, second);
  }

  lemma FitsBefore(s: Spec, doc: seq<Node>)
    requires Fits(PutAll(s, doc, 0))
    ensures Fits(s)
  {
    AllGrow(s, doc, 0);
    FitsWithin(s, PutAll(s, doc, 0));
  }

  /** A document that is packed and whose names fit their fields. */
  ghost predicate Compilable(doc: seq<Node>) {
    (forall i :: 0 <= i < |doc| ==> ValuesFit(doc[i])) && Small(doc) && DocNames(doc)
  }

  lemma ParseSizes(blob: seq<Byte>)
    ensures Parse(blob).Some? ==> |Parse(blob).value.props| < U32
  {}

  lemma NodeIsRead(m: Image, r: NodeRec, n: Node)
    requires NodeHolds(m.strings, m.data, m.props, r, n) && Plain(n.path, PATH_SIZE)
    ensures StringAt(m.strings, r.path) == Some(n.path)
    ensures StringAt(m.strings, r.name) == Some(CString(NodeName(n.path)))
    ensures StringAt(m.strings, r.parent) == Some(CString(ParentPath(n.path)))
  {
    StoredIsRead(m.strings, r.path, n.path);
    StoredIsRead(m.strings, r.name, NodeName(n.path));
    StoredIsRead(m.strings, r.parent, ParentPath(n.path));
    PlainCString(n.path);
  }

  lemma PutNodeClipped(s: Spec, path: Text, name: Text, parent: Text)
    ensures PutNode(s, path, CString(name), CString(parent)) == PutNode(s, path, name, parent)
  {
    ClipTwice(name, NAME_SIZE);
    ClipTwice(parent, PATH_SIZE);
    CStringTwice(name);
    CStringTwice(parent);
  }

  lemma PropOverflow(u: Spec, n: Node, p: nat)
    requires p < |n.props|
    requires var key := (n.path, n.props[p].name);
             key !in u.props && !(|PropsOf(u, key.0)| < NODE_PROPS && |u.props| < MAX_PROPS)
    ensures !Fits(PutProps(u, n, p))
  {
    var key := (n.path, n.props[p].name);
    var v := PutProp(u, n.path, n.props[p]);
    PropsOfMore(u, key, Loaded(n.props[p].value), n.path);
    SetIsPut(u, key, n.props[p]);
    PropsOfSame(SetProp(u, key, Loaded(n.props[p].value)), v, n.path);
    assert !Fits(v) by {
      if |PropsOf(u, key.0)| >= NODE_PROPS { assert !NodeFits(v, n.path); }
    }
    PropsGrow(v, n, p + 1);
    if Fits(PutProps(v, n, p + 1)) { FitsWithin(v, PutProps(v, n, p + 1)); }
  }

  lemma NodeOverflow(u: Spec, n: Node)
    requires n.path !in u.nodes && |u.nodes| >= MAX_NODES
    ensures !Fits(PutProps(PutNode(u, n.path, NodeName(n.path), ParentPath(n.path)), n, 0))
  {
    var v := PutNode(u, n.path, NodeName(n.path), ParentPath(n.path));
    PropsGrow(v, n, 0);
    if Fits(PutProps(v, n, 0)) { FitsWithin(v, PutProps(v, n, 0)); }
  }

  lemma LoadOverflow(u: Spec, doc: seq<Node>, i: nat)
    requires i < |doc|
    requires !Fits(PutProps(PutNode(u, doc[i].path, NodeName(doc[i].path), ParentPath(doc[i].path)), doc[i], 0))
    ensures !Fits(PutAll(u, doc, i))
  {
    var v := PutProps(PutNode(u, doc[i].path, NodeName(doc[i].path), ParentPath(doc[i].path)), doc[i], 0);
    AllGrow(v, doc, i + 1);
    if Fits(PutAll(v, doc, i + 1)) { FitsWithin(v, PutAll(v, doc, i + 1)); }
  }

  lemma ShowsFits(nodes: seq<TreeNode>, props: seq<TreeProp>, s: Spec)
    requires Shows(nodes, props, s)
    ensures Fits(s)
  {
    forall path ensures NodeFits(s, path) {
      if path in s.nodes {
        assert PathOk(nodes, s, path);
        var i: nat :| i < |nodes| && nodes[i].path == path;
        assert NodeOk(nodes, s, i);
      } else {
        NoProps(nodes, props, s, path);
      }
    }
  }

  /** Setting the property, and the module of the node it may name, is what an overlay's property does. */
  lemma SetIsPut(s: Spec, key: Key, p: Property)
    requires key.1 == p.name
    ensures var t := SetProp(s, key, Loaded(p.value));
            PutProp(s, key.0, p) ==
            if p.value.Str? && p.name == MODULE && key.0 in s.nodes
            then t.(nodes := t.nodes[key.0 := t.nodes[key.0].(moduleName := Clip(p.value.s, NAME_SIZE))]) else t
  {}

  lemma SetTwice(s: Spec, t: Spec, key: Key, v: Held)
    requires t == if key in s.props then s else SetProp(s, key, HNumber(0))
    ensures SetProp(t, key, v) == SetProp(s, key, v)
  {
    assert SetProp(t, key, v).props == SetProp(s, key, v).props;
  }

  lemma ModuleSet(nodes: seq<TreeNode>, props: seq<TreeProp>, s: Spec, i: nat, text: Text)
    requires Shows(nodes, props, s) && i < |nodes|
    ensures var path := nodes[i].path;
            && path in s.nodes
            && Shows(nodes[i := nodes[i].(moduleName := Clip(CString(text), NAME_SIZE))], props,
                     s.(nodes := s.nodes[path := s.nodes[path].(moduleName := Clip(text, NAME_SIZE))]))
  {
    ClipTwice(text, NAME_SIZE);
    assert NodeOk(nodes, s, i);
    RewriteNode(nodes, props, s, i, nodes[i].(moduleName := Clip(text, NAME_SIZE)));
  }

  lemma PropertyMissing(nodes: seq<TreeNode>, props: seq<TreeProp>, s: Spec, i: nat, name: Text)
    requires Shows(nodes, props, s) && i < |nodes|
    requires forall l: nat :: Slot(nodes, i, l) ==>
             nodes[i].properties[l] < |props| && props[nodes[i].properties[l]].name != name
    ensures (nodes[i].path, name) !in s.props && |nodes[i].properties| == |PropsOf(s, nodes[i].path)|
  {
    var key := (nodes[i].path, name);
    assert KeyOk(nodes, props, s, key) && NodeOk(nodes, s, i);
    forall a: nat, k: nat ensures !Names(nodes, props, a, k, key) { assert OnePath(nodes, i, a); }
  }

  lemma AddedStruct(nodes: seq<TreeNode>, props: seq<TreeProp>, i: nat, x: nat)
    requires i < |nodes| && x == |props|
    requires forall a: nat, k: nat :: Slot(nodes, a, k) ==> nodes[a].properties[k] < |props|
    ensures var more := nodes[i := nodes[i].(properties := nodes[i].properties + [x])];
            forall a: nat, k: nat :: Slot(more, a, k) ==> more[a].properties[k] < |props| + 1
  {
    var more := nodes[i := nodes[i].(properties := nodes[i].properties + [x])];
    forall a: nat, k: nat | Slot(more, a, k) ensures more[a].properties[k] < |props| + 1 {
      assert Slot(nodes, a, k) || (a == i && k == |nodes[i].properties|);
    }
  }

  lemma FoundNode(nodes: seq<TreeNode>, props: seq<TreeProp>, s: Spec, i: nat, name: Text, parent: Text)
    requires Shows(nodes, props, s) && i < |nodes|
    ensures var n := nodes[i];
            var m := n.(name := if CString(name) != [] then Clip(name, NAME_SIZE) else n.name,
                        parent := if CString(parent) != [] then Clip(parent, PATH_SIZE) else n.parent);
            n.path in s.nodes && Shows(nodes[i := m], props, PutNode(s, n.path, name, parent))
  {
    var n := nodes[i];
    var m := n.(name := if CString(name) != [] then Clip(name, NAME_SIZE) else n.name,
                parent := if CString(parent) != [] then Clip(parent, PATH_SIZE) else n.parent);
    assert NodeOk(nodes, s, i);
    RewriteNode(nodes, props, s, i, m);
  }

  lemma PathMissing(nodes: seq<TreeNode>, props: seq<TreeProp>, s: Spec, path: Text)
    requires Shows(nodes, props, s) && forall j :: 0 <= j < |nodes| ==> nodes[j].path != path
    ensures path !in s.nodes
  {
    assert PathOk(nodes, s, path);
  }
}
