/** The overlay compiler's reading of a document: a JSON value is walked into nodes with named
    properties, later assignments replacing earlier ones. */
module OverlayDocument {
  import opened Bytes
  import opened OverlayFormat
  import opened OverlayCompile
  import opened OverlayTree
  import opened OverlayLoader

  datatype Json =
    | Null | Bool(b: bool) | Int(i: int) | Real(x: real) | String(s: Text)
    | Array(items: seq<Json>) | Object(members: seq<Member>)

  datatype Member = Member(key: Text, value: Json)

  /** An object as it is read has one member for each key. */
  predicate Keyed(v: Json) {
    match v
    case Array(items) => forall k | 0 <= k < |items| :: Keyed(items[k])
    case Object(members) =>
      && (forall i, j | 0 <= i < j < |members| :: members[i].key != members[j].key)
      && forall k | 0 <= k < |members| :: Keyed(members[k].value)
    case _ => true
  }

  type Nodes = map<Text, map<Text, Value>>

  /** How the source language prints a value as text. */
  type Printer = Json -> Text

  // ----- paths

  function JoinPath(parent: Text, child: Text): Text {
    if child == [] then (if parent == [] then [SLASH] else parent)
    else if child[0] == SLASH then child
    else if parent == [SLASH] then [SLASH] + child
    else Strip(parent) + [SLASH] + child
  }

  lemma {:induction false} StripMeans(p: Text)
    ensures Strip(p) <= p && (Strip(p) == p <==> p == [] || p[|p| - 1] != SLASH)
    ensures Strip(p) == [] || Strip(p)[|Strip(p)| - 1] != SLASH
    decreases |p|
  {
    if p != [] && p[|p| - 1] == SLASH { StripMeans(p[..|p| - 1]); }
  }

  lemma {:induction false} AfterMeans(a: Text, n: Text)
    requires SLASH !in n
    ensures AfterSlash(a + [SLASH] + n) == n && BeforeSlash(a + [SLASH] + n) == a
    decreases |n|
  {
    var p := a + [SLASH] + n;
    if n == [] {
      assert p[..|p| - 1] == a;
    } else {
      var m := n[..|n| - 1];
      assert p[..|p| - 1] == a + [SLASH] + m && n == m + [n[|n| - 1]];
      AfterMeans(a, m);
    }
  }

  lemma {:induction false} AfterHasNone(p: Text)
    ensures SLASH !in AfterSlash(p)
    decreases |p|
  {
    if p != [] { AfterHasNone(p[..|p| - 1]); }
  }

  /** A child's path leads back to its parent and its name exactly when the name has no slash and
      the parent, unless it is the root, does not end in one. */
  lemma JoinSplitsIff(d: Text, n: Text)
    requires d != [] && n != []
    ensures ParentPath(JoinPath(d, n)) == d && NodeName(JoinPath(d, n)) == n <==>
            SLASH !in n && (d == [SLASH] || d[|d| - 1] != SLASH)
  {
    var p := JoinPath(d, n);
    AfterHasNone(Strip(p));
    StripMeans(d);
    if SLASH !in n {
      var a: Text := if d == [SLASH] then [] else Strip(d);
      assert p == a + [SLASH] + n && p[|p| - 1] == n[|n| - 1];
      StripMeans(p);
      AfterMeans(a, n);
      assert p[|a|] == SLASH;
    }
  }

  /** No name at all gives the parent, a name that begins with a slash stands for itself, and any other
      comes behind the parent and one slash. */
  lemma JoinMeans(d: Text, n: Text)
    requires d != []
    ensures n == [] ==> JoinPath(d, n) == d
    ensures n != [] && n[0] == SLASH ==> JoinPath(d, n) == n
    ensures n != [] && n[0] != SLASH && d[|d| - 1] != SLASH ==> JoinPath(d, n) == d + [SLASH] + n
    ensures n != [] && n[0] != SLASH && d == [SLASH] ==> JoinPath(d, n) == [SLASH] + n
  {
    StripMeans(d);
  }

  // ----- properties

  predicate AllInts(items: seq<Json>) { forall k | 0 <= k < |items| :: items[k].Int? || items[k].Bool? }

  predicate AllStrings(items: seq<Json>) { forall k | 0 <= k < |items| :: items[k].String? }

  predicate AllObjects(items: seq<Json>) { forall k | 0 <= k < |items| :: items[k].Object? }

  /** Truth values count as integers. */
  function IntOf(v: Json): int { if v.Bool? then (if v.b then 1 else 0) else if v.Int? then v.i else 0 }

  predicate IsWord(i: int) { 0 <= i < U32 }

  function WordsFrom(items: seq<Json>): seq<nat>
    requires AllInts(items) && forall k | 0 <= k < |items| :: IsWord(IntOf(items[k]))
  {
    seq(|items|, (k: nat) requires k < |items| && IsWord(IntOf(items[k])) => IntOf(items[k]))
  }

  /** The property that a value makes; none if its type or range is refused. */
  function Valued(v: Json): (r: Option<Value>)
    ensures r.Some? ==> (r.value.Number? ==> r.value.n < U32)
                        && (r.value.Numbers? ==> forall k :: 0 <= k < |r.value.ns| ==> r.value.ns[k] < U32)
  {
    if v.Bool? then Some(Flag(v.b))
    else if v.Int? then if IsWord(v.i) then Some(Number(v.i)) else None
    else if v.String? then Some(Str(v.s))
    else if v.Array? && AllInts(v.items) then
      if forall k | 0 <= k < |v.items| :: IsWord(IntOf(v.items[k])) then Some(Numbers(WordsFrom(v.items))) else None
    else if v.Array? && AllStrings(v.items) then
      Some(Strs(seq(|v.items|, (k: nat) requires k < |v.items| && v.items[k].String? => v.items[k].s)))
    else None
  }

  // ----- what a document asks for, in order

  datatype Write = Touch(path: Text) | Set(path: Text, name: Text, value: Json) | Fault

  function Do(nodes: Nodes, w: Write): Option<Nodes> {
    match w
    case Touch(path) => Some(if path in nodes then nodes else nodes[path := map[]])
    case Set(path, name, value) =>
      var props: map<Text, Value> := if path in nodes then nodes[path] else map[];
      var v := Valued(value);
      if v.Some? then Some(nodes[path := props[name := v.value]]) else None
    case Fault => None
  }

  function Run(nodes: Nodes, ws: seq<Write>): Option<Nodes>
    decreases |ws|
  {
    if ws == [] then Some(nodes)
    else
      var r := Run(nodes, ws[..|ws| - 1]);
      if r.None? then None else Do(r.value, ws[|ws| - 1])
  }

  lemma {:induction false} RunConcat(nodes: Nodes, a: seq<Write>, b: seq<Write>)
    ensures Run(nodes, a + b) == if Run(nodes, a).None? then None else Run(Run(nodes, a).value, b)
    decreases |b|
  {
    if b == [] {
      assert a + b == a;
    } else {
      var c := b[..|b| - 1];
      assert (a + b)[..|a + b| - 1] == a + c && (a + b)[|a + b| - 1] == b[|b| - 1];
      RunConcat(nodes, a, c);
    }
  }

  lemma RunOne(nodes: Nodes, w: Write)
    ensures Run(nodes, [w]) == Do(nodes, w)
  {
    assert [w][..0] == [];
  }

  lemma RunNone(nodes: Nodes)
    ensures Run(nodes, []) == Some(nodes)
  {}

  lemma RunFault(nodes: Nodes)
    ensures Run(nodes, [Fault]) == None
  {
    RunOne(nodes, Fault);
  }

  /** The last value that the list gives a property. */
  function Setting(ws: seq<Write>, path: Text, name: Text): Option<Json>
    decreases |ws|
  {
    if ws == [] then None
    else
      var w := ws[|ws| - 1];
      if w.Set? && w.path == path && w.name == name then Some(w.value) else Setting(ws[..|ws| - 1], path, name)
  }

  predicate Fine(w: Write) { !w.Fault? && (w.Set? ==> Valued(w.value).Some?) }

  predicate Touches(w: Write, path: Text) { !w.Fault? && w.path == path }

  function Prop(nodes: Nodes, path: Text, name: Text): Option<Value> {
    if path in nodes && name in nodes[path] then Some(nodes[path][name]) else None
  }

  /** A list succeeds exactly when each item of it is acceptable; then the nodes are those named, and
      each property has the last value given to it. */
  lemma {:induction false} RunMeans(nodes: Nodes, ws: seq<Write>, path: Text, name: Text)
    ensures var r := Run(nodes, ws);
            && (r.Some? <==> forall i :: 0 <= i < |ws| ==> Fine(ws[i]))
            && (r.Some? ==>
                  && (path in r.value <==> path in nodes || exists i :: 0 <= i < |ws| && Touches(ws[i], path))
                  && var v := Setting(ws, path, name);
                     Prop(r.value, path, name) == if v.Some? then Valued(v.value) else Prop(nodes, path, name))
    decreases |ws|
  {
    if ws != [] {
      var c, w := ws[..|ws| - 1], ws[|ws| - 1];
      RunMeans(nodes, c, path, name);
      assert forall i :: 0 <= i < |c| ==> ws[i] == c[i];
      assert Touches(ws[|c|], path) == Touches(w, path);
      if Run(nodes, c).Some? && exists i :: 0 <= i < |c| && Touches(c[i], path) {
        var i :| 0 <= i < |c| && Touches(c[i], path);
        assert Touches(ws[i], path);
      }
    }
  }

  function TreeWrites(str: Printer, path: Text, obj: Json): seq<Write>
    requires obj.Object?
    decreases obj, 1, 0
  {
    [Touch(path)] + MembersWrites(str, path, obj, 0)
  }

  function MembersWrites(str: Printer, path: Text, obj: Json, i: nat): seq<Write>
    requires obj.Object? && i <= |obj.members|
    decreases obj, 0, |obj.members| - i
  {
    if i == |obj.members| then []
    else MemberWrites(str, path, obj.members[i].key, obj.members[i].value) + MembersWrites(str, path, obj, i + 1)
  }

  function MemberWrites(str: Printer, path: Text, key: Text, value: Json): seq<Write>
    decreases value, 2, 0
  {
    if value.Object? then TreeWrites(str, JoinPath(path, key), value)
    else if value.Array? && value.items != [] && AllObjects(value.items) then
      [Touch(JoinPath(path, key))] + ItemsWrites(str, JoinPath(path, key), key, value, 0)
    else [Set(path, key, value)]
  }

  function ItemsWrites(str: Printer, root: Text, key: Text, list: Json, i: nat): seq<Write>
    requires list.Array? && AllObjects(list.items) && i <= |list.items|
    decreases list, 0, |list.items| - i
  {
    if i == |list.items| then []
    else TreeWrites(str, JoinPath(root, ItemName(str, key, list.items[i], i)), list.items[i])
         + ItemsWrites(str, root, key, list, i + 1)
  }

  const NAME: Text := [110, 97, 109, 101]
  const COMPATIBLE: Text := [99, 111, 109, 112, 97, 116, 105, 98, 108, 101]
  const BOOT: Text := [98, 111, 111, 116]
  const MEMORY: Text := [109, 101, 109, 111, 114, 121]
  const REGIONS: Text := [114, 101, 103, 105, 111, 110, 115]
  const FRAGMENTS: Text := [102, 114, 97, 103, 109, 101, 110, 116, 115]
  const TARGET: Text := [116, 97, 114, 103, 101, 116]
  const PROPERTIES: Text := [112, 114, 111, 112, 101, 114, 116, 105, 101, 115]
  const CHILDREN: Text := [99, 104, 105, 108, 100, 114, 101, 110]
  const AT_SIGN: Byte := 64

  /** The bytes of a text in ASCII. */
  ghost predicate Spells(t: Text, s: string) {
    |t| == |s| && forall k :: 0 <= k < |s| ==> t[k] == s[k] as int
  }

  lemma KeysAreSpelled()
    ensures Spells(NAME, "name") && Spells(COMPATIBLE, "compatible") && Spells(BOOT, "boot")
    ensures Spells(MEMORY, "memory") && Spells(REGIONS, "regions") && Spells(FRAGMENTS, "fragments")
    ensures Spells(TARGET, "target") && Spells(PROPERTIES, "properties") && Spells(CHILDREN, "children")
    ensures Spells([SLASH], "/") && Spells([AT_SIGN], "@")
  {}

  /** The value of a member. */
  function Get(obj: Json, key: Text): Option<Json>
    requires obj.Object?
  {
    GetUpTo(obj.members, |obj.members|, key)
  }

  function GetUpTo(ms: seq<Member>, n: nat, key: Text): Option<Json>
    requires n <= |ms|
  {
    if n == 0 then None else if ms[n - 1].key == key then Some(ms[n - 1].value) else GetUpTo(ms, n - 1, key)
  }

  /** An item of a list is called by its "name", or by the list's key and its place. */
  function ItemName(str: Printer, key: Text, item: Json, i: nat): Text
    requires item.Object?
  {
    match Get(item, NAME)
    case Some(v) => str(v)
    case None => key + [AT_SIGN] + str(Int(i))
  }

  function SetWrites(path: Text, obj: Json, i: nat): seq<Write>
    requires obj.Object? && i <= |obj.members|
    decreases |obj.members| - i
  {
    if i == |obj.members| then []
    else [Set(path, obj.members[i].key, obj.members[i].value)] + SetWrites(path, obj, i + 1)
  }

  function ChildWrites(target: Text, name: Text, child: Json): seq<Write> {
    if !child.Object? then [Fault] else [Touch(JoinPath(target, name))] + SetWrites(JoinPath(target, name), child, 0)
  }

  function ChildrenWrites(target: Text, obj: Json, i: nat): seq<Write>
    requires obj.Object? && i <= |obj.members|
    decreases |obj.members| - i
  {
    if i == |obj.members| then []
    else ChildWrites(target, obj.members[i].key, obj.members[i].value) + ChildrenWrites(target, obj, i + 1)
  }

  /** Empty and zero values count as absent. */
  predicate Truthy(v: Json) {
    match v
    case Null => false
    case Bool(b) => b
    case Int(i) => i != 0
    case Real(x) => x != 0.0
    case String(s) => s != []
    case Array(items) => items != []
    case Object(members) => members != []
  }

  predicate Supplied(v: Option<Json>) { v.Some? && Truthy(v.value) }

  function FragmentWrites(f: Json): seq<Write> {
    if !f.Object? then [Fault]
    else
      var target, properties, children := Get(f, TARGET), Get(f, PROPERTIES), Get(f, CHILDREN);
      if target.None? || !target.value.String? || target.value.s == [] || target.value.s[0] != SLASH then [Fault]
      else
        var path := target.value.s;
        [Touch(path)]
        + (if !Supplied(properties) then [] else if !properties.value.Object? then [Fault]
            else SetWrites(path, properties.value, 0))
        + (if !Supplied(children) then [] else if !children.value.Object? then [Fault]
            else ChildrenWrites(path, children.value, 0))
  }

  function FragmentsWrites(list: seq<Json>, i: nat): seq<Write>
    requires i <= |list|
    decreases |list| - i
  {
    if i == |list| then [] else FragmentWrites(list[i]) + FragmentsWrites(list, i + 1)
  }

  /** The part of the document outside its fragments. */
  function HeadWrites(str: Printer, document: Json): seq<Write>
    requires document.Object?
  {
    var name, compatible, boot, memory := Get(document, NAME), Get(document, COMPATIBLE), Get(document, BOOT),
      Get(document, MEMORY);
    (if name.Some? then [Set([SLASH], NAME, name.value)] else [])
    + (if compatible.Some? then [Set([SLASH], COMPATIBLE, compatible.value)] else [])
    + (if boot.None? then [] else if !boot.value.Object? then [Fault] else TreeWrites(str, [SLASH] + BOOT, boot.value))
    + (if memory.None? then [] else TreeWrites(str, [SLASH] + MEMORY, Object([Member(REGIONS, memory.value)])))
  }

  function DocumentWrites(str: Printer, document: Json): seq<Write>
    requires document.Object?
  {
    var fragments := Get(document, FRAGMENTS);
    HeadWrites(str, document)
    + (if fragments.None? then [] else if !fragments.value.Array? then [Fault]
        else FragmentsWrites(fragments.value.items, 0))
  }

  const ROOT_ONLY: Nodes := map[[SLASH] := map[]]

  predicate ValueFits(v: Value) {
    (v.Number? ==> v.n < U32) && (v.Numbers? ==> forall k | 0 <= k < |v.ns| :: v.ns[k] < U32)
  }
}
