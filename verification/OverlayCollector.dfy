/** The overlay compiler's walk over a document, step by step, and the way of what it collects through
    packing and loading. */
module OverlayCollector {
  import opened OverlayFormat
  import opened OverlayCompile
  import opened OverlayTree
  import opened OverlayLoader
  import opened OverlayDocument
  import opened OverlayMeaning

  /** The nodes collected so far. A method that answers false has raised an error. */
  class Collector {
    const str: Printer
    var nodes: Nodes

    constructor (str: Printer)
      ensures nodes == ROOT_ONLY && this.str == str
    {
      this.str := str;
      nodes := ROOT_ONLY;
    }

    method Need(path: Text)
      modifies `nodes
      ensures Run(old(nodes), [Touch(path)]) == Some(nodes)
    {
      RunOne(nodes, Touch(path));
      if path !in nodes { nodes := nodes[path := map[]]; }
    }

    method AddProperty(path: Text, name: Text, value: Json) returns (ok: bool)
      modifies `nodes
      ensures Done(ok, old(nodes), [Set(path, name, value)], nodes)
    {
      RunOne(nodes, Set(path, name, value));
      if path !in nodes { nodes := nodes[path := map[]]; }
      var v := Valued(value);
      if v.None? { return false; }
      nodes := nodes[path := nodes[path][name := v.value]];
      ok := true;
    }

    method AddObjectAsTree(path: Text, obj: Json) returns (ok: bool)
      requires obj.Object?
      modifies `nodes
      ensures Done(ok, old(nodes), TreeWrites(str, path, obj), nodes)
      decreases obj, 1, 0
    {
      ghost var was := nodes;
      Need(path);
      RunConcat(was, [Touch(path)], MembersWrites(str, path, obj, 0));
      ghost var start := nodes;
      var i := 0;
      while i < |obj.members|
        invariant 0 <= i <= |obj.members|
        invariant Run(start, MembersWrites(str, path, obj, 0)) == Run(nodes, MembersWrites(str, path, obj, i))
      {
        ghost var now := nodes;
        RunConcat(now, MemberWrites(str, path, obj.members[i].key, obj.members[i].value),
            MembersWrites(str, path, obj, i + 1));
        ok := AddMember(path, obj.members[i].key, obj.members[i].value);
        if !ok { return; }
        i := i + 1;
      }
      ok := true;
    }

    method AddMember(path: Text, key: Text, value: Json) returns (ok: bool)
      modifies `nodes
      ensures Done(ok, old(nodes), MemberWrites(str, path, key, value), nodes)
      decreases value, 2, 0
    {
      if value.Object? {
        ok := AddObjectAsTree(JoinPath(path, key), value);
      } else if value.Array? && value.items != [] && AllObjects(value.items) {
        ghost var was := nodes;
        var root := JoinPath(path, key);
        Need(root);
        RunConcat(was, [Touch(root)], ItemsWrites(str, root, key, value, 0));
        ok := AddItems(root, key, value);
      } else {
        ok := AddProperty(path, key, value);
      }
    }

    method AddItems(root: Text, key: Text, list: Json) returns (ok: bool)
      requires list.Array? && AllObjects(list.items)
      modifies `nodes
      ensures Done(ok, old(nodes), ItemsWrites(str, root, key, list, 0), nodes)
      decreases list, 1, 0
    {
      hide TreeWrites, JoinPath, ItemName, Valued;
      ghost var start := nodes;
      var i := 0;
      while i < |list.items|
        invariant 0 <= i <= |list.items|
        invariant Run(start, ItemsWrites(str, root, key, list, 0)) == Run(nodes, ItemsWrites(str, root, key, list, i))
      {
        var path := JoinPath(root, ItemName(str, key, list.items[i], i));
        RunConcat(nodes, TreeWrites(str, path, list.items[i]), ItemsWrites(str, root, key, list, i + 1));
        ok := AddObjectAsTree(path, list.items[i]);
        if !ok { return; }
        i := i + 1;
      }
      ok := true;
    }

    method AddProperties(path: Text, obj: Json) returns (ok: bool)
      requires obj.Object?
      modifies `nodes
      ensures Done(ok, old(nodes), SetWrites(path, obj, 0), nodes)
    {
      ghost var start := nodes;
      var i := 0;
      while i < |obj.members|
        invariant 0 <= i <= |obj.members|
        invariant Run(start, SetWrites(path, obj, 0)) == Run(nodes, SetWrites(path, obj, i))
      {
        RunConcat(nodes, [Set(path, obj.members[i].key, obj.members[i].value)], SetWrites(path, obj, i + 1));
        ok := AddProperty(path, obj.members[i].key, obj.members[i].value);
        if !ok { return; }
        i := i + 1;
      }
      ok := true;
    }

    method AddChild(target: Text, name: Text, child: Json) returns (ok: bool)
      modifies `nodes
      ensures Done(ok, old(nodes), ChildWrites(target, name, child), nodes)
    {
      hide SetWrites, JoinPath, Valued, Do;
      if !child.Object? {
        RunFault(nodes);
        return false;
      }
      var path := JoinPath(target, name);
      RunConcat(nodes, [Touch(path)], SetWrites(path, child, 0));
      Need(path);
      ok := AddProperties(path, child);
    }

    method AddChildren(target: Text, obj: Json) returns (ok: bool)
      requires obj.Object?
      modifies `nodes
      ensures Done(ok, old(nodes), ChildrenWrites(target, obj, 0), nodes)
    {
      hide ChildWrites, JoinPath, Valued, Do;
      ghost var start := nodes;
      var i := 0;
      while i < |obj.members|
        invariant 0 <= i <= |obj.members|
        invariant Run(start, ChildrenWrites(target, obj, 0)) == Run(nodes, ChildrenWrites(target, obj, i))
      {
        var name, child := obj.members[i].key, obj.members[i].value;
        RunConcat(nodes, ChildWrites(target, name, child), ChildrenWrites(target, obj, i + 1));
        ok := AddChild(target, name, child);
        if !ok { return; }
        i := i + 1;
      }
      ok := true;
    }

    method AddFragment(f: Json) returns (ok: bool)
      modifies `nodes
      ensures Done(ok, old(nodes), FragmentWrites(f), nodes)
      ensures Keyed(f) ==> (ok <==> FragmentShaped(f) && FragmentRead(f))
      ensures Keyed(f) && ok ==> AddsFragment(f, old(nodes), nodes)
    {
      hide FragmentShaped, FragmentRead, AddsFragment, Keyed, JoinPath, Valued;
      if Keyed(f) { FragmentAdds(f, nodes); }
      RunFault(nodes);
      if !f.Object? { return false; }
      var target, properties, children := Get(f, TARGET), Get(f, PROPERTIES), Get(f, CHILDREN);
      if target.None? || !target.value.String? || target.value.s == [] || target.value.s[0] != SLASH { return false; }
      var path := target.value.s;
      ghost var was := nodes;
      ghost var first: seq<Write> := if !Supplied(properties) then [] else if !properties.value.Object? then [Fault]
        else SetWrites(path, properties.value, 0);
      ghost var second: seq<Write> := if !Supplied(children) then [] else if !children.value.Object? then [Fault]
        else ChildrenWrites(path, children.value, 0);
      RunConcat(was, [Touch(path)] + first, second);
      RunConcat(was, [Touch(path)], first);
      Need(path);
      RunFault(nodes);
      if Supplied(properties) {
        if !properties.value.Object? { return false; }
        ok := AddProperties(path, properties.value);
        if !ok { return; }
      }
      RunFault(nodes);
      if Supplied(children) {
        if !children.value.Object? { return false; }
        ok := AddChildren(path, children.value);
        if !ok { return; }
      }
      ok := true;
    }

    method AddHead(document: Json) returns (ok: bool)
      requires document.Object?
      modifies `nodes
      ensures Done(ok, old(nodes), HeadWrites(str, document), nodes)
    {
      var name, compatible, boot, memory := Get(document, NAME), Get(document, COMPATIBLE), Get(document, BOOT),
        Get(document, MEMORY);
      ghost var was := nodes;
      ghost var w1: seq<Write> := if name.Some? then [Set([SLASH], NAME, name.value)] else [];
      ghost var w2: seq<Write> := if compatible.Some? then [Set([SLASH], COMPATIBLE, compatible.value)] else [];
      ghost var w3: seq<Write> := if boot.None? then [] else if !boot.value.Object? then [Fault]
        else TreeWrites(str, [SLASH] + BOOT, boot.value);
      ghost var w4: seq<Write> := if memory.None? then []
        else TreeWrites(str, [SLASH] + MEMORY, Object([Member(REGIONS, memory.value)]));
      RunConcat(was, w1 + w2 + w3, w4);
      RunConcat(was, w1 + w2, w3);
      RunConcat(was, w1, w2);
      if name.Some? {
        ok := AddProperty([SLASH], NAME, name.value);
        if !ok { return; }
      }
      if compatible.Some? {
        ok := AddProperty([SLASH], COMPATIBLE, compatible.value);
        if !ok { return; }
      }
      RunFault(nodes);
      if boot.Some? {
        if !boot.value.Object? { return false; }
        ok := AddObjectAsTree([SLASH] + BOOT, boot.value);
        if !ok { return; }
      }
      if memory.Some? {
        ok := AddObjectAsTree([SLASH] + MEMORY, Object([Member(REGIONS, memory.value)]));
        if !ok { return; }
      }
      ok := true;
    }

    method AddFragments(list: seq<Json>) returns (ok: bool)
      modifies `nodes
      ensures Done(ok, old(nodes), FragmentsWrites(list, 0), nodes)
    {
      hide FragmentWrites;
      ghost var start := nodes;
      var i := 0;
      while i < |list|
        invariant 0 <= i <= |list|
        invariant Run(start, FragmentsWrites(list, 0)) == Run(nodes, FragmentsWrites(list, i))
      {
        RunConcat(nodes, FragmentWrites(list[i]), FragmentsWrites(list, i + 1));
        ok := AddFragment(list[i]);
        if !ok { return; }
        i := i + 1;
      }
      ok := true;
    }

    /** Collects a whole document: it is taken exactly when it has the right shape and its values can be
        read, and the nodes and properties are then what it says. */
    method CollectNodes(document: Json) returns (ok: bool)
      requires document.Object? && Keyed(document) && nodes == ROOT_ONLY
      modifies `nodes
      ensures ok <==> Shaped(document) && AllRead(str, document)
      ensures ok ==> Collected(str, document, nodes) && CollectedFit(nodes)
    {
      hide Run, HeadWrites, FragmentsWrites, CollectedFit, Shaped, AllRead, Collected, Keyed;
      CollectedMeans(str, document);
      var fragments := Get(document, FRAGMENTS);
      ghost var tail: seq<Write> := if fragments.None? then [] else if !fragments.value.Array? then [Fault]
        else FragmentsWrites(fragments.value.items, 0);
      RunConcat(nodes, HeadWrites(str, document), tail);
      ok := AddHead(document);
      if !ok { return; }
      RunFault(nodes);
      if fragments.Some? {
        if !fragments.value.Array? { return false; }
        ok := AddFragments(fragments.value.items);
        if !ok { return; }
      } else {
        RunNone(nodes);
      }
      ok := true;
      RunFits(DocumentWrites(str, document));
    }
  }

  /** The writes were done, or one of them was refused. */
  predicate Done(ok: bool, before: Nodes, ws: seq<Write>, after: Nodes) {
    var r := Run(before, ws);
    (ok <==> r.Some?) && (ok ==> after == r.value)
  }

  /** The root is there, and every number fits its word. */
  ghost predicate CollectedFit(nodes: Nodes) {
    [SLASH] in nodes && forall path: Text, name: Text :: Prop(nodes, path, name).Some? ==>
      ValueFits(Prop(nodes, path, name).value)
  }

  lemma RunFits(ws: seq<Write>)
    ensures Run(ROOT_ONLY, ws).Some? ==> CollectedFit(Run(ROOT_ONLY, ws).value)
  {
    forall path: Text, name: Text
      ensures Run(ROOT_ONLY, ws).Some? ==>
                var v := Prop(Run(ROOT_ONLY, ws).value, path, name);
                [SLASH] in Run(ROOT_ONLY, ws).value && (v.Some? ==> ValueFits(v.value))
    {
      RunMeans(ROOT_ONLY, ws, path, name);
      RunMeans(ROOT_ONLY, ws, [SLASH], name);
    }
    var any: Text := [];
    RunMeans(ROOT_ONLY, ws, [SLASH], any);
  }

  // ----- from document to tree

  predicate HasName(n: Node, p: nat, name: Text) { p < |n.props| && n.props[p].name == name }

  /** The list holds the collected nodes, each once, in whatever order, and so for properties. */
  ghost predicate Arranged(nodes: Nodes, doc: seq<Node>) {
    && DistinctPaths(doc)
    && (forall i :: 0 <= i < |doc| ==> doc[i].path in nodes)
    && (forall path :: path in nodes ==> PathBy(doc, 0, path))
    && (forall i, p :: 0 <= i < |doc| && 0 <= p < |doc[i].props| ==>
          Prop(nodes, doc[i].path, doc[i].props[p].name) == Some(doc[i].props[p].value))
    && (forall i: nat, name :: i < |doc| && Prop(nodes, doc[i].path, name).Some? ==>
        exists p: nat :: HasName(doc[i], p, name))
  }

  /** Compiled in any order and loaded into a reset tree, a document gives exactly the nodes and
      properties that were collected from it, and a value comes back exactly when it is within the
      loader's limits. */
  lemma CollectedIsLoaded(nodes: Nodes, doc: seq<Node>, path: Text, name: Text)
    requires Arranged(nodes, doc) && [SLASH] in nodes
    ensures var t := PutAll(RESET, doc, 0);
            && (path in t.nodes <==> path in nodes)
            && (path in nodes ==> Look(t, path) == Some((Clip(NodeName(path), NAME_SIZE),
                Clip(ParentPath(path), PATH_SIZE))))
            && ((path, name) in t.props <==> Prop(nodes, path, name).Some?)
            && (Prop(nodes, path, name).Some? ==>
                  (Meaning(t.props[(path, name)]) == Prop(nodes, path, name).value <==>
                   WithinLimits(Prop(nodes, path, name).value)))
  {
    var key := (path, name);
    ResetLoad(doc, key, path);
    if path in nodes { ResetNames(doc, path); }
    if Prop(nodes, path, name).Some? {
      assert PathBy(doc, 0, path);
      var j: nat :| From(doc, 0, j) && doc[j].path == path;
      var p: nat :| HasName(doc[j], p, name);
      assert Gives(doc[j], 0, p, key);
      assert Given(doc[j], 0, key);
      assert Prop(nodes, doc[j].path, doc[j].props[p].name) == Some(doc[j].props[p].value);
    }
    if GivenBy(doc, 0, key) {
      var j: nat :| From(doc, 0, j) && Given(doc[j], 0, key);
      var p: nat :| Gives(doc[j], 0, p, key);
      assert Prop(nodes, doc[j].path, doc[j].props[p].name) == Some(doc[j].props[p].value);
    }
  }

  /** What a document says last of a property is what the kernel's tree then holds, within its limits. */
  lemma SaidIsLoaded(str: Printer, d: Json, nodes: Nodes, doc: seq<Node>, at: nat, part: nat, path: Text, name: Text,
          v: Json)
    requires AllRead(str, d) && Collected(str, d, nodes) && Arranged(nodes, doc)
    requires SaidLast(str, d, at, part, path, name, v)
    ensures Valued(v).Some?
    ensures var t := PutAll(RESET, doc, 0);
            && path in t.nodes && (path, name) in t.props
            && (Meaning(t.props[(path, name)]) == Valued(v).value <==> WithinLimits(Valued(v).value))
  {
    hide Says, Arranged, PutAll, Valued, Meaning, WithinLimits;
    assert Says(str, d, at, part, path, name, v);
    assert Mentions(str, d, [SLASH]) && Prop(nodes, path, name) == Valued(v);
    CollectedIsLoaded(nodes, doc, path, name);
  }

  /** A document that was collected, arranged and packed is taken by the loader as what it says. */
  lemma DocumentIsTaken(nodes: Nodes, doc: seq<Node>, image: Image)
    requires CollectedFit(nodes) && Arranged(nodes, doc)
    ensures forall i :: 0 <= i < |doc| ==> ValuesFit(doc[i])
    ensures Encodes(image, doc) && Packable(image) && DocNames(doc) ==> Sound(Blob(image), doc)
  {
    forall i | 0 <= i < |doc|
      ensures ValuesFit(doc[i])
    {
      forall p | 0 <= p < |doc[i].props|
        ensures ValueFits(doc[i].props[p].value)
      {
        assert Prop(nodes, doc[i].path, doc[i].props[p].name) == Some(doc[i].props[p].value);
      }
    }
    if Encodes(image, doc) && Packable(image) && DocNames(doc) { CompiledIsSound(image, doc); }
  }
}
