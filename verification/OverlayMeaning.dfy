/** What an overlay document says: which nodes it names, and which value it gives a property, read off
    the document itself. The assignments that the compiler makes of it are shown to say the same. */
module OverlayMeaning {
  import opened OverlayFormat
  import opened OverlayCompile
  import opened OverlayTree
  import opened OverlayDocument

  predicate Has(obj: Json, key: Text, v: Json) {
    obj.Object? && exists k :: 0 <= k < |obj.members| && obj.members[k] == Member(key, v)
  }

  lemma {:induction false} GetUpToMeans(ms: seq<Member>, n: nat, key: Text)
    requires n <= |ms|
    ensures GetUpTo(ms, n, key).None? <==> forall k :: 0 <= k < n ==> ms[k].key != key
    ensures GetUpTo(ms, n, key).Some? ==> exists k :: 0 <= k < n && ms[k] == Member(key, GetUpTo(ms, n, key).value)
  {
    if n > 0 && ms[n - 1].key != key { GetUpToMeans(ms, n - 1, key); }
  }

  /** Looking a key up gives its one value. */
  lemma GetMeans(obj: Json, key: Text)
    requires obj.Object? && Keyed(obj)
    ensures forall v :: Get(obj, key) == Some(v) <==> Has(obj, key, v)
    ensures Get(obj, key).Some? ==> Keyed(Get(obj, key).value)
  {
    GetUpToMeans(obj.members, |obj.members|, key);
    forall v | Has(obj, key, v) ensures Get(obj, key) == Some(v) {
      var k :| 0 <= k < |obj.members| && obj.members[k] == Member(key, v);
      assert obj.members[k].key == key;
    }
  }

  // ----- values

  /** How a value is written in a document. */
  function Literal(v: Value): Json {
    match v
    case Flag(b) => Bool(b)
    case Number(n) => Int(n)
    case Str(s) => String(s)
    case Numbers(ns) => Array(seq(|ns|, (k: nat) requires k < |ns| => Int(ns[k])))
    case Strs(ts) => Array(seq(|ts|, (k: nat) requires k < |ts| => String(ts[k])))
  }

  /** In a list a truth value stands for 0 or 1. */
  predicate Alike(a: Json, b: Json) {
    if a.Array? && b.Array? then
      |a.items| == |b.items| && forall k :: 0 <= k < |a.items| ==>
        a.items[k] == b.items[k] || (a.items[k].Bool? && b.items[k] == Int(if a.items[k].b then 1 else 0))
    else a == b
  }

  /** A value written out is read as that value; the empty list is one of numbers. */
  lemma LiteralIsRead(v: Value)
    requires ValueFits(v) && v != Strs([])
    ensures Valued(Literal(v)) == Some(v)
  {
    match v {
      case Numbers(ns) =>
        var items := Literal(v).items;
        assert AllInts(items) && forall k | 0 <= k < |items| :: IsWord(IntOf(items[k]));
        assert WordsFrom(items) == ns;
      case Strs(ts) =>
        var items := Literal(v).items;
        assert items[0].String? && AllStrings(items);
        assert Valued(Literal(v)).value.ss == ts;
      case _ =>
    }
  }

  /** What is read is what is written, and all that is written so is read. */
  lemma ReadIsLiteral(j: Json)
    ensures Valued(j).Some? ==> Alike(j, Literal(Valued(j).value)) && ValueFits(Valued(j).value)
    ensures Valued(j).None? ==> forall v: Value :: ValueFits(v) ==> !Alike(j, Literal(v))
  {
    if Valued(j).None? {
      forall v: Value | ValueFits(v) ensures !Alike(j, Literal(v)) {
        if Alike(j, Literal(v)) && j.Array? {
          var items := Literal(v).items;
          assert v.Numbers? ==> forall k | 0 <= k < |j.items| :: items[k] == Int(v.ns[k]);
          assert v.Numbers? ==> AllInts(j.items);
          assert v.Strs? ==> AllStrings(j.items);
        }
      }
    }
  }

  // ----- where the objects inside an object stand

  /** A list that becomes a node with a child for each item. */
  predicate ObjectList(v: Json) { v.Array? && v.items != [] && AllObjects(v.items) }

  /** A member that becomes a property. */
  predicate Simple(v: Json) { !v.Object? && !ObjectList(v) }

  /** The item's own name, or the list's key and its place. */
  ghost predicate Called(str: Printer, key: Text, item: Json, i: nat, n: Text) {
    if exists v :: Has(item, NAME, v) then exists v :: Has(item, NAME, v) && n == str(v)
    else n == key + [AT_SIGN] + str(Int(i))
  }

  /** Object `c` at path `q` is an object member, or an item of a list member, of object `o` at path `p`. */
  ghost predicate Inner(str: Printer, p: Text, o: Json, q: Text, c: Json) {
    o.Object? && exists k :: 0 <= k < |o.members| && InMember(str, p, o.members[k].key, o.members[k].value, q, c)
  }

  ghost predicate InMember(str: Printer, p: Text, key: Text, value: Json, q: Text, c: Json) {
    || (value.Object? && c == value && q == JoinPath(p, key))
    || (ObjectList(value) && exists i: nat :: IsItem(str, p, key, value, i, q, c))
  }

  ghost predicate IsItem(str: Printer, p: Text, key: Text, list: Json, i: nat, q: Text, c: Json) {
    && list.Array? && i < |list.items| && c == list.items[i]
    && exists n :: Called(str, key, c, i, n) && q == JoinPath(JoinPath(p, key), n)
  }

  /** Object `c` at path `q` lies `depth` levels inside object `o` at path `p`. */
  ghost predicate Below(str: Printer, depth: nat, p: Text, o: Json, q: Text, c: Json) {
    if depth == 0 then q == p && c == o
    else exists m, d :: Inner(str, p, o, m, d) && Below(str, depth - 1, m, d, q, c)
  }

  /** An object inside `o`, or `o` itself, stands at `q` and has this simple member. */
  ghost predicate TreeSays(str: Printer, p: Text, o: Json, q: Text, name: Text, v: Json) {
    Simple(v) && exists depth, c :: Below(str, depth, p, o, q, c) && Has(c, name, v)
  }

  /** A node comes from an object, or from a list of objects. */
  ghost predicate TreeNames(str: Printer, p: Text, o: Json, q: Text) {
    || (exists depth, c :: Below(str, depth, p, o, q, c))
    || (exists depth, m, c, key, v ::
          Below(str, depth, p, o, m, c) && Has(c, key, v) && ObjectList(v) && q == JoinPath(m, key))
  }

  ghost predicate TreeMeans(str: Printer, p: Text, o: Json, w: Write) {
    match w
    case Touch(q) => TreeNames(str, p, o, q)
    case Set(q, name, v) => TreeSays(str, p, o, q, name, v)
    case Fault => false
  }

  ghost predicate MemberMeans(str: Printer, p: Text, key: Text, value: Json, w: Write) {
    if value.Object? then TreeMeans(str, JoinPath(p, key), value, w)
    else if ObjectList(value) then
      w == Touch(JoinPath(p, key)) || exists q, c :: InMember(str, p, key, value, q, c) && TreeMeans(str, q, c, w)
    else w == Set(p, key, value)
  }

  lemma BelowNone(str: Printer, p: Text, o: Json)
    ensures Below(str, 0, p, o, p, o)
  {}

  lemma BelowMore(str: Printer, depth: nat, p: Text, o: Json, m: Text, d: Json, q: Text, c: Json)
    requires Inner(str, p, o, m, d) && Below(str, depth, m, d, q, c)
    ensures Below(str, depth + 1, p, o, q, c)
  {}

  /** What the objects inside an object mean, it means too. */
  lemma InnerMeans(str: Printer, p: Text, o: Json, m: Text, d: Json, w: Write)
    requires Inner(str, p, o, m, d) && TreeMeans(str, m, d, w)
    ensures TreeMeans(str, p, o, w)
  {
    match w {
      case Touch(q) =>
        if depth: nat, c :| Below(str, depth, m, d, q, c) {
          BelowMore(str, depth, p, o, m, d, q, c);
        } else {
          var depth: nat, n, c, key, v :|
            Below(str, depth, m, d, n, c) && Has(c, key, v) && ObjectList(v) && q == JoinPath(n, key);
          BelowMore(str, depth, p, o, m, d, n, c);
        }
      case Set(q, name, v) =>
        var depth: nat, c :| Below(str, depth, m, d, q, c) && Has(c, name, v);
        BelowMore(str, depth, p, o, m, d, q, c);
      case Fault =>
    }
  }

  lemma MemberIsMeant(str: Printer, p: Text, o: Json, k: nat, w: Write)
    requires o.Object? && k < |o.members| && MemberMeans(str, p, o.members[k].key, o.members[k].value, w)
    ensures TreeMeans(str, p, o, w)
  {
    var key, value := o.members[k].key, o.members[k].value;
    assert o.members[k] == Member(key, value);
    BelowNone(str, p, o);
    assert Has(o, key, value);
    if value.Object? {
      assert InMember(str, p, key, value, JoinPath(p, key), value);
      InnerMeans(str, p, o, JoinPath(p, key), value, w);
    } else if ObjectList(value) && w != Touch(JoinPath(p, key)) {
      var q, c :| InMember(str, p, key, value, q, c) && TreeMeans(str, q, c, w);
      InnerMeans(str, p, o, q, c, w);
    }
  }

  /** An object means its own path and what its members mean. */
  lemma TreeMeansIff(str: Printer, p: Text, o: Json, w: Write)
    requires o.Object?
    ensures TreeMeans(str, p, o, w) <==>
            || w == Touch(p)
            || exists k :: 0 <= k < |o.members| && MemberMeans(str, p, o.members[k].key, o.members[k].value, w)
  {
    BelowNone(str, p, o);
    forall k | 0 <= k < |o.members| && MemberMeans(str, p, o.members[k].key, o.members[k].value, w)
      ensures TreeMeans(str, p, o, w)
    {
      MemberIsMeant(str, p, o, k, w);
    }
    if TreeMeans(str, p, o, w) && w != Touch(p) {
      match w {
        case Touch(q) =>
          if depth: nat, c :| Below(str, depth, p, o, q, c) {
            FromBelow(str, depth, p, o, q, c, w);
          } else {
            var depth: nat, m, c, key, v :|
              Below(str, depth, p, o, m, c) && Has(c, key, v) && ObjectList(v) && q == JoinPath(m, key);
            FromBelow(str, depth, p, o, m, c, w);
          }
        case Set(q, name, v) =>
          var depth: nat, c :| Below(str, depth, p, o, q, c) && Has(c, name, v);
          FromBelow(str, depth, p, o, q, c, w);
        case Fault =>
      }
    }
  }

  /** What is meant `depth` levels inside comes from a member. */
  lemma FromBelow(str: Printer, depth: nat, p: Text, o: Json, q: Text, c: Json, w: Write)
    requires o.Object? && Below(str, depth, p, o, q, c) && w != Touch(p)
    requires w == Touch(q) || (w.Set? && w.path == q && Simple(w.value) && Has(c, w.name, w.value))
             || exists key, v :: Has(c, key, v) && ObjectList(v) && w == Touch(JoinPath(q, key))
    ensures exists k :: 0 <= k < |o.members| && MemberMeans(str, p, o.members[k].key, o.members[k].value, w)
  {
    if depth == 0 {
      if w.Set? {
        var k :| 0 <= k < |o.members| && o.members[k] == Member(w.name, w.value);
        assert MemberMeans(str, p, o.members[k].key, o.members[k].value, w);
      } else {
        var key, v :| Has(c, key, v) && ObjectList(v) && w == Touch(JoinPath(q, key));
        var k :| 0 <= k < |o.members| && o.members[k] == Member(key, v);
        assert MemberMeans(str, p, o.members[k].key, o.members[k].value, w);
      }
    } else {
      var m, d :| Inner(str, p, o, m, d) && Below(str, depth - 1, m, d, q, c);
      var k :| 0 <= k < |o.members| && InMember(str, p, o.members[k].key, o.members[k].value, m, d);
      assert TreeMeans(str, m, d, w);
      assert MemberMeans(str, p, o.members[k].key, o.members[k].value, w);
    }
  }

  // ----- the assignments of a tree

  lemma NameIsCalled(str: Printer, key: Text, item: Json, i: nat)
    requires item.Object? && Keyed(item)
    ensures forall n :: Called(str, key, item, i, n) <==> n == ItemName(str, key, item, i)
  {
    GetMeans(item, NAME);
  }

  /** The assignments made of an object are what it means. */
  lemma {:induction false} TreeHas(str: Printer, p: Text, o: Json, w: Write)
    requires o.Object? && Keyed(o)
    ensures w in TreeWrites(str, p, o) <==> TreeMeans(str, p, o, w)
    decreases o, 1, 0
  {
    MembersHave(str, p, o, 0, w);
    TreeMeansIff(str, p, o, w);
  }

  lemma {:induction false} MembersHave(str: Printer, p: Text, o: Json, i: nat, w: Write)
    requires o.Object? && Keyed(o) && i <= |o.members|
    ensures w in MembersWrites(str, p, o, i) <==>
            exists k :: i <= k < |o.members| && MemberMeans(str, p, o.members[k].key, o.members[k].value, w)
    decreases o, 0, |o.members| - i
  {
    if i < |o.members| {
      MemberHas(str, p, o.members[i].key, o.members[i].value, w);
      MembersHave(str, p, o, i + 1, w);
    }
  }

  lemma {:induction false} MemberHas(str: Printer, p: Text, key: Text, value: Json, w: Write)
    requires Keyed(value)
    ensures w in MemberWrites(str, p, key, value) <==> MemberMeans(str, p, key, value, w)
    decreases value, 2, 0
  {
    if value.Object? {
      TreeHas(str, JoinPath(p, key), value, w);
    } else if ObjectList(value) {
      ItemsHave(str, p, key, value, 0, w);
    }
  }

  lemma {:induction false} ItemsHave(str: Printer, p: Text, key: Text, list: Json, i: nat, w: Write)
    requires list.Array? && AllObjects(list.items) && i <= |list.items| && Keyed(list)
    ensures w in ItemsWrites(str, JoinPath(p, key), key, list, i) <==>
            exists j: nat, q, c :: j >= i && IsItem(str, p, key, list, j, q, c) && TreeMeans(str, q, c, w)
    decreases list, 0, |list.items| - i
  {
    hide TreeWrites, JoinPath, ItemName, Called, TreeMeans, MemberMeans, ObjectList;
    if i < |list.items| {
      var c := list.items[i];
      var q := JoinPath(JoinPath(p, key), ItemName(str, key, c, i));
      NameIsCalled(str, key, c, i);
      TreeHas(str, q, c, w);
      ItemsHave(str, p, key, list, i + 1, w);
      assert IsItem(str, p, key, list, i, q, c);
    }
  }

  // ----- fragments

  /** Part 0 of a fragment are its properties, at the target; part `k` + 1 are the properties of its
      `k`th child, at the child's path below the target. */
  ghost predicate FragmentSays(f: Json, part: nat, path: Text, name: Text, v: Json) {
    exists target :: Has(f, TARGET, String(target)) && SaysAt(f, target, part, path, name, v)
  }

  ghost predicate SaysAt(f: Json, target: Text, part: nat, path: Text, name: Text, v: Json) {
    if part == 0 then path == target && exists properties :: Has(f, PROPERTIES, properties) && Has(properties, name, v)
    else exists children :: Has(f, CHILDREN, children) && ChildSays(children, target, part - 1, path, name, v)
  }

  predicate ChildSays(children: Json, target: Text, k: nat, path: Text, name: Text, v: Json) {
    && children.Object? && k < |children.members|
    && path == JoinPath(target, children.members[k].key) && Has(children.members[k].value, name, v)
  }

  /** It names its target and its children's paths. */
  ghost predicate FragmentNames(f: Json, path: Text) {
    exists target :: Has(f, TARGET, String(target)) && (path == target || NamesChild(f, target, path))
  }

  ghost predicate NamesChild(f: Json, target: Text, path: Text) {
    exists children :: Has(f, CHILDREN, children) && children.Object?
                       && exists k :: 0 <= k < |children.members| && path == JoinPath(target, children.members[k].key)
  }

  /** What counts as no object at all. */
  predicate Nothing(v: Json) { v in {Null, Bool(false), Int(0), Real(0.0), String([]), Array([])} }

  ghost predicate FragmentShaped(f: Json) {
    && f.Object?
    && (exists target :: Has(f, TARGET, String(target)) && target != [] && target[0] == SLASH)
    && (forall v :: Has(f, PROPERTIES, v) ==> v.Object? || Nothing(v))
    && (forall v :: Has(f, CHILDREN, v) ==> (v.Object? || Nothing(v)) && AllMembersObjects(v))
  }

  predicate AllMembersObjects(v: Json) {
    v.Object? ==> forall k :: 0 <= k < |v.members| ==> v.members[k].value.Object?
  }

  lemma {:induction false} SetHas(path: Text, obj: Json, i: nat, w: Write)
    requires obj.Object? && i <= |obj.members|
    ensures w in SetWrites(path, obj, i) <==>
            w.Set? && w.path == path && exists k :: i <= k < |obj.members| && obj.members[k] == Member(w.name, w.value)
    decreases |obj.members| - i
  {
    if i < |obj.members| { SetHas(path, obj, i + 1, w); }
  }

  ghost predicate ChildMeans(target: Text, children: Json, k: nat, w: Write) {
    && children.Object? && k < |children.members|
    && var path, child := JoinPath(target, children.members[k].key), children.members[k].value;
       if !child.Object? then w == Fault
       else w == Touch(path) || (w.Set? && w.path == path && Has(child, w.name, w.value))
  }

  lemma {:induction false} ChildrenHave(target: Text, obj: Json, i: nat, w: Write)
    requires obj.Object? && i <= |obj.members|
    ensures w in ChildrenWrites(target, obj, i) <==> exists k: nat :: i <= k && ChildMeans(target, obj, k, w)
    decreases |obj.members| - i
  {
    if i < |obj.members| {
      var path, child := JoinPath(target, obj.members[i].key), obj.members[i].value;
      if child.Object? { SetHas(path, child, 0, w); }
      assert w in ChildWrites(target, obj.members[i].key, child) <==> ChildMeans(target, obj, i, w);
      ChildrenHave(target, obj, i + 1, w);
    }
  }

  /** The assignments of a fragment from one of its parts on. */
  function Rest(f: Json, target: Text, part: nat): seq<Write>
    requires f.Object?
  {
    var properties, children := Get(f, PROPERTIES), Get(f, CHILDREN);
    if part == 0 then
      (if properties.Some? && properties.value.Object? then SetWrites(target, properties.value, 0) else [])
      + (if children.Some? && children.value.Object? then ChildrenWrites(target, children.value, 0) else [])
    else if children.Some? && children.value.Object? && part - 1 <= |children.value.members|
    then ChildrenWrites(target, children.value, part - 1)
    else []
  }

  lemma {:induction false} ChildrenSplit(target: Text, obj: Json, i: nat) returns (before: seq<Write>)
    requires obj.Object? && i <= |obj.members|
    ensures ChildrenWrites(target, obj, 0) == before + ChildrenWrites(target, obj, i)
    decreases i
  {
    hide ChildWrites;
    if i == 0 {
      before := [];
    } else {
      before := ChildrenSplit(target, obj, i - 1);
      before := before + ChildWrites(target, obj.members[i - 1].key, obj.members[i - 1].value);
    }
  }

  lemma ChildrenFault(target: Text, obj: Json)
    requires obj.Object?
    ensures Fault in ChildrenWrites(target, obj, 0) <==> !AllMembersObjects(obj)
  {
    ChildrenHave(target, obj, 0, Fault);
    if k: nat :| k < |obj.members| && !obj.members[k].value.Object? { assert ChildMeans(target, obj, k, Fault); }
  }

  /** The shape of a part whose key is looked up. */
  lemma PartShape(f: Json, key: Text)
    requires f.Object? && Keyed(f)
    ensures (forall v :: Has(f, key, v) ==> v.Object? || Nothing(v)) <==>
            (Supplied(Get(f, key)) ==> Get(f, key).value.Object?)
  {
    GetMeans(f, key);
    var r := Get(f, key);
    if r.Some? { assert Has(f, key, r.value); }
  }

  /** The target of a fragment of the right shape. */
  lemma TargetIff(f: Json)
    requires f.Object? && Keyed(f)
    ensures (exists target :: Has(f, TARGET, String(target)) && target != [] && target[0] == SLASH) <==>
            var t := Get(f, TARGET); t.Some? && t.value.String? && t.value.s != [] && t.value.s[0] == SLASH
  {
    hide Has;
    GetMeans(f, TARGET);
  }

  lemma ChildrenShape(f: Json)
    requires f.Object? && Keyed(f)
    ensures (forall v :: Has(f, CHILDREN, v) ==> (v.Object? || Nothing(v)) && AllMembersObjects(v)) <==>
            var c := Get(f, CHILDREN); (Supplied(c) ==> c.value.Object?) && (c.Some? ==> AllMembersObjects(c.value))
  {
    hide Has;
    GetMeans(f, CHILDREN);
    PartShape(f, CHILDREN);
    if Get(f, CHILDREN).Some? { assert Has(f, CHILDREN, Get(f, CHILDREN).value); }
  }

  lemma PropertiesFault(f: Json, path: Text)
    requires f.Object?
    ensures var p := Get(f, PROPERTIES);
            var ws: seq<Write> := if !Supplied(p) then [] else if !p.value.Object? then [Fault]
                                  else SetWrites(path, p.value, 0);
            && (Fault in ws <==> Supplied(p) && !p.value.Object?)
            && (Fault !in ws ==> ws == if p.Some? && p.value.Object? then SetWrites(path, p.value, 0) else [])
  {
    var p := Get(f, PROPERTIES);
    if p.Some? && p.value.Object? { SetHas(path, p.value, 0, Fault); }
  }

  lemma ChildrenPartFault(f: Json, path: Text)
    requires f.Object?
    ensures var c := Get(f, CHILDREN);
            var ws: seq<Write> := if !Supplied(c) then [] else if !c.value.Object? then [Fault]
                                  else ChildrenWrites(path, c.value, 0);
            && (Fault in ws <==> (Supplied(c) && !c.value.Object?) || (c.Some? && !AllMembersObjects(c.value)))
            && (Fault !in ws ==> ws == if c.Some? && c.value.Object? then ChildrenWrites(path, c.value, 0) else [])
  {
    var c := Get(f, CHILDREN);
    if c.Some? && c.value.Object? { ChildrenFault(path, c.value); }
  }

  /** A fragment of the right shape makes no fault; one of another shape makes one. */
  lemma ShapedIff(f: Json)
    requires Keyed(f)
    ensures FragmentShaped(f) <==> Fault !in FragmentWrites(f)
    ensures FragmentShaped(f) ==>
              && f.Object? && Get(f, TARGET).Some? && Get(f, TARGET).value.String?
              && var target := Get(f, TARGET).value.s;
              FragmentWrites(f) == [Touch(target)] + Rest(f, target, 0)
  {
    hide Has, ChildrenWrites, SetWrites, Keyed, GetUpTo, Supplied, AllMembersObjects, Nothing;
    if f.Object? {
      TargetIff(f);
      PartShape(f, PROPERTIES);
      ChildrenShape(f);
      var target := Get(f, TARGET);
      if target.Some? && target.value.String? {
        PropertiesFault(f, target.value.s);
        ChildrenPartFault(f, target.value.s);
      }
    }
  }

  /** The assignments from a part on are what that part and the later ones say. */
  lemma RestHas(f: Json, target: Text, part: nat, w: Write)
    requires Keyed(f) && FragmentShaped(f) && w.Set?
    ensures w in Rest(f, target, part) <==> exists l: nat :: l >= part && SaysAt(f, target, l, w.path, w.name, w.value)
  {
    hide Has, ChildrenWrites, SetWrites, Keyed, GetUpTo, JoinPath;
    GetMeans(f, PROPERTIES);
    GetMeans(f, CHILDREN);
    var properties, children := Get(f, PROPERTIES), Get(f, CHILDREN);
    if properties.Some? && properties.value.Object? { PropertiesHave(target, properties.value, w); }
    if children.Some? && children.value.Object? {
      var c, from := children.value, if part == 0 then 0 else part - 1;
      if from <= |c.members| { ChildrenHave(target, c, from, w); }
      forall k: nat ensures ChildMeans(target, c, k, w) <==> SaysAt(f, target, k + 1, w.path, w.name, w.value) {
        ChildMeansSet(f, target, c, k, w);
      }
      if l: nat :| l >= part && l > 0 && SaysAt(f, target, l, w.path, w.name, w.value) {
        assert ChildMeans(target, c, l - 1, w);
        ChildInRange(target, c, l - 1, w);
      }
      if from <= |c.members| && w in ChildrenWrites(target, c, from) {
        var k: nat :| from <= k && ChildMeans(target, c, k, w);
        assert SaysAt(f, target, k + 1, w.path, w.name, w.value);
      }
    }
    if part == 0 && properties.Some? { HasIsObject(properties.value, w.name, w.value); }
    assert part == 0 && SaysAt(f, target, 0, w.path, w.name, w.value) ==>
      exists l: nat :: l >= part && SaysAt(f, target, l, w.path, w.name, w.value);
  }

  lemma HasIsObject(obj: Json, key: Text, v: Json)
    ensures Has(obj, key, v) ==> obj.Object?
  {}

  lemma ChildInRange(target: Text, children: Json, k: nat, w: Write)
    requires ChildMeans(target, children, k, w)
    ensures children.Object? && k < |children.members|
  {}

  lemma PropertiesHave(path: Text, obj: Json, w: Write)
    requires obj.Object? && w.Set?
    ensures w in SetWrites(path, obj, 0) <==> w.path == path && Has(obj, w.name, w.value)
  {
    SetHas(path, obj, 0, w);
  }

  lemma ChildMeansSet(f: Json, target: Text, children: Json, k: nat, w: Write)
    requires f.Object? && w.Set? && children.Object? && AllMembersObjects(children)
    requires forall v :: Has(f, CHILDREN, v) <==> v == children
    ensures ChildMeans(target, children, k, w) <==> SaysAt(f, target, k + 1, w.path, w.name, w.value)
  {
    hide Has, JoinPath;
    assert Has(f, CHILDREN, children);
  }

  /** The nodes they touch are the children's. */
  lemma RestTouches(f: Json, target: Text, path: Text)
    requires Keyed(f) && FragmentShaped(f)
    ensures Touch(path) in Rest(f, target, 0) <==> NamesChild(f, target, path)
    ensures Fault !in Rest(f, target, 0)
  {
    hide Has, ChildrenWrites, SetWrites, Keyed, GetUpTo, JoinPath;
    GetMeans(f, PROPERTIES);
    GetMeans(f, CHILDREN);
    var properties, children := Get(f, PROPERTIES), Get(f, CHILDREN);
    if properties.Some? && properties.value.Object? {
      SetHas(target, properties.value, 0, Touch(path));
      SetHas(target, properties.value, 0, Fault);
    }
    if children.Some? && children.value.Object? {
      ChildrenFault(target, children.value);
      ChildrenHave(target, children.value, 0, Touch(path));
      if k: nat :| k < |children.value.members| && path == JoinPath(target, children.value.members[k].key) {
        assert ChildMeans(target, children.value, k, Touch(path));
      }
    }
  }

  lemma OneTarget(f: Json, target: Text)
    requires Keyed(f) && f.Object? && Has(f, TARGET, String(target))
    ensures forall other :: Has(f, TARGET, String(other)) ==> other == target
    ensures Get(f, TARGET) == Some(String(target))
  {
    GetMeans(f, TARGET);
  }

  ghost predicate FragmentMeans(f: Json, w: Write) {
    match w
    case Touch(path) => FragmentNames(f, path)
    case Set(path, name, v) => exists part: nat :: FragmentSays(f, part, path, name, v)
    case Fault => false
  }

  /** The assignments of a fragment are what it says, and the nodes it names. */
  lemma FragmentHas(f: Json, w: Write)
    requires Keyed(f) && FragmentShaped(f)
    ensures w in FragmentWrites(f) <==> FragmentMeans(f, w)
  {
    hide FragmentWrites, Rest, Keyed, Has, FragmentShaped, SaysAt, NamesChild;
    ShapedIff(f);
    var target := Get(f, TARGET).value.s;
    GetMeans(f, TARGET);
    OneTarget(f, target);
    match w {
      case Touch(path) => RestTouches(f, target, path);
      case Set(path, name, v) =>
        RestHas(f, target, 0, w);
        forall part: nat ensures FragmentSays(f, part, path, name, v) <==> SaysAt(f, target, part, path, name, v) {}
      case Fault => RestTouches(f, target, target);
    }
  }

  lemma RestSplit(f: Json, target: Text, part: nat) returns (before: seq<Write>)
    requires f.Object? && part > 0 && Get(f, CHILDREN).Some? && Get(f, CHILDREN).value.Object?
    requires part - 1 <= |Get(f, CHILDREN).value.members|
    ensures Rest(f, target, 0) == before + Rest(f, target, part)
  {
    hide GetUpTo, SetWrites, ChildrenWrites;
    var properties, children := Get(f, PROPERTIES), Get(f, CHILDREN);
    before := ChildrenSplit(target, children.value, part - 1);
    if properties.Some? && properties.value.Object? { before := SetWrites(target, properties.value, 0) + before; }
  }

  lemma FragmentSplit(f: Json, part: nat, path: Text, name: Text, v: Json) returns (target: Text, before: seq<Write>)
    requires Keyed(f) && FragmentShaped(f) && FragmentSays(f, part, path, name, v)
    ensures Has(f, TARGET, String(target)) && FragmentWrites(f) == before + Rest(f, target, part)
  {
    hide FragmentWrites, Rest, Keyed, FragmentShaped, JoinPath, GetUpTo, Has;
    ShapedIff(f);
    target := Get(f, TARGET).value.s;
    GetMeans(f, TARGET);
    OneTarget(f, target);
    before := [Touch(target)];
    if part > 0 {
      GetMeans(f, CHILDREN);
      assert SaysAt(f, target, part, path, name, v);
      var skipped := RestSplit(f, target, part);
      before := before + skipped;
    }
  }

  // ----- the whole document

  lemma {:induction false} FragmentsHave(list: seq<Json>, i: nat, w: Write)
    requires i <= |list|
    ensures w in FragmentsWrites(list, i) <==> exists k :: i <= k < |list| && w in FragmentWrites(list[k])
    decreases |list| - i
  {
    hide FragmentWrites;
    if i < |list| {
      assert FragmentsWrites(list, i) == FragmentWrites(list[i]) + FragmentsWrites(list, i + 1);
      FragmentsHave(list, i + 1, w);
    }
  }

  lemma {:induction false} FragmentsSplit(list: seq<Json>, i: nat) returns (before: seq<Write>)
    requires i <= |list|
    ensures FragmentsWrites(list, 0) == before + FragmentsWrites(list, i)
    decreases i
  {
    hide FragmentWrites;
    if i == 0 {
      before := [];
    } else {
      before := FragmentsSplit(list, i - 1);
      before := before + FragmentWrites(list[i - 1]);
    }
  }

  /** The part of the document at place `at`: the name, the compatible text, the boot tree, the memory tree
      and then the fragments in turn. Only fragments have parts other than 0. */
  ghost predicate Says(str: Printer, d: Json, at: nat, part: nat, path: Text, name: Text, v: Json) {
    if at >= 4 then exists list :: Has(d, FRAGMENTS, list) && ItemSays(list, at - 4, part, path, name, v)
    else part == 0 && HeadSays(str, d, at, path, name, v)
  }

  ghost predicate ItemSays(list: Json, i: nat, part: nat, path: Text, name: Text, v: Json) {
    list.Array? && i < |list.items| && FragmentSays(list.items[i], part, path, name, v)
  }

  ghost predicate HeadSays(str: Printer, d: Json, at: nat, path: Text, name: Text, v: Json) {
    match at
    case 0 => path == [SLASH] && name == NAME && Has(d, NAME, v)
    case 1 => path == [SLASH] && name == COMPATIBLE && Has(d, COMPATIBLE, v)
    case 2 => exists boot :: Has(d, BOOT, boot) && TreeSays(str, [SLASH] + BOOT, boot, path, name, v)
    case 3 => exists memory :: Has(d, MEMORY, memory) && TreeSays(str, [SLASH] + MEMORY, Regions(memory), path, name, v)
    case _ => false
  }

  /** The memory tree has the document's memory as its one member. */
  function Regions(memory: Json): Json { Object([Member(REGIONS, memory)]) }

  /** The nodes: the root, those of the two trees, and the fragments'. */
  ghost predicate Mentions(str: Printer, d: Json, path: Text) {
    || path == [SLASH]
    || HeadNames(str, d, 2, path) || HeadNames(str, d, 3, path)
    || FragmentsName(d, path)
    || exists at: nat, part: nat, name, v :: Says(str, d, at, part, path, name, v)
  }

  ghost predicate HeadNames(str: Printer, d: Json, at: nat, path: Text) {
    match at
    case 2 => exists boot :: Has(d, BOOT, boot) && TreeNames(str, [SLASH] + BOOT, boot, path)
    case 3 => exists memory :: Has(d, MEMORY, memory) && TreeNames(str, [SLASH] + MEMORY, Regions(memory), path)
    case _ => false
  }

  ghost predicate FragmentsName(d: Json, path: Text) {
    exists list :: Has(d, FRAGMENTS, list) && ItemNames(list, path)
  }

  ghost predicate ItemNames(list: Json, path: Text) {
    list.Array? && exists i :: 0 <= i < |list.items| && FragmentNames(list.items[i], path)
  }

  ghost predicate Shaped(d: Json) {
    && (forall boot :: Has(d, BOOT, boot) ==> boot.Object?)
    && (forall list :: Has(d, FRAGMENTS, list) ==>
          list.Array? && forall i :: 0 <= i < |list.items| ==> FragmentShaped(list.items[i]))
  }

  /** The assignments of the document's head from one of its places on. */
  function HeadFrom(str: Printer, d: Json, at: nat): seq<Write>
    requires d.Object?
    decreases 4 - at
  {
    if at >= 4 then []
    else HeadAt(str, d, at) + HeadFrom(str, d, at + 1)
  }

  function HeadAt(str: Printer, d: Json, at: nat): seq<Write>
    requires d.Object? && at < 4
  {
    var name, compatible, boot, memory := Get(d, NAME), Get(d, COMPATIBLE), Get(d, BOOT), Get(d, MEMORY);
    match at
    case 0 => if name.Some? then [Set([SLASH], NAME, name.value)] else []
    case 1 => if compatible.Some? then [Set([SLASH], COMPATIBLE, compatible.value)] else []
    case 2 =>
      if boot.None? then [] else if !boot.value.Object? then [Fault] else TreeWrites(str, [SLASH] + BOOT, boot.value)
    case 3 => if memory.None? then [] else TreeWrites(str, [SLASH] + MEMORY, Regions(memory.value))
  }

  lemma HeadIsFrom(str: Printer, d: Json)
    requires d.Object?
    ensures HeadWrites(str, d) == HeadFrom(str, d, 0)
  {
    hide TreeWrites, GetUpTo;
    assert HeadFrom(str, d, 2) == HeadAt(str, d, 2) + (HeadAt(str, d, 3) + []);
    assert HeadFrom(str, d, 0) == HeadAt(str, d, 0) + (HeadAt(str, d, 1) + HeadFrom(str, d, 2));
  }

  lemma RegionsKeyed(memory: Json)
    requires Keyed(memory)
    ensures Keyed(Regions(memory))
  {}

  ghost predicate HeadMeans(str: Printer, d: Json, at: nat, w: Write) {
    match w
    case Touch(path) => HeadNames(str, d, at, path)
    case Set(path, name, v) => HeadSays(str, d, at, path, name, v)
    case Fault => false
  }

  /** What one place of the head makes. */
  lemma HeadAtHas(str: Printer, d: Json, at: nat, w: Write)
    requires d.Object? && Keyed(d) && at < 4 && Shaped(d)
    ensures w in HeadAt(str, d, at) <==> HeadMeans(str, d, at, w)
  {
    hide TreeWrites, GetUpTo, Has, Keyed, TreeSays, TreeNames, FragmentShaped;
    GetMeans(d, NAME);
    GetMeans(d, COMPATIBLE);
    GetMeans(d, BOOT);
    GetMeans(d, MEMORY);
    var boot, memory := Get(d, BOOT), Get(d, MEMORY);
    if at == 2 && boot.Some? { TreeHas(str, [SLASH] + BOOT, boot.value, w); }
    if at == 3 && memory.Some? {
      RegionsKeyed(memory.value);
      TreeHas(str, [SLASH] + MEMORY, Regions(memory.value), w);
    }
  }

  // ----- what is said last

  predicate After(at: nat, part: nat, from: nat, fromPart: nat) {
    at > from || (at == from && part >= fromPart)
  }

  ghost predicate LaterSays(str: Printer, d: Json, from: nat, fromPart: nat, w: Write)
    requires w.Set?
  {
    exists at: nat, part: nat :: After(at, part, from, fromPart) && Says(str, d, at, part, w.path, w.name, w.value)
  }

  ghost predicate SaidAt(str: Printer, d: Json, at: nat, w: Write)
    requires w.Set?
  {
    exists part: nat :: Says(str, d, at, part, w.path, w.name, w.value)
  }

  function Items(d: Json): seq<Json>
    requires d.Object?
  {
    var list := Get(d, FRAGMENTS);
    if list.Some? && list.value.Array? then list.value.items else []
  }

  lemma ItemsMean(d: Json)
    requires d.Object? && Keyed(d) && Shaped(d)
    ensures forall str: Printer, at: nat, part: nat, path, name, v :: at >= 4 ==>
              (Says(str, d, at, part, path, name, v) <==>
               at - 4 < |Items(d)| && FragmentSays(Items(d)[at - 4], part, path, name, v))
    ensures forall path :: FragmentsName(d, path) <==>
              exists i :: 0 <= i < |Items(d)| && FragmentNames(Items(d)[i], path)
    ensures forall i :: 0 <= i < |Items(d)| ==> Keyed(Items(d)[i]) && FragmentShaped(Items(d)[i])
    ensures forall str: Printer :: DocumentWrites(str, d) == HeadFrom(str, d, 0) + FragmentsWrites(Items(d), 0)
  {
    hide FragmentSays, FragmentNames, FragmentShaped, HeadWrites, HeadFrom, HeadSays, GetUpTo, FragmentWrites, Has;
    GetMeans(d, FRAGMENTS);
    var list := Get(d, FRAGMENTS);
    if list.Some? { assert Has(d, FRAGMENTS, list.value); }
    forall path ensures FragmentsName(d, path) <==>
        exists i :: 0 <= i < |Items(d)| && FragmentNames(Items(d)[i], path)
    {
      if list.Some? {
        assert Has(d, FRAGMENTS, list.value) && list.value.Array? && Items(d) == list.value.items;
        assert ItemNames(list.value, path) <==> exists i :: 0 <= i < |Items(d)| && FragmentNames(Items(d)[i], path);
        assert FragmentsName(d, path) <==> ItemNames(list.value, path);
      }
    }
    forall str: Printer ensures DocumentWrites(str, d) == HeadFrom(str, d, 0) + FragmentsWrites(Items(d), 0) {
      HeadIsFrom(str, d);
    }
  }

  lemma {:induction false} HeadFromHas(str: Printer, d: Json, at: nat, w: Write)
    requires d.Object? && Keyed(d) && at <= 4 && Shaped(d)
    ensures w in HeadFrom(str, d, at) <==> exists l: nat :: at <= l < 4 && HeadMeans(str, d, l, w)
    decreases 4 - at
  {
    hide HeadAt, HeadMeans, Keyed, Shaped;
    if at < 4 {
      HeadAtHas(str, d, at, w);
      HeadFromHas(str, d, at + 1, w);
    }
  }

  lemma {:induction false} HeadSplit(str: Printer, d: Json, at: nat) returns (before: seq<Write>)
    requires d.Object? && at <= 4
    ensures HeadFrom(str, d, 0) == before + HeadFrom(str, d, at)
    decreases at
  {
    hide HeadAt;
    if at == 0 {
      before := [];
    } else {
      before := HeadSplit(str, d, at - 1);
      before := before + HeadAt(str, d, at - 1);
    }
  }

  /** All fragments from one on. */
  lemma AllFragmentsHave(str: Printer, d: Json, i: nat, w: Write)
    requires d.Object? && Keyed(d) && Shaped(d) && w.Set? && i <= |Items(d)|
    ensures w in FragmentsWrites(Items(d), i) <==> LaterSays(str, d, i + 4, 0, w)
  {
    hide Keyed, Shaped, Items, FragmentSays, FragmentWrites, Says, FragmentShaped;
    ItemsMean(d);
    FragmentsHave(Items(d), i, w);
    forall k | 0 <= k < |Items(d)|
      ensures w in FragmentWrites(Items(d)[k]) <==> SaidAt(str, d, k + 4, w)
    {
      FragmentHas(Items(d)[k], w);
      forall part: nat ensures Says(str, d, k + 4, part, w.path, w.name, w.value) <==>
          FragmentSays(Items(d)[k], part, w.path, w.name, w.value) {}
    }
    if at: nat, part: nat :| After(at, part, i + 4, 0) && Says(str, d, at, part, w.path, w.name, w.value) {
      assert i <= at - 4 < |Items(d)|;
      assert w in FragmentWrites(Items(d)[at - 4]);
    }
  }

  /** The assignments from a part of the head on. */
  lemma HeadTail(str: Printer, d: Json, at: nat, path: Text, name: Text, v: Json)
    returns (before: seq<Write>, tail: seq<Write>)
    requires d.Object? && Keyed(d) && Shaped(d) && at < 4 && Says(str, d, at, 0, path, name, v)
    ensures DocumentWrites(str, d) == before + tail && Set(path, name, v) in tail
    ensures forall u :: Set(path, name, u) in tail ==> LaterSays(str, d, at, 0, Set(path, name, u))
  {
    hide Keyed, Shaped, Items, FragmentsWrites, HeadFrom, HeadSays, DocumentWrites;
    ItemsMean(d);
    before := HeadSplit(str, d, at);
    tail := HeadFrom(str, d, at) + FragmentsWrites(Items(d), 0);
    HeadFromHas(str, d, at, Set(path, name, v));
    assert HeadMeans(str, d, at, Set(path, name, v));
    forall u | Set(path, name, u) in tail ensures LaterSays(str, d, at, 0, Set(path, name, u)) {
      var w := Set(path, name, u);
      HeadFromHas(str, d, at, w);
      AllFragmentsHave(str, d, 0, w);
      if w in HeadFrom(str, d, at) {
        var l: nat :| at <= l < 4 && HeadMeans(str, d, l, w);
        assert Says(str, d, l, 0, path, name, u);
      }
    }
  }

  lemma FragmentTail(str: Printer, d: Json, at: nat, part: nat, path: Text, name: Text, v: Json)
    returns (before: seq<Write>, tail: seq<Write>)
    requires d.Object? && Keyed(d) && Shaped(d) && at >= 4 && Says(str, d, at, part, path, name, v)
    ensures DocumentWrites(str, d) == before + tail && Set(path, name, v) in tail
    ensures forall u :: Set(path, name, u) in tail ==> LaterSays(str, d, at, part, Set(path, name, u))
  {
    hide Keyed, Shaped, Items, HeadFrom, DocumentWrites, FragmentWrites, Rest, SaysAt, Says, FragmentShaped, Has;
    ItemsMean(d);
    var items, i := Items(d), at - 4;
    var f := items[i];
    before := FragmentsSplit(items, i);
    var target, first := FragmentSplit(f, part, path, name, v);
    var rest := FragmentsWrites(items, i + 1);
    before := HeadFrom(str, d, 0) + before + first;
    HasIsObject(f, TARGET, String(target));
    tail := Rest(f, target, part) + rest;
    OneTarget(f, target);
    RestHas(f, target, part, Set(path, name, v));
    assert SaysAt(f, target, part, path, name, v);
    forall u | Set(path, name, u) in tail ensures LaterSays(str, d, at, part, Set(path, name, u)) {
      var w := Set(path, name, u);
      RestHas(f, target, part, w);
      AllFragmentsHave(str, d, i + 1, w);
      if w in Rest(f, target, part) {
        var l: nat :| l >= part && SaysAt(f, target, l, path, name, u);
        assert FragmentSays(f, l, path, name, u);
        assert Says(str, d, at, l, path, name, u);
      }
    }
  }

  lemma {:induction false} SettingIn(ws: seq<Write>, path: Text, name: Text)
    ensures var r := Setting(ws, path, name);
            && (r.Some? ==> Set(path, name, r.value) in ws)
            && (r.None? ==> forall v :: Set(path, name, v) !in ws)
    decreases |ws|
  {
    if ws != [] {
      SettingIn(ws[..|ws| - 1], path, name);
      assert ws == ws[..|ws| - 1] + [ws[|ws| - 1]];
    }
  }

  lemma {:induction false} SettingConcat(a: seq<Write>, b: seq<Write>, path: Text, name: Text)
    ensures Setting(a + b, path, name) ==
            if Setting(b, path, name).Some? then Setting(b, path, name) else Setting(a, path, name)
    decreases |b|
  {
    if b == [] {
      assert a + b == a;
    } else {
      assert (a + b)[..|a + b| - 1] == a + b[..|b| - 1];
      SettingConcat(a, b[..|b| - 1], path, name);
    }
  }

  /** The value is said here, and nothing else is said later or in the same part. */
  ghost predicate SaidLast(str: Printer, d: Json, at: nat, part: nat, path: Text, name: Text, v: Json) {
    && Says(str, d, at, part, path, name, v)
    && forall u: Json :: LaterSays(str, d, at, part, Set(path, name, u)) ==> u == v
  }

  /** The last assignment of a property is what is said of it last. */
  lemma LastIsSet(str: Printer, d: Json, at: nat, part: nat, path: Text, name: Text, v: Json)
    requires d.Object? && Keyed(d) && Shaped(d) && SaidLast(str, d, at, part, path, name, v)
    ensures Setting(DocumentWrites(str, d), path, name) == Some(v)
  {
    hide Keyed, Shaped, DocumentWrites, LaterSays, Says;
    var before, tail: seq<Write>;
    if at < 4 {
      assert part == 0 by { OnlyPart(str, d, at, part, path, name, v); }
      before, tail := HeadTail(str, d, at, path, name, v);
    } else {
      before, tail := FragmentTail(str, d, at, part, path, name, v);
    }
    SettingIn(tail, path, name);
    SettingConcat(before, tail, path, name);
  }

  lemma OnlyPart(str: Printer, d: Json, at: nat, part: nat, path: Text, name: Text, v: Json)
    requires at < 4 && Says(str, d, at, part, path, name, v)
    ensures part == 0
  {}

  ghost predicate DocumentMeans(str: Printer, d: Json, w: Write) {
    match w
    case Touch(path) => HeadNames(str, d, 2, path) || HeadNames(str, d, 3, path) || FragmentsName(d, path)
    case Set(path, name, v) => exists at: nat, part: nat :: Says(str, d, at, part, path, name, v)
    case Fault => false
  }

  /** The assignments made of a document are what it says. */
  lemma DocumentHas(str: Printer, d: Json, w: Write)
    requires d.Object? && Keyed(d) && Shaped(d)
    ensures w in DocumentWrites(str, d) <==> DocumentMeans(str, d, w)
  {
    hide Keyed, Shaped, Items, DocumentWrites, FragmentWrites, FragmentSays, FragmentNames, FragmentShaped, HeadFrom;
    ItemsMean(d);
    HeadFromHas(str, d, 0, w);
    FragmentsHave(Items(d), 0, w);
    forall k | 0 <= k < |Items(d)| ensures w in FragmentWrites(Items(d)[k]) <==> FragmentMeans(Items(d)[k], w) {
      FragmentHas(Items(d)[k], w);
    }
    if w.Set? {
      SaidSomewhere(str, d, w);
    } else if w.Touch? {
      assert HeadMeans(str, d, 2, w) <==> HeadNames(str, d, 2, w.path);
      assert HeadMeans(str, d, 3, w) <==> HeadNames(str, d, 3, w.path);
    }
  }

  lemma SaidSomewhere(str: Printer, d: Json, w: Write)
    requires d.Object? && Keyed(d) && Shaped(d) && w.Set?
    ensures DocumentMeans(str, d, w) <==>
            (exists l: nat :: l < 4 && HeadMeans(str, d, l, w))
            || exists k :: 0 <= k < |Items(d)| && FragmentMeans(Items(d)[k], w)
  {
    hide Keyed, Shaped, Items, FragmentSays;
    ItemsMean(d);
    if l: nat :| l < 4 && HeadMeans(str, d, l, w) {
      assert Says(str, d, l, 0, w.path, w.name, w.value);
    }
    if k: nat :| k < |Items(d)| && FragmentMeans(Items(d)[k], w) {
      var part: nat :| FragmentSays(Items(d)[k], part, w.path, w.name, w.value);
      assert Says(str, d, k + 4, part, w.path, w.name, w.value);
    }
    if at: nat, part: nat :| Says(str, d, at, part, w.path, w.name, w.value) {
      if at < 4 {
        assert HeadMeans(str, d, at, w);
      } else {
        assert FragmentMeans(Items(d)[at - 4], w);
      }
    }
  }

  /** A document of another shape makes a fault. */
  lemma UnshapedFaults(str: Printer, d: Json)
    requires d.Object? && Keyed(d) && !Shaped(d)
    ensures Fault in DocumentWrites(str, d)
  {
    hide TreeWrites, GetUpTo, Has, FragmentWrites, FragmentShaped, FragmentsWrites;
    GetMeans(d, BOOT);
    GetMeans(d, FRAGMENTS);
    var boot, list := Get(d, BOOT), Get(d, FRAGMENTS);
    if boot.Some? && !boot.value.Object? {
      assert Fault in HeadWrites(str, d);
    } else if list.value.Array? {
      var items := list.value.items;
      var k :| 0 <= k < |items| && !FragmentShaped(items[k]);
      ShapedIff(items[k]);
      FragmentsHave(items, 0, Fault);
    }
  }

  function ReadOr(v: Option<Json>, other: Option<Value>): Option<Value> { if v.Some? then Valued(v.value) else other }

  /** What a list of assignments makes of some nodes. */
  lemma RunFrom(nodes: Nodes, ws: seq<Write>)
    ensures var r := Run(nodes, ws);
            && (r.Some? <==> forall w :: w in ws ==> Fine(w))
            && (r.Some? ==> forall path ::
                  path in r.value <==> path in nodes || exists w :: w in ws && Touches(w, path))
            && (r.Some? ==> forall path, name :: Prop(r.value, path, name) ==
                                                 ReadOr(Setting(ws, path, name), Prop(nodes, path, name)))
  {
    hide Run, Setting, Fine, Touches;
    var any: Text := [];
    RunMeans(nodes, ws, any, any);
    var r := Run(nodes, ws);
    if r.Some? {
      forall path ensures path in r.value <==> path in nodes || exists w :: w in ws && Touches(w, path) {
        RunMeans(nodes, ws, path, any);
      }
      forall path, name
        ensures Prop(r.value, path, name) == ReadOr(Setting(ws, path, name), Prop(nodes, path, name))
      {
        RunMeans(nodes, ws, path, name);
      }
    }
  }

  // ----- what a fragment adds

  /** No other value is said in the same part or in a later one. */
  ghost predicate FragmentSaysLast(f: Json, part: nat, path: Text, name: Text, v: Json) {
    && FragmentSays(f, part, path, name, v)
    && forall l: nat, u: Json :: l >= part && FragmentSays(f, l, path, name, u) ==> u == v
  }

  /** The fragment's target and children are there; a property has the value that the fragment says
      last, or, if it says none, what it had. */
  ghost predicate AddsFragment(f: Json, before: Nodes, after: Nodes) {
    && (forall path :: path in after <==>
          path in before || FragmentNames(f, path) || exists part: nat, name, v :: FragmentSays(f, part, path, name, v))
    && (forall part: nat, path, name, v :: FragmentSaysLast(f, part, path, name, v) ==>
          Prop(after, path, name) == Valued(v))
    && (forall path, name :: (forall part: nat, v: Json :: !FragmentSays(f, part, path, name, v)) ==>
          Prop(after, path, name) == Prop(before, path, name))
  }

  ghost predicate FragmentRead(f: Json) {
    forall part: nat, path, name, v :: FragmentSays(f, part, path, name, v) ==> Valued(v).Some?
  }

  lemma FragmentLastIsSet(f: Json, part: nat, path: Text, name: Text, v: Json)
    requires Keyed(f) && FragmentShaped(f) && FragmentSaysLast(f, part, path, name, v)
    ensures Setting(FragmentWrites(f), path, name) == Some(v)
  {
    hide Keyed, FragmentShaped, FragmentWrites, Rest, SaysAt, Has;
    var target, before := FragmentSplit(f, part, path, name, v);
    HasIsObject(f, TARGET, String(target));
    OneTarget(f, target);
    var tail := Rest(f, target, part);
    RestHas(f, target, part, Set(path, name, v));
    assert SaysAt(f, target, part, path, name, v);
    forall u | Set(path, name, u) in tail ensures u == v {
      RestHas(f, target, part, Set(path, name, u));
      var l: nat :| l >= part && SaysAt(f, target, l, path, name, u);
      assert FragmentSays(f, l, path, name, u);
    }
    SettingIn(tail, path, name);
    SettingConcat(before, tail, path, name);
  }

  lemma FragmentFineIff(f: Json)
    requires Keyed(f)
    ensures (forall w :: w in FragmentWrites(f) ==> Fine(w)) <==> FragmentShaped(f) && FragmentRead(f)
  {
    hide Keyed, FragmentShaped, FragmentWrites, FragmentSays, Valued;
    ShapedIff(f);
    if FragmentShaped(f) {
      forall w ensures w in FragmentWrites(f) <==> FragmentMeans(f, w) { FragmentHas(f, w); }
      forall part: nat, path, name, v | FragmentSays(f, part, path, name, v)
        ensures Set(path, name, v) in FragmentWrites(f)
      {
        assert FragmentMeans(f, Set(path, name, v));
      }
    }
  }

  lemma FragmentTouched(f: Json, path: Text)
    requires Keyed(f) && FragmentShaped(f)
    ensures (exists w :: w in FragmentWrites(f) && Touches(w, path)) <==>
            FragmentNames(f, path) || exists part: nat, name, v :: FragmentSays(f, part, path, name, v)
  {
    hide Keyed, FragmentShaped, FragmentWrites, FragmentSays, FragmentNames;
    forall w ensures w in FragmentWrites(f) <==> FragmentMeans(f, w) { FragmentHas(f, w); }
    assert Touches(Touch(path), path);
    forall part: nat, name, v | FragmentSays(f, part, path, name, v)
      ensures exists w :: w in FragmentWrites(f) && Touches(w, path)
    {
      assert FragmentMeans(f, Set(path, name, v)) && Touches(Set(path, name, v), path);
    }
  }

  /** A fragment is taken exactly when it has the right shape and its values can be read; it adds what
      it says. */
  lemma FragmentAdds(f: Json, nodes: Nodes)
    requires Keyed(f)
    ensures var r := Run(nodes, FragmentWrites(f));
            (r.Some? <==> FragmentShaped(f) && FragmentRead(f)) && (r.Some? ==> AddsFragment(f, nodes, r.value))
  {
    hide Keyed, FragmentShaped, FragmentWrites, FragmentSays, FragmentNames, Valued, Setting, Run, FragmentSaysLast;
    RunFrom(nodes, FragmentWrites(f));
    FragmentFineIff(f);
    var r := Run(nodes, FragmentWrites(f));
    if r.Some? {
      forall path ensures path in r.value <==>
          path in nodes || FragmentNames(f, path) || exists part: nat, name, v :: FragmentSays(f, part, path, name, v)
      {
        FragmentTouched(f, path);
      }
      forall part: nat, path, name, v | FragmentSaysLast(f, part, path, name, v)
        ensures Prop(r.value, path, name) == Valued(v)
      {
        FragmentLastIsSet(f, part, path, name, v);
        FragmentIsRead(f, part, path, name, v);
      }
      forall path, name | forall part: nat, v: Json :: !FragmentSays(f, part, path, name, v)
        ensures Prop(r.value, path, name) == Prop(nodes, path, name)
      {
        SettingIn(FragmentWrites(f), path, name);
        var v := Setting(FragmentWrites(f), path, name);
        if v.Some? { FragmentHas(f, Set(path, name, v.value)); }
      }
    }
  }

  lemma FragmentIsRead(f: Json, part: nat, path: Text, name: Text, v: Json)
    requires FragmentRead(f) && FragmentSaysLast(f, part, path, name, v)
    ensures Valued(v).Some?
  {}

  // ----- what is collected from a document

  /** Every value it says is one that a property can have. */
  ghost predicate AllRead(str: Printer, d: Json) {
    forall at: nat, part: nat, path, name, v :: Says(str, d, at, part, path, name, v) ==> Valued(v).Some?
  }

  /** The nodes are the root and those the document mentions; a property is there exactly when the
      document says it, and has the value said last. */
  ghost predicate Collected(str: Printer, d: Json, nodes: Nodes) {
    && (forall path :: path in nodes <==> Mentions(str, d, path))
    && (forall path, name :: Prop(nodes, path, name).Some? <==>
          exists at: nat, part: nat, v :: Says(str, d, at, part, path, name, v))
    && (forall at: nat, part: nat, path, name, v :: SaidLast(str, d, at, part, path, name, v) ==>
          Prop(nodes, path, name) == Valued(v))
  }

  lemma FineIff(str: Printer, d: Json)
    requires d.Object? && Keyed(d)
    ensures (forall w :: w in DocumentWrites(str, d) ==> Fine(w)) <==> Shaped(d) && AllRead(str, d)
  {
    hide Keyed, Shaped, DocumentWrites, Says, Valued;
    if !Shaped(d) {
      UnshapedFaults(str, d);
    } else {
      forall w ensures w in DocumentWrites(str, d) <==> DocumentMeans(str, d, w) { DocumentHas(str, d, w); }
      forall at: nat, part: nat, path, name, v | Says(str, d, at, part, path, name, v)
        ensures Set(path, name, v) in DocumentWrites(str, d)
      {
        assert DocumentMeans(str, d, Set(path, name, v));
      }
    }
  }

  /** A document is collected exactly when it has the right shape and says values that can be read; then
      the nodes and properties are what it says. */
  lemma CollectedMeans(str: Printer, d: Json)
    requires d.Object? && Keyed(d)
    ensures var r := Run(ROOT_ONLY, DocumentWrites(str, d));
            (r.Some? <==> Shaped(d) && AllRead(str, d)) && (r.Some? ==> Collected(str, d, r.value))
  {
    hide Keyed, Shaped, DocumentWrites, Says, Valued, Setting, Run, SaidLast;
    var ws := DocumentWrites(str, d);
    RunFrom(ROOT_ONLY, ws);
    FineIff(str, d);
    var r := Run(ROOT_ONLY, ws);
    if r.Some? {
      forall path ensures path in r.value <==> Mentions(str, d, path) { TouchedIff(str, d, path); }
      forall path, name ensures Prop(r.value, path, name).Some? <==>
          exists at: nat, part: nat, v :: Says(str, d, at, part, path, name, v)
      {
        SettingIff(str, d, path, name);
      }
      forall at: nat, part: nat, path, name, v | SaidLast(str, d, at, part, path, name, v)
        ensures Prop(r.value, path, name) == Valued(v)
      {
        LastIsSet(str, d, at, part, path, name, v);
      }
    }
  }

  lemma TouchedIff(str: Printer, d: Json, path: Text)
    requires d.Object? && Keyed(d) && Shaped(d)
    ensures (path == [SLASH] || exists w :: w in DocumentWrites(str, d) && Touches(w, path)) <==> Mentions(str, d, path)
  {
    hide Keyed, Shaped, DocumentWrites, Says, HeadNames, FragmentsName;
    forall w ensures w in DocumentWrites(str, d) <==> DocumentMeans(str, d, w) { DocumentHas(str, d, w); }
    assert Touches(Touch(path), path);
    forall at: nat, part: nat, name, v | Says(str, d, at, part, path, name, v)
      ensures exists w :: w in DocumentWrites(str, d) && Touches(w, path)
    {
      assert DocumentMeans(str, d, Set(path, name, v)) && Touches(Set(path, name, v), path);
    }
  }

  lemma SettingIff(str: Printer, d: Json, path: Text, name: Text)
    requires d.Object? && Keyed(d) && Shaped(d) && AllRead(str, d)
    ensures var v := Setting(DocumentWrites(str, d), path, name);
            && (v.Some? <==> exists at: nat, part: nat, u :: Says(str, d, at, part, path, name, u))
            && (v.Some? ==> Valued(v.value).Some?)
  {
    hide Keyed, Shaped, DocumentWrites, Says, Setting, Valued;
    SettingIn(DocumentWrites(str, d), path, name);
    var v := Setting(DocumentWrites(str, d), path, name);
    if v.Some? { DocumentHas(str, d, Set(path, name, v.value)); }
    forall at: nat, part: nat, u | Says(str, d, at, part, path, name, u) ensures v.Some? {
      DocumentHas(str, d, Set(path, name, u));
    }
  }

  // ----- single members

  lemma OneMember(obj: Json, key: Text, v: Json, u: Json)
    requires Keyed(obj) && Has(obj, key, v) && Has(obj, key, u)
    ensures u == v && Keyed(v)
  {
    GetMeans(obj, key);
  }

  /** In one part of a fragment a property has one value. */
  lemma PartSaysOne(f: Json, part: nat, path: Text, name: Text, v: Json, u: Json)
    requires Keyed(f) && FragmentSays(f, part, path, name, v) && FragmentSays(f, part, path, name, u)
    ensures u == v
  {
    hide Has, Keyed, JoinPath;
    var target :| Has(f, TARGET, String(target)) && SaysAt(f, target, part, path, name, v);
    var other :| Has(f, TARGET, String(other)) && SaysAt(f, other, part, path, name, u);
    OneMember(f, TARGET, String(target), String(other));
    if part == 0 {
      var p :| Has(f, PROPERTIES, p) && Has(p, name, v);
      var q :| Has(f, PROPERTIES, q) && Has(q, name, u);
      OneMember(f, PROPERTIES, p, q);
      OneMember(p, name, v, u);
    } else {
      var c :| Has(f, CHILDREN, c) && ChildSays(c, target, part - 1, path, name, v);
      var e :| Has(f, CHILDREN, e) && ChildSays(e, target, part - 1, path, name, u);
      OneMember(f, CHILDREN, c, e);
      KeyedMember(c, part - 1);
      OneMember(c.members[part - 1].value, name, v, u);
    }
  }

  lemma KeyedMember(obj: Json, k: nat)
    requires obj.Object? && Keyed(obj) && k < |obj.members|
    ensures Keyed(obj.members[k].value)
  {}

  ghost predicate NothingLater(str: Printer, d: Json, at: nat, part: nat, path: Text, name: Text) {
    forall l: nat, p: nat, u: Json :: l > at || (l == at && p > part) ==> !Says(str, d, l, p, path, name, u)
  }

  lemma FragmentStands(str: Printer, d: Json, nodes: Nodes, list: Json, i: nat, part: nat, path: Text, name: Text,
          v: Json)
    requires d.Object? && Keyed(d) && Shaped(d) && Collected(str, d, nodes)
    requires Has(d, FRAGMENTS, list) && list.Array? && i < |list.items|
    requires FragmentSays(list.items[i], part, path, name, v)
    requires NothingLater(str, d, i + 4, part, path, name)
    ensures Prop(nodes, path, name) == Valued(v)
  {
    hide Has, Keyed, FragmentSays, Shaped;
    ItemsMean(d);
    assert ItemSays(list, i, part, path, name, v);
    assert Says(str, d, i + 4, part, path, name, v);
    forall u: Json | LaterSays(str, d, i + 4, part, Set(path, name, u)) ensures u == v {
      var at: nat, p: nat :| After(at, p, i + 4, part) && Says(str, d, at, p, path, name, u);
      assert at == i + 4 && p == part;
      PartSaysOne(Items(d)[i], part, path, name, v, u);
    }
    assert SaidLast(str, d, i + 4, part, path, name, v);
  }

  /** A member of a fragment's properties stands at the target, under its key, with its value, unless
      something later says it again. */
  lemma PropertyStands(str: Printer, d: Json, nodes: Nodes, list: Json, i: nat, target: Text, properties: Json,
          key: Text, v: Json)
    requires d.Object? && Keyed(d) && Shaped(d) && Collected(str, d, nodes)
    requires Has(d, FRAGMENTS, list) && list.Array? && i < |list.items|
    requires Has(list.items[i], TARGET, String(target)) && Has(list.items[i], PROPERTIES, properties)
    requires Has(properties, key, v) && NothingLater(str, d, i + 4, 0, target, key)
    ensures Prop(nodes, target, key) == Valued(v)
  {
    hide Has, Keyed, Shaped;
    assert SaysAt(list.items[i], target, 0, target, key, v);
    FragmentStands(str, d, nodes, list, i, 0, target, key, v);
  }

  /** A member of a child stands at the child's path below the target. */
  lemma ChildStands(str: Printer, d: Json, nodes: Nodes, list: Json, i: nat, target: Text, children: Json, k: nat,
          key: Text, v: Json)
    requires d.Object? && Keyed(d) && Shaped(d) && Collected(str, d, nodes)
    requires Has(d, FRAGMENTS, list) && list.Array? && i < |list.items|
    requires Has(list.items[i], TARGET, String(target)) && Has(list.items[i], CHILDREN, children)
    requires children.Object? && k < |children.members| && Has(children.members[k].value, key, v)
    requires NothingLater(str, d, i + 4, k + 1, JoinPath(target, children.members[k].key), key)
    ensures Prop(nodes, JoinPath(target, children.members[k].key), key) == Valued(v)
  {
    hide Has, Keyed, Shaped, JoinPath;
    var path := JoinPath(target, children.members[k].key);
    assert ChildSays(children, target, k, path, key, v);
    assert SaysAt(list.items[i], target, k + 1, path, key, v);
    FragmentStands(str, d, nodes, list, i, k + 1, path, key, v);
  }

  /** The document's own name stands at the root, unless a fragment says it again. */
  lemma NameStands(str: Printer, d: Json, nodes: Nodes, v: Json)
    requires Collected(str, d, nodes) && d.Object? && Keyed(d) && Has(d, NAME, v)
    requires NothingLater(str, d, 0, 0, [SLASH], NAME)
    ensures Prop(nodes, [SLASH], NAME) == Valued(v)
  {
    assert Says(str, d, 0, 0, [SLASH], NAME, v);
    forall u: Json | LaterSays(str, d, 0, 0, Set([SLASH], NAME, u)) ensures u == v {
      var at: nat, p: nat :| After(at, p, 0, 0) && Says(str, d, at, p, [SLASH], NAME, u);
      assert at == 0 && p == 0;
      OneMember(d, NAME, v, u);
    }
    assert SaidLast(str, d, 0, 0, [SLASH], NAME, v);
  }
}
