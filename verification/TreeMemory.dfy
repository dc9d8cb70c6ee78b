/** The nodes of a search tree in memory, reached through pointer slots that are overwritten in
    place, and the C library's search, find, delete and walk over them. */
module TreeMemory {
  import opened SearchTree

  datatype Cell<K> = Cell(key: K, left: Ref, right: Ref)

  type Store<K> = map<Ref, Cell<K>>

  /** A place that holds a pointer: the root variable, or a child field of a node. */
  datatype Slot = Root | Child(of: Ref, left: bool)

  function RefOf<K>(s: Shape<K>): Ref { if s.Nil? then 0 else s.at }

  /** The store holds the shape. */
  predicate Laid<K(==)>(st: Store<K>, s: Shape<K>) {
    s.Bin? ==>
      && s.at in st && st[s.at] == Cell(s.key, RefOf(s.left), RefOf(s.right))
      && Laid(st, s.left) && Laid(st, s.right)
  }

  ghost predicate Agree<K>(st: Store<K>, st': Store<K>, rs: set<Ref>) {
    forall r :: r in rs && r in st ==> r in st' && st'[r] == st[r]
  }

  lemma {:induction false} LaidFrame<K>(st: Store<K>, st': Store<K>, s: Shape<K>)
    requires Laid(st, s) && Agree(st, st', Refs(s))
    ensures Laid(st', s)
  {
    if s.Bin? {
      LaidFrame(st, st', s.left);
      LaidFrame(st, st', s.right);
    }
  }

  lemma {:induction false} LaidRefs<K>(st: Store<K>, s: Shape<K>)
    requires Laid(st, s)
    ensures Refs(s) <= st.Keys
  {
    if s.Bin? {
      LaidRefs(st, s.left);
      LaidRefs(st, s.right);
    }
  }

  // ----- slots along a path

  function Side<K>(s: Shape<K>, left: bool): Shape<K>
    requires s.Bin?
  {
    if left then s.left else s.right
  }

  predicate Leads<K>(s: Shape<K>, p: seq<bool>)
    decreases |p|
  {
    p == [] || (s.Bin? && Leads(Side(s, p[0]), p[1..]))
  }

  function Sub<K>(s: Shape<K>, p: seq<bool>): Shape<K>
    requires Leads(s, p)
    decreases |p|
  {
    if p == [] then s else Sub(Side(s, p[0]), p[1..])
  }

  function PutSide<K>(s: Shape<K>, left: bool, t: Shape<K>): Shape<K>
    requires s.Bin?
  {
    if left then s.(left := t) else s.(right := t)
  }

  function Put<K>(s: Shape<K>, p: seq<bool>, t: Shape<K>): Shape<K>
    requires Leads(s, p)
    decreases |p|
  {
    if p == [] then t else PutSide(s, p[0], Put(Side(s, p[0]), p[1..], t))
  }

  function SlotAt<K>(s: Shape<K>, p: seq<bool>, slot: Slot): Slot
    requires Leads(s, p)
    decreases |p|
  {
    if p == [] then slot else SlotAt(Side(s, p[0]), p[1..], Child(s.at, p[0]))
  }

  lemma {:induction false} PathStep<K>(s: Shape<K>, p: seq<bool>, left: bool, slot: Slot, t: Shape<K>)
    requires Leads(s, p) && Sub(s, p).Bin?
    ensures Leads(s, p + [left]) && Sub(s, p + [left]) == Side(Sub(s, p), left)
    ensures SlotAt(s, p + [left], slot) == Child(Sub(s, p).at, left)
    ensures Put(s, p + [left], t) == Put(s, p, PutSide(Sub(s, p), left, t))
    decreases |p|
  {
    var q := p + [left];
    if p == [] {
      assert q[1..] == [];
    } else {
      assert q[1..] == p[1..] + [left];
      PathStep(Side(s, p[0]), p[1..], left, Child(s.at, p[0]), t);
    }
  }

  lemma {:induction false} PutSame<K>(s: Shape<K>, p: seq<bool>)
    requires Leads(s, p)
    ensures Put(s, p, Sub(s, p)) == s
    decreases |p|
  {
    if p != [] { PutSame(Side(s, p[0]), p[1..]); }
  }

  lemma {:induction false} SubWithin<K>(st: Store<K>, s: Shape<K>, p: seq<bool>)
    requires Leads(s, p) && Laid(st, s) && Apart(s)
    ensures Refs(Sub(s, p)) <= Refs(s) && Laid(st, Sub(s, p)) && Apart(Sub(s, p))
    ensures p != [] ==> SlotAt(s, p, Root).Child? && SlotAt(s, p, Root).of in Refs(s) - Refs(Sub(s, p))
    decreases |p|
  {
    if p != [] {
      var c := Side(s, p[0]);
      SubWithin(st, c, p[1..]);
      SlotInner(s, p);
    }
  }

  /** From the second step on, the slot does not depend on where the path began. */
  lemma SlotInner<K>(s: Shape<K>, p: seq<bool>)
    requires Leads(s, p) && p != []
    ensures SlotAt(s, p, Root) == if |p| == 1 then Child(s.at, p[0]) else SlotAt(Side(s, p[0]), p[1..], Root)
  {
    if |p| > 1 { assert p[1..] != []; }
  }

  function SetChild<K>(c: Cell<K>, left: bool, r: Ref): Cell<K> {
    if left then c.(left := r) else c.(right := r)
  }

  /** Overwriting the slot at the end of the path replaces the subtree there, whatever has become of
      the old subtree's own nodes. */
  lemma {:induction false} PutLaid<K>(st: Store<K>, st': Store<K>, s: Shape<K>, p: seq<bool>, t: Shape<K>)
    requires p != [] && Leads(s, p) && Laid(st, s) && Apart(s)
    requires Agree(st, st', Refs(s) - Refs(Sub(s, p))) && Laid(st', t)
    requires Refs(t) !! (Refs(s) - Refs(Sub(s, p)))
    ensures var slot := SlotAt(s, p, Root);
            && slot.Child? && slot.of in st' && slot.of in Refs(s) - Refs(Sub(s, p))
            && Laid(st'[slot.of := SetChild(st'[slot.of], slot.left, RefOf(t))], Put(s, p, t))
    decreases |p|
  {
    SubWithin(st, s, p);
    SlotInner(s, p);
    LaidRefs(st, s);
    var slot := SlotAt(s, p, Root);
    var c, o := Side(s, p[0]), Side(s, !p[0]);
    SubWithin(st, c, p[1..]);
    var st2 := st'[slot.of := SetChild(st'[slot.of], slot.left, RefOf(t))];
    if |p| == 1 {
      assert p[1..] == [];
      LaidFrame(st', st2, t);
    } else {
      PutLaid(st, st', c, p[1..], t);
    }
    LaidFrame(st, st2, o);
  }

  lemma {:induction false} PutRefs<K>(st: Store<K>, s: Shape<K>, p: seq<bool>, t: Shape<K>)
    requires Leads(s, p) && Laid(st, s) && Apart(s) && Apart(t) && Refs(t) !! (Refs(s) - Refs(Sub(s, p)))
    ensures Refs(Put(s, p, t)) == Refs(s) - Refs(Sub(s, p)) + Refs(t) && Apart(Put(s, p, t))
    decreases |p|
  {
    if p != [] {
      SubWithin(st, Side(s, p[0]), p[1..]);
      PutRefs(st, Side(s, p[0]), p[1..], t);
    }
  }

  // ----- taking out the least node, and the node itself

  /** Down the left spine. */
  function Spine<K>(s: Shape<K>): (p: seq<bool>)
    requires s.Bin?
    ensures Leads(s, p)
  {
    if s.left.Nil? then [] else [true] + Spine(s.left)
  }

  lemma {:induction false} SpineIsMin<K>(s: Shape<K>)
    requires s.Bin?
    ensures Sub(s, Spine(s)) == Min(s) && Put(s, Spine(s), Min(s).right) == DropMin(s)
  {
    if s.left.Bin? {
      SpineIsMin(s.left);
      assert Spine(s)[1..] == Spine(s.left);
    }
  }

  /** The result of a deletion: nothing found, the key slot of the node now in place, or the address
      of the root variable. */
  datatype Deleted = NotThere | KeySlot(of: Ref) | RootSlot

  class SearchRoot<K(!new, ==)> {
    const cmp: Compare<K>
    var root: Ref
    var store: Store<K>
    ghost var shape: Shape<K>

    /** Memory holds exactly the nodes of a binary search tree. */
    ghost predicate Valid()
      reads this
    {
      && Laid(store, shape) && Apart(shape) && root == RefOf(shape) && store.Keys == Refs(shape)
      && TotalOrder(cmp) && Bst(cmp, shape)
    }

    constructor (cmp: Compare<K>)
      requires TotalOrder(cmp)
      ensures Valid() && shape == Nil && this.cmp == cmp
    {
      this.cmp := cmp;
      root, store, shape := 0, map[], Nil;
    }

    function Load(slot: Slot): Ref
      requires slot.Child? ==> slot.of in store
      reads this
    {
      if slot.Root? then root else if slot.left then store[slot.of].left else store[slot.of].right
    }

    method StoreAt(slot: Slot, r: Ref)
      requires slot.Child? ==> slot.of in store
      modifies `root, `store
      ensures if slot.Root? then root == r && store == old(store)
              else root == old(root) && store == old(store)[slot.of := SetChild(old(store)[slot.of], slot.left, r)]
    {
      if slot.Root? { root := r; } else { store := store[slot.of := SetChild(store[slot.of], slot.left, r)]; }
    }

    method TFind(key: K) returns (r: Ref)
      requires Valid()
      ensures r == Where(cmp, shape, key) && (r != 0 <==> key in Keys(shape))
      ensures r != 0 ==> r in store && store[r].key == key
    {
      FindMeans(cmp, store, shape, key);
      r := root;
      ghost var s := shape;
      while r != 0
        invariant Laid(store, s) && Apart(s) && r == RefOf(s) && Where(cmp, s, key) == Where(cmp, shape, key)
        decreases s
      {
        var c := cmp(key, store[r].key);
        if c == 0 { return; }
        s := Side(s, c < 0);
        r := if c < 0 then store[r].left else store[r].right;
      }
    }

    /** The slot where the search for a key ends. */
    method Descend(key: K) returns (slot: Slot, ghost p: seq<bool>)
      requires Valid()
      ensures Leads(shape, p) && slot == SlotAt(shape, p, Root) && (slot.Child? ==> slot.of in store)
      ensures Load(slot) == RefOf(Sub(shape, p)) && (slot.Root? <==> p == [])
      ensures Sub(shape, p).Bin? ==> cmp(key, Sub(shape, p).key) == 0 && Where(cmp, shape, key) == Sub(shape, p).at
      ensures Sub(shape, p).Nil? ==> !Has(cmp, shape, key) && Where(cmp, shape, key) == 0
      ensures forall at: Ref :: Insert(cmp, shape, key, at) == Put(shape, p, Insert(cmp, Sub(shape, p), key, at))
      ensures Delete(cmp, shape, key) == Put(shape, p, Delete(cmp, Sub(shape, p), key))
    {
      hide Bst, TotalOrder;
      slot, p := Root, [];
      while Load(slot) != 0
        invariant Leads(shape, p) && slot == SlotAt(shape, p, Root) && (slot.Child? ==> slot.of in store)
        invariant Load(slot) == RefOf(Sub(shape, p)) && (slot.Root? <==> p == [])
        invariant Laid(store, Sub(shape, p)) && Apart(Sub(shape, p))
        invariant Has(cmp, shape, key) == Has(cmp, Sub(shape, p), key)
        invariant Where(cmp, shape, key) == Where(cmp, Sub(shape, p), key)
        invariant forall at: Ref :: Insert(cmp, shape, key, at) == Put(shape, p, Insert(cmp, Sub(shape, p), key, at))
        invariant Delete(cmp, shape, key) == Put(shape, p, Delete(cmp, Sub(shape, p), key))
        decreases Sub(shape, p)
      {
        ghost var sub := Sub(shape, p);
        var r := Load(slot);
        var c := cmp(key, store[r].key);
        if c == 0 { return; }
        PathStep(shape, p, c < 0, Root, Nil);
        forall at: Ref
          ensures Insert(cmp, shape, key, at) == Put(shape, p + [c < 0], Insert(cmp, Side(sub, c < 0), key, at))
        {
          PathStep(shape, p, c < 0, Root, Insert(cmp, Side(sub, c < 0), key, at));
        }
        PathStep(shape, p, c < 0, Root, Delete(cmp, Side(sub, c < 0), key));
        slot := Child(r, c < 0);
        p := p + [c < 0];
      }
    }

    /** Inserts unless the key is there; `given` is the node that the allocator gave, or 0. */
    method TSearch(key: K, given: Ref) returns (r: Ref)
      requires Valid() && given !in store
      modifies this
      ensures Valid()
      ensures key in old(Keys(shape)) ==> shape == old(shape) && store == old(store) && r == Where(cmp, shape, key)
      ensures key !in old(Keys(shape)) && given == 0 ==> shape == old(shape) && store == old(store) && r == 0
      ensures key !in old(Keys(shape)) && given != 0 ==>
                && r == given && store.Keys == old(store.Keys) + {given}
                && shape == Insert(cmp, old(shape), key, given) && Keys(shape) == old(Keys(shape)) + {key}
    {
      hide Laid, Apart, Bst, TotalOrder, Insert, Keys, Refs, Put, Has;
      FindMeans(cmp, store, shape, key);
      HasIsMember(cmp, shape, key);
      var slot;
      ghost var p;
      slot, p := Descend(key);
      if Load(slot) != 0 {
        IsHere(Sub(shape, p));
        return Load(slot);
      }
      NothingHere(store, shape, p);
      if given == 0 { return 0; }
      InsertKeeps(cmp, shape, key, given);
      InsertApart(cmp, shape, key, given);
      InsertLaid(store, cmp, shape, p, key, given);
      ghost var after := Put(shape, p, Bin(given, Nil, key, Nil));
      store := store[given := Cell(key, 0, 0)];
      StoreAt(slot, given);
      shape := after;
      r := given;
    }

    /** The slot of the least node right of `victim`. */
    method MinSlot(victim: Ref, ghost v: Shape<K>) returns (slot: Slot, m: Ref)
      requires Laid(store, v) && Apart(v) && v.Bin? && v.right.Bin? && victim == v.at
      ensures Leads(v, [false] + Spine(v.right)) && slot == SlotAt(v, [false] + Spine(v.right), Root)
      ensures slot.Child? && slot.of in store && Load(slot) == m == Min(v.right).at && m in store
    {
      slot := Child(victim, false);
      m := store[victim].right;
      ghost var w, q := v.right, [false];
      assert SlotAt(v, q, Root) == slot && Sub(v, q) == w && q + Spine(w) == [false] + Spine(v.right);
      while store[m].left != 0
        invariant w.Bin? && m == w.at && Laid(store, w) && Apart(w) && Min(w) == Min(v.right)
        invariant Leads(v, q) && Sub(v, q) == w && slot == SlotAt(v, q, Root)
        invariant slot.Child? && slot.of in store && Load(slot) == m
        invariant q + Spine(w) == [false] + Spine(v.right)
        decreases w
      {
        PathStep(v, q, true, Root, Nil);
        assert q + [true] + Spine(w.left) == q + Spine(w);
        slot := Child(m, true);
        m := store[m].left;
        q := q + [true];
        w := w.left;
      }
      NoNull(w);
      assert q + [] == q;
    }

    /** What takes the place of a node: its only child, or the least node on its right, which is
        unlinked and given the node's children. */
    method Replacement(victim: Ref, ghost v: Shape<K>) returns (r: Ref)
      requires Laid(store, v) && Apart(v) && v.Bin? && victim == v.at
      modifies `store
      ensures r == RefOf(Join(v)) && Laid(store, Join(v)) && Agree(old(store), store, old(store.Keys) - Refs(v))
      ensures store.Keys == old(store.Keys)
    {
      NoNull(v);
      if store[victim].left == 0 { return store[victim].right; }
      if store[victim].right == 0 { return store[victim].left; }
      ghost var st := store;
      var slot;
      slot, r := MinSlot(victim, v);
      UnlinkLaid(st, v);
      var right := store[r].right;
      store := store[slot.of := SetChild(store[slot.of], slot.left, right)];
      store := store[r := Cell(store[r].key, store[victim].left, store[victim].right)];
    }

    /** Deletes the key's node. The result is the key slot of the node that has taken its place, or
        the root variable when nothing has. */
    method TDelete(key: K) returns (r: Deleted, ghost p: seq<bool>)
      requires Valid()
      modifies this
      ensures Valid() && shape == Delete(cmp, old(shape), key) && Keys(shape) == old(Keys(shape)) - {key}
      ensures store.Keys == old(store.Keys) - {Where(cmp, old(shape), key)}
      ensures r == NotThere <==> key !in old(Keys(shape))
      ensures r.KeySlot? ==> r.of in store
      ensures r != NotThere ==>
                && Leads(old(shape), p) && Sub(old(shape), p).Bin? &&
                  Sub(old(shape), p).at == Where(cmp, old(shape), key)
                && var taker := RefOf(Join(Sub(old(shape), p)));
                   r == if taker == 0 then RootSlot else KeySlot(taker)
    {
      hide Laid, Apart, Bst, TotalOrder, Keys, Refs, Put, Join;
      FindMeans(cmp, store, shape, key);
      DeleteKeeps(cmp, shape, key);
      DeleteApart(cmp, shape, key);
      var slot;
      slot, p := Descend(key);
      NothingHere(store, shape, p);
      var victim := Load(slot);
      if victim == 0 {
        PutSame(shape, p);
        LaidRefs(store, shape);
        r := NotThere;
        return;
      }
      ghost var st, s, v := store, shape, Sub(shape, p);
      SubWithin(store, shape, p);
      var heir := Replacement(victim, v);
      DeleteLaid(st, store, s, p);
      StoreAt(slot, heir);
      store := store - {victim};
      shape := Put(s, p, Join(v));
      InPlace(store, shape, s, p, heir);
      r := if heir != 0 then KeySlot(heir) else RootSlot;
    }

    method WalkNode(r: Ref, depth: nat, ghost s: Shape<K>) returns (events: seq<Event<K>>)
      requires Laid(store, s) && Apart(s) && r == RefOf(s)
      ensures events == Walk(s, depth)
      decreases s
    {
      NoNull(s);
      if r == 0 { return []; }
      var c := store[r];
      NoNull(s.left);
      NoNull(s.right);
      if c.left == 0 && c.right == 0 { return [Event(Leaf, c.key, depth)]; }
      var left := WalkNode(c.left, depth + 1, s.left);
      var right := WalkNode(c.right, depth + 1, s.right);
      events := [Event(Preorder, c.key, depth)] + left + [Event(Postorder, c.key, depth)] + right +
        [Event(Endorder, c.key, depth)];
    }

    /** The leaf and postorder visits list the keys in ascending order. */
    method TWalk() returns (events: seq<Event<K>>)
      requires Valid()
      ensures events == Walk(shape, 0)
      ensures Ascending(cmp, Sorted(events)) && forall k :: k in Sorted(events) <==> k in Keys(shape)
      ensures Chosen(events, {Leaf, Preorder}) == ParentsFirst(shape)
      ensures Chosen(events, {Leaf, Endorder}) == ParentsLast(shape)
      ensures forall e :: e in events ==> e.depth == Level(cmp, shape, e.key)
    {
      WalkOrders(shape, 0);
      WalkDepths(cmp, shape, 0);
      events := WalkNode(root, 0, shape);
      WalkAscends(cmp, shape);
    }
  }

  /** Memory once the least node right of `v` is unlinked and has taken over the children of `v`. */
  lemma UnlinkLaid<K>(st: Store<K>, v: Shape<K>)
    requires Laid(st, v) && Apart(v) && v.Bin? && v.left.Bin? && v.right.Bin?
    ensures var q := [false] + Spine(v.right);
            var m := Min(v.right);
            && Leads(v, q)
            && var slot := SlotAt(v, q, Root);
            && slot.Child? && slot.of in st && slot.of in Refs(v) && m.at in st && m.at in Refs(v) &&
              st[m.at].right == RefOf(m.right)
            && var st1 := st[slot.of := SetChild(st[slot.of], slot.left, RefOf(m.right))];
            && v.at in st1 && m.at in st1
            && Laid(st1[m.at := Cell(st1[m.at].key, st1[v.at].left, st1[v.at].right)], Join(v))
  {
    var q := [false] + Spine(v.right);
    var m := Min(v.right);
    SpineIsMin(v.right);
    assert q[1..] == Spine(v.right);
    SubWithin(st, v, q);
    SubWithin(st, v.right, Spine(v.right));
    DropMinApart(v.right);
    LaidRefs(st, v);
    PutLaid(st, st, v, q, m.right);
    var slot := SlotAt(v, q, Root);
    var st1 := st[slot.of := SetChild(st[slot.of], slot.left, RefOf(m.right))];
    var st2 := st1[m.at := Cell(st1[m.at].key, st1[v.at].left, st1[v.at].right)];
    assert Put(v, q, m.right) == v.(right := DropMin(v.right));
    LaidFrame(st1, st2, v.left);
    LaidFrame(st1, st2, DropMin(v.right));
  }

  /** Memory once the replacement stands in the slot and the node is freed. */
  lemma DeleteLaid<K>(st: Store<K>, st': Store<K>, s: Shape<K>, p: seq<bool>)
    requires Leads(s, p) && Laid(st, s) && Apart(s) && st.Keys == Refs(s) && Sub(s, p).Bin?
    requires Laid(st', Join(Sub(s, p))) && Agree(st, st', st.Keys - Refs(Sub(s, p))) && st'.Keys == st.Keys
    ensures var v := Sub(s, p);
            var t := Join(v);
            var slot := SlotAt(s, p, Root);
            && Refs(Put(s, p, t)) == Refs(s) - {v.at} && Apart(Put(s, p, t))
            && (if p == [] then Laid(st' - {v.at}, Put(s, p, t))
                else slot.Child? && slot.of in st'
                     && Laid(st'[slot.of := SetChild(st'[slot.of], slot.left, RefOf(t))] - {v.at}, Put(s, p, t)))
  {
    var v := Sub(s, p);
    var t := Join(v);
    SubWithin(st, s, p);
    JoinApart(v);
    PutRefs(st, s, p, t);
    if p == [] {
      LaidFrame(st', st' - {v.at}, t);
    } else {
      PutLaid(st, st', s, p, t);
      var slot := SlotAt(s, p, Root);
      var st2 := st'[slot.of := SetChild(st'[slot.of], slot.left, RefOf(t))];
      LaidFrame(st2, st2 - {v.at}, Put(s, p, t));
    }
  }

  lemma InPlace<K>(st: Store<K>, now: Shape<K>, s: Shape<K>, p: seq<bool>, r: Ref)
    requires Leads(s, p) && Sub(s, p).Bin? && Apart(s) && Laid(st, now) && now == Put(s, p, Join(Sub(s, p))) &&
             r == RefOf(Join(Sub(s, p)))
    ensures r != 0 ==> r in st
    ensures RefOf(now) == if p == [] then r else RefOf(s)
  {
    PutWithin(s, p, Join(Sub(s, p)));
    LaidRefs(st, now);
    if p == [] { assert now == Join(Sub(s, p)); }
  }

  lemma {:induction false} PutWithin<K>(s: Shape<K>, p: seq<bool>, t: Shape<K>)
    requires Leads(s, p)
    ensures Refs(t) <= Refs(Put(s, p, t))
    ensures RefOf(t) != 0 ==> RefOf(t) in Refs(t)
    decreases |p|
  {
    if p != [] { PutWithin(Side(s, p[0]), p[1..], t); }
  }

  lemma IsHere<K>(s: Shape<K>)
    ensures RefOf(s) != 0 ==> s.Bin?
  {}

  lemma NothingHere<K>(st: Store<K>, s: Shape<K>, p: seq<bool>)
    requires Leads(s, p) && Laid(st, s) && Apart(s)
    ensures RefOf(Sub(s, p)) == 0 <==> Sub(s, p).Nil?
  {
    SubWithin(st, s, p);
  }

  /** Memory once a new node hangs in the empty slot at the end of the path. */
  lemma InsertLaid<K>(st: Store<K>, cmp: Compare<K>, s: Shape<K>, p: seq<bool>, key: K, at: Ref)
    requires Leads(s, p) && Laid(st, s) && Apart(s) && Sub(s, p).Nil? && at != 0 && at !in st && st.Keys == Refs(s)
    ensures var node, st' := Bin(at, Nil, key, Nil), st[at := Cell(key, 0, 0)];
            var slot := SlotAt(s, p, Root);
            && Insert(cmp, Sub(s, p), key, at) == node
            && RefOf(Put(s, p, node)) == (if p == [] then at else RefOf(s))
            && (if p == [] then Laid(st', Put(s, p, node))
                else slot.Child? && slot.of in st'
                     && Laid(st'[slot.of := SetChild(st'[slot.of], slot.left, at)], Put(s, p, node))
                     && st'[slot.of := SetChild(st'[slot.of], slot.left, at)].Keys == st.Keys + {at})
  {
    var node, st' := Bin(at, Nil, key, Nil), st[at := Cell(key, 0, 0)];
    if p != [] { PutLaid(st, st', s, p, node); }
  }

  lemma {:induction false} FindMeans<K(!new)>(cmp: Compare<K>, st: Store<K>, s: Shape<K>, key: K)
    requires TotalOrder(cmp) && Bst(cmp, s) && Laid(st, s) && Apart(s)
    ensures Where(cmp, s, key) != 0 <==> key in Keys(s)
    ensures Where(cmp, s, key) != 0 ==> Where(cmp, s, key) in st && st[Where(cmp, s, key)].key == key
  {
    hide TotalOrder;
    if s.Bin? {
      ZeroIsSame(cmp, key, s.key);
      OtherSide(cmp, s, key);
      FindMeans(cmp, st, s.left, key);
      FindMeans(cmp, st, s.right, key);
    }
  }
}
