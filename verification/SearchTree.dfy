/** Binary search trees as shapes: each node has its address, so that a shape says exactly what is
    in memory. Insertion, deletion and the order of keys. */
module SearchTree {
  type Ref = nat   // 0 is the null pointer

  datatype Shape<K> = Nil | Bin(at: Ref, left: Shape<K>, key: K, right: Shape<K>)

  type Compare<!K> = (K, K) -> int

  /** The comparator is a total order of the keys. */
  ghost predicate TotalOrder<K(!new)>(cmp: Compare<K>) {
    && (forall a, b :: cmp(a, b) == 0 <==> a == b)
    && (forall a, b :: cmp(a, b) < 0 <==> cmp(b, a) > 0)
    && (forall a, b, c :: cmp(a, b) < 0 && cmp(b, c) < 0 ==> cmp(a, c) < 0)
  }

  lemma ZeroIsSame<K(!new)>(cmp: Compare<K>, a: K, b: K)
    requires TotalOrder(cmp)
    ensures cmp(a, b) == 0 <==> a == b
    ensures cmp(a, b) < 0 <==> cmp(b, a) > 0
    ensures cmp(a, b) > 0 <==> cmp(b, a) < 0
  {}

  lemma Between<K(!new)>(cmp: Compare<K>, a: K, b: K, c: K)
    requires TotalOrder(cmp) && cmp(a, b) < 0 && cmp(b, c) < 0
    ensures cmp(a, c) < 0
  {}

  function Keys<K>(s: Shape<K>): set<K> {
    if s.Nil? then {} else Keys(s.left) + {s.key} + Keys(s.right)
  }

  function Refs<K>(s: Shape<K>): set<Ref> {
    if s.Nil? then {} else Refs(s.left) + {s.at} + Refs(s.right)
  }

  /** No node occurs twice, and none is the null pointer. */
  predicate Apart<K>(s: Shape<K>) {
    s.Bin? ==>
      && s.at != 0 && Apart(s.left) && Apart(s.right)
      && s.at !in Refs(s.left) && s.at !in Refs(s.right) && Refs(s.left) !! Refs(s.right)
  }

  ghost predicate AllBelow<K(!new)>(cmp: Compare<K>, ks: set<K>, key: K) { forall k :: k in ks ==> cmp(k, key) < 0 }

  ghost predicate AllAbove<K(!new)>(cmp: Compare<K>, ks: set<K>, key: K) { forall k :: k in ks ==> cmp(k, key) > 0 }

  ghost predicate Bst<K(!new)>(cmp: Compare<K>, s: Shape<K>) {
    s.Bin? ==>
      && Bst(cmp, s.left) && Bst(cmp, s.right)
      && AllBelow(cmp, Keys(s.left), s.key) && AllAbove(cmp, Keys(s.right), s.key)
  }

  // ----- finding

  predicate Has<K(==)>(cmp: Compare<K>, s: Shape<K>, key: K) {
    s.Bin? && (cmp(key, s.key) == 0 || Has(cmp, if cmp(key, s.key) < 0 then s.left else s.right, key))
  }

  /** Searching decides membership. */
  lemma {:induction false} HasIsMember<K(!new)>(cmp: Compare<K>, s: Shape<K>, key: K)
    requires TotalOrder(cmp) && Bst(cmp, s)
    ensures Has(cmp, s, key) <==> key in Keys(s)
  {
    hide TotalOrder;
    if s.Bin? {
      ZeroIsSame(cmp, key, s.key);
      HasIsMember(cmp, s.left, key);
      HasIsMember(cmp, s.right, key);
    }
  }

  // ----- inserting

  function Insert<K>(cmp: Compare<K>, s: Shape<K>, key: K, at: Ref): Shape<K> {
    if s.Nil? then Bin(at, Nil, key, Nil)
    else if cmp(key, s.key) == 0 then s
    else if cmp(key, s.key) < 0 then s.(left := Insert(cmp, s.left, key, at))
    else s.(right := Insert(cmp, s.right, key, at))
  }

  lemma {:induction false} InsertKeeps<K(!new)>(cmp: Compare<K>, s: Shape<K>, key: K, at: Ref)
    requires TotalOrder(cmp) && Bst(cmp, s)
    ensures Bst(cmp, Insert(cmp, s, key, at)) && Keys(Insert(cmp, s, key, at)) == Keys(s) + {key}
  {
    hide TotalOrder;
    if s.Bin? {
      ZeroIsSame(cmp, key, s.key);
      if cmp(key, s.key) < 0 { InsertKeeps(cmp, s.left, key, at); } else { InsertKeeps(cmp, s.right, key, at); }
    }
  }

  lemma {:induction false} InsertApart<K>(cmp: Compare<K>, s: Shape<K>, key: K, at: Ref)
    requires Apart(s) && at != 0 && at !in Refs(s)
    ensures Apart(Insert(cmp, s, key, at))
    ensures Refs(Insert(cmp, s, key, at)) == Refs(s) + if Has(cmp, s, key) then {} else {at}
  {
    if s.Bin? {
      if cmp(key, s.key) < 0 { InsertApart(cmp, s.left, key, at); }
      else if cmp(key, s.key) > 0 { InsertApart(cmp, s.right, key, at); }
    }
  }

  // ----- deleting

  /** The leftmost node. */
  function Min<K>(s: Shape<K>): (m: Shape<K>)
    requires s.Bin?
    ensures m.Bin? && m.left.Nil?
  {
    if s.left.Nil? then s else Min(s.left)
  }

  function DropMin<K>(s: Shape<K>): Shape<K>
    requires s.Bin?
  {
    if s.left.Nil? then s.right else s.(left := DropMin(s.left))
  }

  /** The node's place is taken by its only child, or by the least node of its right subtree. */
  function Join<K>(s: Shape<K>): Shape<K>
    requires s.Bin?
  {
    if s.left.Nil? then s.right
    else if s.right.Nil? then s.left
    else Bin(Min(s.right).at, s.left, Min(s.right).key, DropMin(s.right))
  }

  function Delete<K>(cmp: Compare<K>, s: Shape<K>, key: K): Shape<K> {
    if s.Nil? then Nil
    else if cmp(key, s.key) == 0 then Join(s)
    else if cmp(key, s.key) < 0 then s.(left := Delete(cmp, s.left, key))
    else s.(right := Delete(cmp, s.right, key))
  }

  lemma {:induction false} DropMinKeeps<K(!new)>(cmp: Compare<K>, s: Shape<K>)
    requires TotalOrder(cmp) && Bst(cmp, s) && s.Bin?
    ensures Bst(cmp, DropMin(s)) && Keys(DropMin(s)) == Keys(s) - {Min(s).key}
    ensures Min(s).key in Keys(s) && AllAbove(cmp, Keys(DropMin(s)), Min(s).key)
  {
    hide TotalOrder;
    ZeroIsSame(cmp, s.key, s.key);
    if s.left.Bin? {
      DropMinKeeps(cmp, s.left);
      var m := Min(s.left).key;
      ZeroIsSame(cmp, m, s.key);
      forall k | k in Keys(s.right) ensures cmp(k, m) > 0 {
        ZeroIsSame(cmp, s.key, k);
        ZeroIsSame(cmp, m, k);
        Between(cmp, m, s.key, k);
      }
    }
  }

  lemma JoinKeeps<K(!new)>(cmp: Compare<K>, s: Shape<K>)
    requires TotalOrder(cmp) && Bst(cmp, s) && s.Bin?
    ensures Bst(cmp, Join(s)) && Keys(Join(s)) == Keys(s) - {s.key}
  {
    hide TotalOrder;
    ZeroIsSame(cmp, s.key, s.key);
    if s.left.Bin? && s.right.Bin? {
      DropMinKeeps(cmp, s.right);
      var m := Min(s.right).key;
      ZeroIsSame(cmp, m, s.key);
      forall k | k in Keys(s.left) ensures cmp(k, m) < 0 { Between(cmp, k, s.key, m); }
    }
  }

  /** A node with two subtrees is followed in its place by the next greater key, and the left one stays. */
  lemma JoinSucceeds<K(!new)>(cmp: Compare<K>, s: Shape<K>)
    requires TotalOrder(cmp) && Bst(cmp, s) && s.Bin?
    ensures s.left.Bin? && s.right.Bin? ==>
              && Join(s).Bin? && Join(s).left == s.left && Join(s).key in Keys(s.right)
              && forall k :: k in Keys(s) && cmp(k, s.key) > 0 ==> k == Join(s).key || cmp(k, Join(s).key) > 0
    ensures s.left.Nil? ==> Join(s) == s.right
    ensures s.right.Nil? ==> Join(s) == s.left
  {
    hide TotalOrder;
    if s.left.Bin? && s.right.Bin? {
      DropMinKeeps(cmp, s.right);
      forall k | k in Keys(s) && cmp(k, s.key) > 0 ensures k == Join(s).key || cmp(k, Join(s).key) > 0 {
        ZeroIsSame(cmp, k, s.key);
        ZeroIsSame(cmp, s.key, k);
        assert k in Keys(s.right);
      }
    }
  }

  /** A key on one side of the root is not on the other. */
  lemma OtherSide<K(!new)>(cmp: Compare<K>, s: Shape<K>, key: K)
    requires s.Bin? && Bst(cmp, s)
    ensures cmp(key, s.key) < 0 ==> key !in Keys(s.right)
    ensures cmp(key, s.key) > 0 ==> key !in Keys(s.left)
  {}

  lemma {:induction false} DeleteKeeps<K(!new)>(cmp: Compare<K>, s: Shape<K>, key: K)
    requires TotalOrder(cmp) && Bst(cmp, s)
    ensures Bst(cmp, Delete(cmp, s, key)) && Keys(Delete(cmp, s, key)) == Keys(s) - {key}
  {
    hide TotalOrder, Join;
    if s.Bin? {
      ZeroIsSame(cmp, key, s.key);
      OtherSide(cmp, s, key);
      if cmp(key, s.key) == 0 {
        JoinKeeps(cmp, s);
      } else if cmp(key, s.key) < 0 {
        DeleteKeeps(cmp, s.left, key);
      } else {
        DeleteKeeps(cmp, s.right, key);
      }
    }
  }

  // ----- addresses through a deletion

  lemma {:induction false} DropMinApart<K>(s: Shape<K>)
    requires Apart(s) && s.Bin?
    ensures Apart(DropMin(s)) && Refs(DropMin(s)) == Refs(s) - {Min(s).at} && Min(s).at in Refs(s) && Min(s).at != 0
    ensures Refs(Min(s)) <= Refs(s)
  {
    if s.left.Bin? { DropMinApart(s.left); }
  }

  lemma JoinApart<K>(s: Shape<K>)
    requires Apart(s) && s.Bin?
    ensures Apart(Join(s)) && Refs(Join(s)) == Refs(s) - {s.at}
  {
    if s.left.Bin? && s.right.Bin? { DropMinApart(s.right); }
  }

  /** The address of the node with the key, 0 if there is none. */
  function Where<K>(cmp: Compare<K>, s: Shape<K>, key: K): Ref {
    if s.Nil? then 0
    else if cmp(key, s.key) == 0 then s.at
    else Where(cmp, if cmp(key, s.key) < 0 then s.left else s.right, key)
  }

  /** Deleting frees exactly the node that held the key. */
  lemma {:induction false} DeleteApart<K>(cmp: Compare<K>, s: Shape<K>, key: K)
    requires Apart(s)
    ensures Apart(Delete(cmp, s, key)) && Refs(Delete(cmp, s, key)) == Refs(s) - {Where(cmp, s, key)}
    ensures Where(cmp, s, key) == 0 || Where(cmp, s, key) in Refs(s)
  {
    if s.Bin? {
      NoNull(s);
      if cmp(key, s.key) == 0 {
        JoinApart(s);
      } else if cmp(key, s.key) < 0 {
        DeleteApart(cmp, s.left, key);
      } else {
        DeleteApart(cmp, s.right, key);
      }
    }
  }

  lemma {:induction false} NoNull<K>(s: Shape<K>)
    requires Apart(s)
    ensures 0 !in Refs(s)
  {
    if s.Bin? {
      NoNull(s.left);
      NoNull(s.right);
    }
  }

  // ----- walking

  datatype Visit = Preorder | Postorder | Endorder | Leaf

  datatype Event<K> = Event(visit: Visit, key: K, depth: nat)

  function InOrder<K>(s: Shape<K>): seq<K> {
    if s.Nil? then [] else InOrder(s.left) + [s.key] + InOrder(s.right)
  }

  function Walk<K>(s: Shape<K>, depth: nat): seq<Event<K>> {
    if s.Nil? then []
    else if s.left.Nil? && s.right.Nil? then [Event(Leaf, s.key, depth)]
    else
      [Event(Preorder, s.key, depth)] + Walk(s.left, depth + 1) + [Event(Postorder, s.key, depth)]
      + Walk(s.right, depth + 1) + [Event(Endorder, s.key, depth)]
  }

  function Only<K>(e: Event<K>, visits: set<Visit>): seq<K> { if e.visit in visits then [e.key] else [] }

  /** The keys of the visits of these kinds. */
  function Chosen<K>(es: seq<Event<K>>, visits: set<Visit>): seq<K>
    decreases |es|
  {
    if es == [] then [] else Only(es[0], visits) + Chosen(es[1..], visits)
  }

  /** The keys of the leaf and postorder visits. */
  function Sorted<K>(es: seq<Event<K>>): seq<K> { Chosen(es, {Leaf, Postorder}) }

  lemma {:induction false} ChosenConcat<K>(a: seq<Event<K>>, b: seq<Event<K>>, visits: set<Visit>)
    ensures Chosen(a + b, visits) == Chosen(a, visits) + Chosen(b, visits)
    decreases |a|
  {
    hide Only;
    if a == [] {
      assert a + b == b;
    } else {
      assert (a + b)[1..] == a[1..] + b && (a + b)[0] == a[0];
      ChosenConcat(a[1..], b, visits);
      assert Chosen(a + b, visits) == Only(a[0], visits) + (Chosen(a[1..], visits) + Chosen(b, visits));
    }
  }

  lemma ChosenOne<K>(e: Event<K>, visits: set<Visit>)
    ensures Chosen([e], visits) == Only(e, visits)
  {
    assert [e][1..] == [];
  }

  lemma ChosenWalk<K>(s: Shape<K>, depth: nat, visits: set<Visit>)
    requires s.Bin? && !(s.left.Nil? && s.right.Nil?)
    ensures Chosen(Walk(s, depth), visits) ==
            Only(Event(Preorder, s.key, depth), visits) + Chosen(Walk(s.left, depth + 1), visits)
            + Only(Event(Postorder, s.key, depth), visits) + Chosen(Walk(s.right, depth + 1), visits)
            + Only(Event(Endorder, s.key, depth), visits)
  {
    var a, b := Walk(s.left, depth + 1), Walk(s.right, depth + 1);
    var pre, post, end := Event(Preorder, s.key, depth), Event(Postorder, s.key, depth), Event(Endorder, s.key, depth);
    ChosenOne(pre, visits);
    ChosenOne(post, visits);
    ChosenOne(end, visits);
    ChosenConcat([pre], a, visits);
    ChosenConcat([pre] + a, [post], visits);
    ChosenConcat([pre] + a + [post], b, visits);
    ChosenConcat([pre] + a + [post] + b, [end], visits);
  }

  /** Each node before those below it. */
  function ParentsFirst<K>(s: Shape<K>): seq<K> {
    if s.Nil? then [] else [s.key] + ParentsFirst(s.left) + ParentsFirst(s.right)
  }

  /** Each node after those below it. */
  function ParentsLast<K>(s: Shape<K>): seq<K> {
    if s.Nil? then [] else ParentsLast(s.left) + ParentsLast(s.right) + [s.key]
  }

  function Leaves<K>(s: Shape<K>): seq<K> {
    if s.Nil? then [] else if s.left.Nil? && s.right.Nil? then [s.key] else Leaves(s.left) + Leaves(s.right)
  }

  lemma {:induction false} WalkIsInOrder<K>(s: Shape<K>, depth: nat)
    ensures Chosen(Walk(s, depth), {Leaf, Postorder}) == InOrder(s)
  {
    if s.Bin? {
      if s.left.Nil? && s.right.Nil? {
        ChosenOne(Event(Leaf, s.key, depth), {Leaf, Postorder});
      } else {
        WalkIsInOrder(s.left, depth + 1);
        WalkIsInOrder(s.right, depth + 1);
        ChosenWalk(s, depth, {Leaf, Postorder});
        var before := [] + InOrder(s.left);
        assert before == InOrder(s.left);
      }
    }
  }

  lemma {:induction false} WalkParentsFirst<K>(s: Shape<K>, depth: nat)
    ensures Chosen(Walk(s, depth), {Leaf, Preorder}) == ParentsFirst(s)
  {
    if s.Bin? {
      if s.left.Nil? && s.right.Nil? {
        ChosenOne(Event(Leaf, s.key, depth), {Leaf, Preorder});
      } else {
        WalkParentsFirst(s.left, depth + 1);
        WalkParentsFirst(s.right, depth + 1);
        ChosenWalk(s, depth, {Leaf, Preorder});
      }
    }
  }

  lemma {:induction false} WalkParentsLast<K>(s: Shape<K>, depth: nat)
    ensures Chosen(Walk(s, depth), {Leaf, Endorder}) == ParentsLast(s)
  {
    if s.Bin? {
      if s.left.Nil? && s.right.Nil? {
        ChosenOne(Event(Leaf, s.key, depth), {Leaf, Endorder});
      } else {
        WalkParentsLast(s.left, depth + 1);
        WalkParentsLast(s.right, depth + 1);
        ChosenWalk(s, depth, {Leaf, Endorder});
      }
    }
  }

  lemma {:induction false} WalkLeaves<K>(s: Shape<K>, depth: nat)
    ensures Chosen(Walk(s, depth), {Leaf}) == Leaves(s)
  {
    if s.Bin? {
      if s.left.Nil? && s.right.Nil? {
        ChosenOne(Event(Leaf, s.key, depth), {Leaf});
      } else {
        WalkLeaves(s.left, depth + 1);
        WalkLeaves(s.right, depth + 1);
        ChosenWalk(s, depth, {Leaf});
      }
    }
  }

  /** Besides the leaves, which are visited once, the preorder visits list each node before those below it,
      the postorder visits between its left and its right ones, and the endorder visits after them. */
  lemma WalkOrders<K>(s: Shape<K>, depth: nat)
    ensures Chosen(Walk(s, depth), {Leaf, Preorder}) == ParentsFirst(s)
    ensures Chosen(Walk(s, depth), {Leaf, Postorder}) == InOrder(s)
    ensures Chosen(Walk(s, depth), {Leaf, Endorder}) == ParentsLast(s)
    ensures Chosen(Walk(s, depth), {Leaf}) == Leaves(s)
  {
    WalkParentsFirst(s, depth);
    WalkIsInOrder(s, depth);
    WalkParentsLast(s, depth);
    WalkLeaves(s, depth);
  }

  /** How many comparisons lead from the root to the key. */
  function Level<K>(cmp: Compare<K>, s: Shape<K>, key: K): nat {
    if s.Nil? || cmp(key, s.key) == 0 then 0
    else 1 + Level(cmp, if cmp(key, s.key) < 0 then s.left else s.right, key)
  }

  /** An insertion puts its node where the search ended and moves no other. */
  lemma {:induction false} InsertLevels<K(!new)>(cmp: Compare<K>, s: Shape<K>, key: K, at: Ref, k: K)
    requires TotalOrder(cmp) && Bst(cmp, s) && (k == key || k in Keys(s))
    ensures Level(cmp, Insert(cmp, s, key, at), k) == Level(cmp, s, k)
  {
    hide TotalOrder;
    ZeroIsSame(cmp, k, key);
    if s.Bin? {
      ZeroIsSame(cmp, key, s.key);
      ZeroIsSame(cmp, k, s.key);
      if k == key || k in Keys(s.left) { InsertLevels(cmp, s.left, key, at, k); }
      if k == key || k in Keys(s.right) { InsertLevels(cmp, s.right, key, at, k); }
    }
  }

  lemma {:induction false} WalkVisitsKeys<K>(s: Shape<K>, depth: nat)
    ensures forall e :: e in Walk(s, depth) ==> e.key in Keys(s)
  {
    if s.Bin? {
      WalkVisitsKeys(s.left, depth + 1);
      WalkVisitsKeys(s.right, depth + 1);
    }
  }

  /** Every visit tells how deep in the tree its node lies. */
  lemma {:induction false} WalkDepths<K(!new)>(cmp: Compare<K>, s: Shape<K>, depth: nat)
    requires TotalOrder(cmp) && Bst(cmp, s)
    ensures forall e :: e in Walk(s, depth) ==> e.depth == depth + Level(cmp, s, e.key)
  {
    hide TotalOrder;
    if s.Bin? {
      WalkVisitsKeys(s.left, depth + 1);
      WalkVisitsKeys(s.right, depth + 1);
      WalkDepths(cmp, s.left, depth + 1);
      WalkDepths(cmp, s.right, depth + 1);
      forall e | e in Walk(s, depth) ensures e.depth == depth + Level(cmp, s, e.key) {
        ZeroIsSame(cmp, e.key, s.key);
      }
    }
  }

  ghost predicate Ascending<K(!new)>(cmp: Compare<K>, ks: seq<K>) {
    forall i, j :: 0 <= i < j < |ks| ==> cmp(ks[i], ks[j]) < 0
  }

  lemma {:induction false} InOrderKeys<K>(s: Shape<K>)
    ensures forall k :: k in InOrder(s) <==> k in Keys(s)
  {
    if s.Bin? {
      InOrderKeys(s.left);
      InOrderKeys(s.right);
    }
  }

  lemma {:induction false} InOrderAscends<K(!new)>(cmp: Compare<K>, s: Shape<K>)
    requires TotalOrder(cmp) && Bst(cmp, s)
    ensures Ascending(cmp, InOrder(s))
  {
    hide TotalOrder;
    if s.Bin? {
      InOrderAscends(cmp, s.left);
      InOrderAscends(cmp, s.right);
      InOrderKeys(s.left);
      InOrderKeys(s.right);
      JoinAscends(cmp, InOrder(s.left), s.key, InOrder(s.right));
    }
  }

  lemma JoinAscends<K(!new)>(cmp: Compare<K>, l: seq<K>, key: K, r: seq<K>)
    requires TotalOrder(cmp) && Ascending(cmp, l) && Ascending(cmp, r)
    requires forall k :: k in l ==> cmp(k, key) < 0
    requires forall k :: k in r ==> cmp(k, key) > 0
    ensures Ascending(cmp, l + [key] + r)
  {
    hide TotalOrder;
    var all := l + [key] + r;
    forall i, j | 0 <= i < j < |all| ensures cmp(all[i], all[j]) < 0 {
      if j > |l| {
        assert r[j - |l| - 1] in r;
        ZeroIsSame(cmp, r[j - |l| - 1], key);
      }
      if i < |l| { assert l[i] in l; }
      if i < |l| && j > |l| { Between(cmp, l[i], key, r[j - |l| - 1]); }
    }
  }

  /** The leaf and postorder visits of a walk list the keys in ascending order. */
  lemma WalkAscends<K(!new)>(cmp: Compare<K>, s: Shape<K>)
    requires TotalOrder(cmp) && Bst(cmp, s)
    ensures Ascending(cmp, Sorted(Walk(s, 0))) && forall k :: k in Sorted(Walk(s, 0)) <==> k in Keys(s)
  {
    WalkOrders(s, 0);
    InOrderAscends(cmp, s);
    InOrderKeys(s);
  }
}
