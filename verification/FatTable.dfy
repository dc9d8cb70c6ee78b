/** The file allocation table as words by cluster number: chains of clusters, allocation of the
    lowest free cluster, and the release of a chain. */
module FatTable {
  const EOC := 0x0fff_fff8   // an end mark is this or more

  type Table = seq<nat>

  predicate IsEoc(v: nat) { v >= EOC }

  /** Cluster numbers run from 2 to the end of the table. */
  predicate Cluster(t: Table, c: nat) { 2 <= c < |t| }

  /** No entry leads out of the table. */
  ghost predicate InRange(t: Table) {
    |t| <= EOC && forall c :: 0 <= c < |t| ==> t[c] < |t| || IsEoc(t[c])
  }

  // ----- chains

  ghost predicate Link(t: Table, chain: seq<nat>, i: nat) {
    i < |chain| ==>
      && Cluster(t, chain[i])
      && (if i + 1 < |chain| then t[chain[i]] == chain[i + 1] else IsEoc(t[chain[i]]))
  }

  /** Each entry of the chain leads to the next, and the last to an end mark; no cluster comes twice. */
  ghost predicate Chained(t: Table, chain: seq<nat>) {
    && |t| <= EOC
    && (forall i: nat :: Link(t, chain, i))
    && (forall i, j :: 0 <= i < j < |chain| ==> chain[i] != chain[j])
  }

  lemma ChainFrame(t: Table, t': Table, chain: seq<nat>)
    requires Chained(t, chain) && |t'| == |t|
    requires forall i :: 0 <= i < |chain| && chain[i] < |t| ==> t'[chain[i]] == t[chain[i]]
    ensures Chained(t', chain)
  {
    forall i: nat ensures Link(t', chain, i) { assert Link(t, chain, i) && Link(t, chain, i + 1); }
  }

  // ----- the lowest free cluster

  function FreeFrom(t: Table, c: nat): (r: nat)
    requires c <= |t|
    ensures c <= r <= |t|
    ensures r < |t| ==> t[r] == 0
    ensures forall k :: c <= k < r ==> t[k] != 0
    decreases |t| - c
  {
    if c == |t| || t[c] == 0 then c else FreeFrom(t, c + 1)
  }

  /** The table once cluster `c` is taken and put at the end of the chain. */
  function Extended(t: Table, chain: seq<nat>, c: nat): Table
    requires c < |t|
  {
    if chain == [] || chain[|chain| - 1] >= |t| then t[c := EOC] else t[c := EOC][chain[|chain| - 1] := c]
  }

  lemma Extend(t: Table, chain: seq<nat>, c: nat)
    requires Chained(t, chain) && Cluster(t, c) && t[c] == 0
    ensures c !in chain
    ensures Chained(Extended(t, chain, c), chain + [c])
  {
    forall i: nat | i < |chain| ensures chain[i] != c { assert Link(t, chain, i) && Link(t, chain, i + 1); }
    var t' := Extended(t, chain, c);
    if chain != [] { assert Link(t, chain, |chain| - 1); }
    forall i: nat ensures Link(t', chain + [c], i) {
      assert Link(t, chain, i) && Link(t, chain, i + 1);
    }
  }

  // ----- taking clusters for one chain

  /** The table and one chain in it. */
  datatype Space = Space(table: Table, chain: seq<nat>)

  /** Up to `k` more clusters for the chain, the lowest free one each time. */
  function Take(sp: Space, k: nat): Space
    decreases k
  {
    var c := FreeFrom(sp.table, 0);
    if k == 0 || c == |sp.table| then sp else Take(Space(Extended(sp.table, sp.chain, c), sp.chain + [c]), k - 1)
  }

  /** Entries 0 and 1 stand for no cluster and are never free. */
  ghost predicate Takeable(sp: Space) {
    |sp.table| >= 2 && sp.table[0] != 0 && sp.table[1] != 0 && Chained(sp.table, sp.chain)
  }

  /** How many clusters are free. */
  function Free(t: Table): nat { |t| - InUse(t, 0) }

  lemma {:induction false} SetOne(t: Table, c: nat, value: nat, from: nat)
    requires from <= |t| && c < |t| && value != 0
    ensures InUse(t[c := value], from) == InUse(t, from) + if from <= c && t[c] == 0 then 1 else 0
    decreases |t| - from
  {
    if from < |t| { SetOne(t, c, value, from + 1); }
  }

  lemma {:induction false} NoneFree(t: Table, from: nat)
    requires from <= |t|
    ensures InUse(t, from) == |t| - from <==> FreeFrom(t, from) == |t|
    decreases |t| - from
  {
    if from < |t| { NoneFree(t, from + 1); }
  }

  lemma TakeStep(sp: Space)
    requires Takeable(sp) && FreeFrom(sp.table, 0) < |sp.table|
    ensures var c := FreeFrom(sp.table, 0);
            var next := Extended(sp.table, sp.chain, c);
            Takeable(Space(next, sp.chain + [c])) && Free(next) == Free(sp.table) - 1
  {
    var t, chain, c := sp.table, sp.chain, FreeFrom(sp.table, 0);
    Extend(t, chain, c);
    SetOne(t, c, EOC, 0);
    if chain != [] {
      assert Link(t, chain, |chain| - 1);
      SetOne(t[c := EOC], chain[|chain| - 1], c, 0);
    }
  }

  /** The chain gets as many clusters as it asks for, or all that were free. */
  lemma {:induction false} TakeCounts(sp: Space, k: nat)
    requires Takeable(sp)
    ensures var r, got := Take(sp, k), if k <= Free(sp.table) then k else Free(sp.table);
            && Takeable(r) && |r.table| == |sp.table|
            && |r.chain| == |sp.chain| + got && sp.chain <= r.chain && Free(r.table) == Free(sp.table) - got
    decreases k
  {
    NoneFree(sp.table, 0);
    var c := FreeFrom(sp.table, 0);
    if k > 0 && c < |sp.table| {
      TakeStep(sp);
      TakeCounts(Space(Extended(sp.table, sp.chain, c), sp.chain + [c]), k - 1);
    }
  }

  lemma TakeNone(sp: Space, k: nat)
    requires FreeFrom(sp.table, 0) == |sp.table|
    ensures Take(sp, k) == sp
  {}

  /** Taking some and then more is taking all of them at once. */
  lemma {:induction false} TakeMore(sp: Space, a: nat, b: nat)
    ensures Take(Take(sp, a), b) == Take(sp, a + b)
    decreases a
  {
    var c := FreeFrom(sp.table, 0);
    if a > 0 && c < |sp.table| { TakeMore(Space(Extended(sp.table, sp.chain, c), sp.chain + [c]), a - 1, b); }
  }

  // ----- releasing a chain

  /** How many entries of the table from `c` on are in use. */
  function InUse(t: Table, c: nat): (n: nat)
    requires c <= |t|
    ensures n <= |t| - c
    decreases |t| - c
  {
    if c == |t| then 0 else (if t[c] != 0 then 1 else 0) + InUse(t, c + 1)
  }

  lemma {:induction false} ClearOne(t: Table, c: nat, from: nat)
    requires from <= |t| && c < |t| && t[c] != 0
    ensures InUse(t[c := 0], from) == InUse(t, from) - if from <= c then 1 else 0
    decreases |t| - from
  {
    if from < |t| { ClearOne(t, c, from + 1); }
  }

  lemma ClearNone(t: Table, c: nat)
    requires c < |t| && t[c] == 0
    ensures t[c := 0] == t
  {}

  /** The table once everything reached from `c` is cleared. Every step that goes on clears an entry
      in use, so the walk ends on any table, however its entries are linked. */
  ghost function Freed(t: Table, c: nat): (r: Table)
    requires InRange(t)
    ensures |r| == |t|
    decreases InUse(t, 0), if c < 2 || IsEoc(c) then 0 else 1
  {
    if c < 2 || IsEoc(c) || c >= |t| then t
    else
      var next := t[c];
      if next != 0 then ClearOne(t, c, 0); (if IsEoc(next) then t[c := 0] else Freed(t[c := 0], next))
      else t[c := 0]
  }

  ghost function Cleared(t: Table, chain: seq<nat>): Table {
    seq(|t|, k requires 0 <= k < |t| => if k in chain then 0 else t[k])
  }

  /** Releasing a chain frees exactly its clusters. */
  lemma {:induction false} FreedChain(t: Table, chain: seq<nat>)
    requires Chained(t, chain) && chain != [] && InRange(t)
    ensures Freed(t, chain[0]) == Cleared(t, chain)
    decreases |chain|
  {
    assert Link(t, chain, 0);
    var t' := t[chain[0] := 0];
    if |chain| > 1 {
      assert Link(t, chain, 1);
      forall i: nat ensures Link(t', chain[1..], i) { assert Link(t, chain, i + 1) && Link(t, chain, i + 2); }
      ClearOne(t, chain[0], 0);
      FreedChain(t', chain[1..]);
      assert chain == [chain[0]] + chain[1..];
      assert Cleared(t', chain[1..]) == Cleared(t, chain);
    } else {
      assert Cleared(t, chain) == t';
    }
  }

  /** A released cluster can be taken again, and other chains do not notice. */
  lemma ClearedKeeps(t: Table, chain: seq<nat>, other: seq<nat>)
    requires Chained(t, other) && forall i :: 0 <= i < |other| ==> other[i] !in chain
    ensures Chained(Cleared(t, chain), other)
  {
    forall i: nat | i < |other| ensures Cluster(t, other[i]) { assert Link(t, other, i); }
    ChainFrame(t, Cleared(t, chain), other);
  }
}
