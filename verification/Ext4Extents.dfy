/** The extent list of an inode (depth 0, at most four records) as a finite map from logical to
    physical blocks; physical block 0 stands for a hole. */
module Ext4Extents {
  import opened Bytes
  import opened Ext4Common
  import opened Ext4Volume

  /** The length field is masked to 15 bits. */
  function Count(e: Extent): nat { e.len % 0x8000 }

  /** Block arithmetic is on 32-bit words. */
  function End(e: Extent): nat { (e.block + Count(e)) % U32 }

  /** The first extent, from index i on, that holds block l. */
  function Find(es: seq<Extent>, l: nat, i: nat): (r: nat)
    requires i <= |es|
    ensures i <= r <= |es|
    ensures r < |es| ==> es[r].block <= l < End(es[r])
    ensures forall k :: i <= k < r ==> !(es[k].block <= l < End(es[k]))
    decreases |es| - i
  {
    if i == |es| || es[i].block <= l < End(es[i]) then i else Find(es, l, i + 1)
  }

  function Phys(es: seq<Extent>, l: nat): nat {
    var i := Find(es, l, 0);
    if i == |es| then 0 else es[i].start + (l - es[i].block)
  }

  method FileBlockNumber(es: seq<Extent>, l: nat) returns (physical: nat)
    ensures physical == Phys(es, l)
  {
    for i := 0 to |es|
      invariant Find(es, l, 0) == Find(es, l, i)
    {
      if es[i].block <= l < End(es[i]) { return es[i].start + (l - es[i].block); }
    }
    return 0;
  }

  /** The last 32-bit logical block can never be found again: an extent holding it ends at 0. */
  lemma LastBlockUnreachable(es: seq<Extent>)
    ensures Phys(es, U32 - 1) == 0
  {
    assert Find(es, U32 - 1, 0) == |es|;
  }

  // ----- well-formed lists

  ghost predicate Proper(e: Extent) { 1 <= e.len <= EXTENT_LEN_MAX && e.block + e.len < U32 && e.start > 0 }

  ghost predicate AllProper(es: seq<Extent>) { forall i :: 0 <= i < |es| ==> Proper(es[i]) }

  ghost predicate Sorted(es: seq<Extent>) {
    && |es| <= EXTENT_SLOTS
    && AllProper(es)
    && forall i, j :: 0 <= i < j < |es| ==> es[i].block + es[i].len <= es[j].block
  }

  ghost predicate Holds(e: Extent, l: nat) { e.block <= l < e.block + e.len }

  lemma PhysHit(es: seq<Extent>, i: nat, l: nat)
    requires Sorted(es) && i < |es| && Holds(es[i], l)
    ensures Phys(es, l) == es[i].start + (l - es[i].block) > 0
  {
    assert Proper(es[i]);
    var k := Find(es, l, 0);
    assert k < |es| && Proper(es[k]);
  }

  lemma PhysMiss(es: seq<Extent>, l: nat)
    requires Sorted(es) && forall i :: 0 <= i < |es| ==> !Holds(es[i], l)
    ensures Phys(es, l) == 0
  {
    var k := Find(es, l, 0);
    if k < |es| { assert Proper(es[k]) && Holds(es[k], l); }
  }

  lemma NoneHolds(es: seq<Extent>, l: nat)
    requires Sorted(es) && Phys(es, l) == 0
    ensures forall i :: 0 <= i < |es| ==> !Holds(es[i], l)
  {
    forall i | 0 <= i < |es| ensures !Holds(es[i], l) {
      if Holds(es[i], l) { PhysHit(es, i, l); }
    }
  }

  function Mapped(es: seq<Extent>): nat {
    if es == [] then 0 else Mapped(es[..|es| - 1]) + es[|es| - 1].len
  }

  lemma {:induction false} MappedSplit(a: seq<Extent>, b: seq<Extent>)
    ensures Mapped(a + b) == Mapped(a) + Mapped(b)
  {
    if b == [] {
      assert a + b == a;
    } else {
      assert (a + b)[..|a + b| - 1] == a + b[..|b| - 1];
      MappedSplit(a, b[..|b| - 1]);
    }
  }

  // ----- adding a pair

  predicate Extends(e: Extent, l: nat, p: nat) {
    End(e) == l && e.start + Count(e) == p && Count(e) < EXTENT_LEN_MAX
  }

  /** One pair more, and nothing else moved. */
  ghost predicate AddsPair(es: seq<Extent>, es': seq<Extent>, l: nat, p: nat) {
    && Sorted(es') && Mapped(es') == Mapped(es) + 1
    && forall m: nat :: Phys(es', m) == if m == l then p else Phys(es, m)
  }

  lemma MergeSorted(es: seq<Extent>, i: nat, l: nat, p: nat)
    requires Sorted(es) && Phys(es, l) == 0 && l + 1 < U32 && i < |es| && Extends(es[i], l, p)
    ensures Sorted(es[i := es[i].(len := Count(es[i]) + 1)]) && es[i].block + es[i].len == l
  {
    assert Proper(es[i]);
    NoneHolds(es, l);
    if i + 1 < |es| { assert Proper(es[i + 1]) && !Holds(es[i + 1], l); }
    var es' := es[i := es[i].(len := Count(es[i]) + 1)];
    forall a, b | 0 <= a < b < |es'| ensures es'[a].block + es'[a].len <= es'[b].block {
      if a == i && b > i + 1 { assert Proper(es[i + 1]) && es[i + 1].block + es[i + 1].len <= es[b].block; }
    }
  }

  lemma MergePhys(es: seq<Extent>, i: nat, l: nat, p: nat, m: nat)
    requires Sorted(es) && Phys(es, l) == 0 && l + 1 < U32 && i < |es| && Extends(es[i], l, p) && m != l
    ensures Phys(es[i := es[i].(len := Count(es[i]) + 1)], m) == Phys(es, m)
  {
    MergeSorted(es, i, l, p);
    var es' := es[i := es[i].(len := Count(es[i]) + 1)];
    assert Proper(es[i]);
    if k: nat :| k < |es| && Holds(es[k], m) {
      PhysHit(es, k, m);
      PhysHit(es', k, m);
    } else {
      PhysMiss(es, m);
      forall k | 0 <= k < |es'| ensures !Holds(es'[k], m) { assert !Holds(es[k], m); }
      PhysMiss(es', m);
    }
  }

  lemma MergeAddsPair(es: seq<Extent>, i: nat, l: nat, p: nat)
    requires Sorted(es) && Phys(es, l) == 0 && p > 0 && l + 1 < U32
    requires i < |es| && Extends(es[i], l, p)
    ensures AddsPair(es, es[i := es[i].(len := Count(es[i]) + 1)], l, p)
  {
    var es' := es[i := es[i].(len := Count(es[i]) + 1)];
    MergeSorted(es, i, l, p);
    forall m: nat | m != l ensures Phys(es', m) == Phys(es, m) { MergePhys(es, i, l, p, m); }
    PhysHit(es', i, l);
    MappedUpdate(es, i, es'[i]);
  }

  lemma MappedUpdate(es: seq<Extent>, i: nat, e: Extent)
    requires i < |es|
    ensures Mapped(es[i := e]) == Mapped(es) - es[i].len + e.len
  {
    assert es == es[..i] + [es[i]] + es[i + 1..];
    assert es[i := e] == es[..i] + [e] + es[i + 1..];
    MappedMiddle(es[..i], es[i], es[i + 1..]);
    MappedMiddle(es[..i], e, es[i + 1..]);
  }

  lemma MappedMiddle(a: seq<Extent>, e: Extent, b: seq<Extent>)
    ensures Mapped(a + [e] + b) == Mapped(a) + e.len + Mapped(b)
  {
    MappedSplit(a + [e], b);
    MappedSplit(a, [e]);
    assert Mapped([e]) == e.len;
  }

  /** `es'` is `es` with `e` put at index k. */
  ghost predicate InsertedAt(es: seq<Extent>, es': seq<Extent>, k: nat, e: Extent) {
    && k <= |es| && |es'| == |es| + 1 && es'[k] == e
    && (forall j {:trigger es[j]} :: 0 <= j < k ==> es'[j] == es[j])
    && (forall j {:trigger es[j]} :: k <= j < |es| ==> es'[j + 1] == es[j])
    && (forall j {:trigger es'[j]} :: k < j < |es'| ==> es'[j] == es[j - 1])
  }

  lemma InsertSorted(es: seq<Extent>, es': seq<Extent>, k: nat, l: nat, p: nat)
    requires Sorted(es) && |es| < EXTENT_SLOTS && Phys(es, l) == 0 && p > 0 && l + 1 < U32
    requires InsertedAt(es, es', k, Extent(l, 1, p))
    requires (forall j :: 0 <= j < k ==> es[j].block <= l) && (forall j :: k <= j < |es| ==> es[j].block > l)
    ensures Sorted(es')
  {
    NoneHolds(es, l);
    forall j | 0 <= j < k ensures es[j].block + es[j].len <= l { assert Proper(es[j]) && !Holds(es[j], l); }
    forall a, b | 0 <= a < b < |es'| ensures es'[a].block + es'[a].len <= es'[b].block {
      var a', b' := if a < k then a else a - 1, if b < k then b else b - 1;
      if a != k && b != k { assert es[a'].block + es[a'].len <= es[b'].block; }
    }
    forall a | 0 <= a < |es'| ensures Proper(es'[a]) {
      if a != k { assert Proper(es[if a < k then a else a - 1]); }
    }
  }

  lemma InsertPhys(es: seq<Extent>, es': seq<Extent>, k: nat, l: nat, p: nat, m: nat)
    requires Sorted(es) && Sorted(es') && InsertedAt(es, es', k, Extent(l, 1, p)) && m != l
    ensures Phys(es', m) == Phys(es, m)
  {
    if i: nat :| i < |es| && Holds(es[i], m) {
      PhysHit(es, i, m);
      PhysHit(es', if i < k then i else i + 1, m);
    } else {
      PhysMiss(es, m);
      forall j | 0 <= j < |es'| ensures !Holds(es'[j], m) {
        if j < k { assert !Holds(es[j], m); } else if j > k { assert !Holds(es[j - 1], m); }
      }
      PhysMiss(es', m);
    }
  }

  lemma InsertAddsPair(es: seq<Extent>, es': seq<Extent>, k: nat, l: nat, p: nat)
    requires Sorted(es) && |es| < EXTENT_SLOTS && Phys(es, l) == 0 && p > 0 && l + 1 < U32
    requires InsertedAt(es, es', k, Extent(l, 1, p))
    requires (forall j :: 0 <= j < k ==> es[j].block <= l) && (forall j :: k <= j < |es| ==> es[j].block > l)
    ensures AddsPair(es, es', l, p)
  {
    InsertSorted(es, es', k, l, p);
    forall m: nat | m != l ensures Phys(es', m) == Phys(es, m) { InsertPhys(es, es', k, l, p, m); }
    PhysHit(es', k, l);
    MappedInsert(es, es', k, Extent(l, 1, p));
  }

  lemma MappedInsert(es: seq<Extent>, es': seq<Extent>, k: nat, e: Extent)
    requires InsertedAt(es, es', k, e)
    ensures Mapped(es') == Mapped(es) + e.len
  {
    assert es == es[..k] + es[k..];
    assert es' == es[..k] + [e] + es[k..];
    MappedSplit(es[..k], es[k..]);
    MappedMiddle(es[..k], e, es[k..]);
  }

  /** The first extent, from index i on, that block l continues at p. */
  function Continued(es: seq<Extent>, l: nat, p: nat, i: nat): (r: nat)
    requires i <= |es|
    ensures i <= r <= |es|
    ensures r < |es| ==> Extends(es[r], l, p)
    ensures forall k :: i <= k < r ==> !Extends(es[k], l, p)
    decreases |es| - i
  {
    if i == |es| || Extends(es[i], l, p) then i else Continued(es, l, p, i + 1)
  }

  /** Can block l be mapped to p: does it continue an extent, or is a slot free? */
  predicate CanMap(es: seq<Extent>, l: nat, p: nat) { Continued(es, l, p, 0) < |es| || |es| < EXTENT_SLOTS }

  /** Where an extent that starts at l belongs among the first k. */
  function SlotFor(es: seq<Extent>, l: nat, k: nat): (r: nat)
    requires k <= |es|
    ensures r <= k
  {
    if k > 0 && es[k - 1].block > l then SlotFor(es, l, k - 1) else k
  }

  /** The list once l is mapped to p. */
  function WithBlock(es: seq<Extent>, l: nat, p: nat): seq<Extent> {
    var i, k := Continued(es, l, p, 0), SlotFor(es, l, |es|);
    if i < |es| then es[i := es[i].(len := Count(es[i]) + 1)] else es[..k] + [Extent(l, 1, p)] + es[k..]
  }

  /** Maps an unmapped logical block, by growing the extent it continues or by inserting a new
      one in order; it fails exactly when neither is possible. */
  method SetInodeBlock(es: seq<Extent>, l: nat, p: nat) returns (status: Status, es': seq<Extent>)
    requires Sorted(es) && Phys(es, l) == 0 && p > 0 && l + 1 < U32
    ensures status == if CanMap(es, l, p) then Ok else NotSupported
    ensures if status == Ok then es' == WithBlock(es, l, p) && AddsPair(es, es', l, p) else es' == es
  {
    for i := 0 to |es|
      invariant Continued(es, l, p, 0) == Continued(es, l, p, i)
    {
      if Extends(es[i], l, p) {
        MergeAddsPair(es, i, l, p);
        return Ok, es[i := es[i].(len := Count(es[i]) + 1)];
      }
    }
    if |es| >= EXTENT_SLOTS { return NotSupported, es; }
    es' := InsertExtent(es, l, p);
    return Ok, es';
  }

  /** Shifts the later extents up by one and stores the new one. */
  method InsertExtent(es: seq<Extent>, l: nat, p: nat) returns (slots: seq<Extent>)
    requires Sorted(es) && |es| < EXTENT_SLOTS && Phys(es, l) == 0 && p > 0 && l + 1 < U32
    ensures AddsPair(es, slots, l, p)
    ensures var k := SlotFor(es, l, |es|); slots == es[..k] + [Extent(l, 1, p)] + es[k..]
  {
    hide Phys, Find, Mapped, AddsPair;
    var insert := |es|;
    slots := es + [Extent(0, 0, 0)];
    while insert > 0 && slots[insert - 1].block > l
      invariant 0 <= insert <= |es| && |slots| == |es| + 1
      invariant SlotFor(es, l, |es|) == SlotFor(es, l, insert)
      invariant forall j :: 0 <= j < insert ==> slots[j] == es[j]
      invariant forall j :: insert <= j < |es| ==> slots[j + 1] == es[j] && es[j].block > l
    {
      slots := slots[insert := slots[insert - 1]];
      insert := insert - 1;
    }
    slots := slots[insert := Extent(l, 1, p)];
    forall j | 0 <= j < insert ensures es[j].block <= l {
      if j < insert - 1 { assert Proper(es[j]) && es[j].block + es[j].len <= es[insert - 1].block; }
    }
    InsertAddsPair(es, slots, insert, l, p);
    InsertedIs(es, slots, insert, Extent(l, 1, p));
  }

  lemma InsertedIs(es: seq<Extent>, es': seq<Extent>, k: nat, e: Extent)
    requires InsertedAt(es, es', k, e)
    ensures es' == es[..k] + [e] + es[k..]
  {}

  // ----- keeping a prefix

  function Trim(e: Extent, f: nat): seq<Extent> {
    if End(e) <= f then [e] else if e.block < f then [e.(len := f - e.block)] else []
  }

  /** What `free_inode_blocks` leaves of a list. */
  function Keep(es: seq<Extent>, f: nat): seq<Extent> {
    if es == [] then [] else Keep(es[..|es| - 1], f) + Trim(es[|es| - 1], f)
  }

  function Last(es: seq<Extent>): nat { if es == [] then 0 else es[|es| - 1].block + es[|es| - 1].len }

  lemma {:induction false} KeepSorted(es: seq<Extent>, f: nat)
    requires Sorted(es)
    ensures Sorted(Keep(es, f)) && |Keep(es, f)| <= |es| && Last(Keep(es, f)) <= Last(es)
  {
    if es != [] {
      var m := |es| - 1;
      var init, last := es[..m], es[m];
      KeepSorted(init, f);
      if m > 0 { assert es[m - 1].block + es[m - 1].len <= last.block; }
      SortedAppend(Keep(init, f), last, f);
    }
  }

  lemma PhysAppend(es: seq<Extent>, e: Extent, m: nat)
    requires Sorted(es + [e]) && Sorted(es)
    ensures Phys(es + [e], m) == if Holds(e, m) then e.start + (m - e.block) else Phys(es, m)
  {
    var all := es + [e];
    assert forall k :: 0 <= k < |es| ==> all[k] == es[k];
    if Holds(e, m) {
      PhysHit(all, |es|, m);
    } else if k :| 0 <= k < |es| && Holds(es[k], m) {
      PhysHit(es, k, m);
      PhysHit(all, k, m);
    } else {
      PhysMiss(es, m);
      PhysMiss(all, m);
    }
  }

  lemma KeepStep(init: seq<Extent>, last: Extent, f: nat, k: nat)
    requires Sorted(init + [last]) && Sorted(init) && Sorted(Keep(init, f)) && Sorted(Keep(init, f) + Trim(last, f))
    requires Phys(Keep(init, f), k) == if k < f then Phys(init, k) else 0
    ensures Phys(Keep(init, f) + Trim(last, f), k) == if k < f then Phys(init + [last], k) else 0
  {
    var kept, tail := Keep(init, f), Trim(last, f);
    assert Proper((init + [last])[|init|]);
    PhysAppend(init, last, k);
    if init != [] { assert (init + [last])[|init| - 1] == init[|init| - 1]; }
    if Last(init) <= k { AboveLast(init, k); }
    if tail == [] {
      assert kept + tail == kept;
    } else {
      assert tail == [tail[0]];
      PhysAppend(kept, tail[0], k);
    }
  }

  /** Keeping a prefix restricts the map to the lower logical blocks. */
  lemma {:induction false} KeepRestricts(es: seq<Extent>, f: nat)
    requires Sorted(es)
    ensures forall m: nat :: Phys(Keep(es, f), m) == if m < f then Phys(es, m) else 0
  {
    if es != [] {
      var init, last := es[..|es| - 1], es[|es| - 1];
      assert es == init + [last];
      KeepRestricts(init, f);
      KeepSorted(init, f);
      KeepSorted(es, f);
      forall k: nat ensures Phys(Keep(es, f), k) == if k < f then Phys(es, k) else 0 { KeepStep(init, last, f, k); }
    }
  }

  lemma AboveLast(es: seq<Extent>, k: nat)
    requires Sorted(es) && Last(es) <= k
    ensures Phys(es, k) == 0
  {
    forall i | 0 <= i < |es| ensures !Holds(es[i], k) {
      if i < |es| - 1 { assert Proper(es[|es| - 1]) && es[i].block + es[i].len <= es[|es| - 1].block; }
    }
    PhysMiss(es, k);
  }

  lemma SortedAppend(kept: seq<Extent>, last: Extent, f: nat)
    requires Sorted(kept) && |kept| < EXTENT_SLOTS && Proper(last) && Last(kept) <= last.block
    ensures Sorted(kept + Trim(last, f)) && Last(kept + Trim(last, f)) <= last.block + last.len
  {
    var es := kept + Trim(last, f);
    forall i, j | 0 <= i < j < |es| ensures es[i].block + es[i].len <= es[j].block {
      if j == |kept| && i < |kept| - 1 { assert kept[i].block + kept[i].len <= kept[|kept| - 1].block; }
    }
  }
}
