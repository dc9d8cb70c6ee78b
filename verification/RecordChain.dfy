/** Chains of variable-length records laid end to end in a block of n bytes.  `r(p)` is what is
    read at offset p: a record with its length and its live entries, or nothing usable. */
module RecordChain {
  datatype Rec<E> = Stop | Rec(len: nat, live: seq<E>)

  type Reading<E> = nat -> Rec<E>

  predicate Ok<E>(r: Reading<E>, n: nat, p: nat) {
    r(p).Rec? && r(p).len > 0 && p + r(p).len <= n
  }

  /** From p on the records cover the block exactly. */
  predicate Tiles<E>(r: Reading<E>, n: nat, p: nat)
    decreases if p <= n then n - p else 0
  {
    p == n || (Ok(r, n, p) && Tiles(r, n, p + r(p).len))
  }

  /** The live entries from p on, up to the first unusable record. */
  function Entries<E>(r: Reading<E>, n: nat, p: nat): seq<E>
    decreases if p <= n then n - p else 0
  {
    if Ok(r, n, p) then r(p).live + Entries(r, n, p + r(p).len) else []
  }

  ghost predicate Reaches<E>(r: Reading<E>, n: nat, s: nat, p: nat)
    decreases p - s
  {
    s == p || (s < p && Ok(r, n, s) && Reaches(r, n, s + r(s).len, p))
  }

  /** The live entries from s up to p. */
  ghost function Before<E>(r: Reading<E>, n: nat, s: nat, p: nat): seq<E>
    requires Reaches(r, n, s, p)
    decreases p - s
  {
    if s == p then [] else r(s).live + Before(r, n, s + r(s).len, p)
  }

  lemma Assoc<E>(a: seq<E>, b: seq<E>, c: seq<E>)
    ensures a + (b + c) == (a + b) + c
  {}

  lemma Empty<E>(a: seq<E>)
    ensures [] + a == a && a + [] == a
  {}

  lemma {:induction false} SplitAt<E>(r: Reading<E>, n: nat, s: nat, p: nat)
    requires Reaches(r, n, s, p) && p <= n
    ensures Entries(r, n, s) == Before(r, n, s, p) + Entries(r, n, p) && (Tiles(r, n, s) <==> Tiles(r, n, p))
    decreases p - s
  {
    if s == p {
      Empty(Entries(r, n, p));
    } else {
      var t := s + r(s).len;
      SplitAt(r, n, t, p);
      Assoc(r(s).live, Before(r, n, t, p), Entries(r, n, p));
    }
  }

  lemma {:induction false} ReachesTrans<E>(r: Reading<E>, n: nat, s: nat, p: nat, q: nat)
    requires Reaches(r, n, s, p) && Reaches(r, n, p, q) && p <= q
    ensures Reaches(r, n, s, q) && Before(r, n, s, q) == Before(r, n, s, p) + Before(r, n, p, q)
    decreases p - s
  {
    if s == p {
      Empty(Before(r, n, p, q));
    } else {
      var t := s + r(s).len;
      ReachesTrans(r, n, t, p, q);
      Assoc(r(s).live, Before(r, n, t, p), Before(r, n, p, q));
    }
  }

  lemma OneRecord<E>(r: Reading<E>, n: nat, p: nat)
    requires Ok(r, n, p)
    ensures Reaches(r, n, p, p + r(p).len) && Before(r, n, p, p + r(p).len) == r(p).live
  {
    var q := p + r(p).len;
    assert Reaches(r, n, q, q) && Before(r, n, q, q) == [];
    Empty(r(p).live);
  }

  lemma ReachesStart<E>(r: Reading<E>, n: nat)
    ensures Reaches(r, n, 0, 0) && Before(r, n, 0, 0) == []
  {}

  /** Stepping over one record. */
  lemma ReachesNext<E>(r: Reading<E>, n: nat, p: nat)
    requires Reaches(r, n, 0, p) && Ok(r, n, p)
    ensures Reaches(r, n, 0, p + r(p).len) && Before(r, n, 0, p + r(p).len) == Before(r, n, 0, p) + r(p).live
  {
    OneRecord(r, n, p);
    ReachesTrans(r, n, 0, p, p + r(p).len);
  }

  lemma {:induction false} TilesReach<E>(r: Reading<E>, n: nat, s: nat)
    requires Tiles(r, n, s) && s <= n
    ensures Reaches(r, n, s, n)
    decreases n - s
  {
    if s != n { TilesReach(r, n, s + r(s).len); }
  }

  /** The readings agree on every record lying within s..p. */
  ghost predicate Agree<E>(r: Reading<E>, r': Reading<E>, n: nat, s: nat, p: nat) {
    forall k: nat {:trigger r(k)} {:trigger r'(k)} :: s <= k < p && Ok(r, n, k) && k + r(k).len <= p ==> r'(k) == r(k)
  }

  lemma {:induction false} ReachesFrame<E>(r: Reading<E>, r': Reading<E>, n: nat, s: nat, p: nat)
    requires Agree(r, r', n, s, p) && Reaches(r, n, s, p)
    ensures Reaches(r', n, s, p) && Before(r', n, s, p) == Before(r, n, s, p)
    decreases p - s
  {
    if s != p { ReachesFrame(r, r', n, s + r(s).len, p); }
  }

  /** Bytes p to q, one record of the old reading, read as other records in the new one. */
  ghost predicate Rewritten<E>(r: Reading<E>, r': Reading<E>, n: nat, p: nat, q: nat) {
    && Tiles(r, n, 0) && Reaches(r, n, 0, p) && Ok(r, n, p) && q == p + r(p).len
    && Agree(r, r', n, 0, p) && Agree(r, r', n, q, n) && Reaches(r', n, p, q)
  }

  lemma TailKept<E>(r: Reading<E>, r': Reading<E>, n: nat, q: nat)
    requires Agree(r, r', n, q, n) && q <= n && Tiles(r, n, q)
    ensures Tiles(r', n, q) && Entries(r', n, q) == Entries(r, n, q)
  {
    TilesReach(r, n, q);
    ReachesFrame(r, r', n, q, n);
    SplitAt(r, n, q, n);
    SplitAt(r', n, q, n);
  }

  /** The block still tiles, and only this record's entries have changed. */
  lemma RewriteLocal<E>(r: Reading<E>, r': Reading<E>, n: nat, p: nat, q: nat)
    requires Rewritten(r, r', n, p, q)
    ensures Tiles(r', n, 0)
    ensures Entries(r, n, 0) == Before(r, n, 0, p) + r(p).live + Entries(r, n, q)
    ensures Entries(r', n, 0) == Before(r, n, 0, p) + Before(r', n, p, q) + Entries(r, n, q)
  {
    ReachesNext(r, n, p);
    SplitAt(r, n, 0, q);
    TailKept(r, r', n, q);
    ReachesFrame(r, r', n, 0, p);
    ReachesTrans(r', n, 0, p, q);
    SplitAt(r', n, 0, q);
  }

  /** One entry more, at some place among the old ones. */
  ghost predicate Gained<E>(es: seq<E>, es': seq<E>, e: E) {
    exists k :: GainedAt(es, es', k, e)
  }

  ghost predicate GainedAt<E>(es: seq<E>, es': seq<E>, k: nat, e: E) {
    && k <= |es| && |es'| == |es| + 1 && es'[k] == e
    && es'[..k] == es[..k] && es'[k + 1..] == es[k..]
  }

  ghost predicate Lost<E>(es: seq<E>, es': seq<E>, e: E) { Gained(es', es, e) }

  lemma Inserted<E>(x: seq<E>, e: E, y: seq<E>)
    ensures Gained(x + y, x + [e] + y, e)
  {
    assert GainedAt(x + y, x + [e] + y, |x|, e);
  }

  lemma GainedMembers<E>(es: seq<E>, es': seq<E>, e: E)
    requires Gained(es, es', e)
    ensures forall x :: x in es' <==> x in es || x == e
  {
    var k :| GainedAt(es, es', k, e);
    MembersAt(es, es', k, e);
  }

  lemma MembersAt<E>(es: seq<E>, es': seq<E>, k: nat, e: E)
    requires GainedAt(es, es', k, e)
    ensures forall x :: x in es' <==> x in es || x == e
  {
    assert es == es[..k] + es[k..] && es' == es'[..k] + [e] + es'[k + 1..];
  }

  /** Where each item of the one list stands in the other. */
  lemma GainedIndex<E>(es: seq<E>, es': seq<E>, k: nat, e: E, j: nat)
    requires GainedAt(es, es', k, e)
    ensures j < k ==> es'[j] == es[j]
    ensures k <= j < |es| ==> es'[j + 1] == es[j]
    ensures k < j < |es'| ==> es'[j] == es[j - 1]
  {
    if j < k { assert es'[j] == es'[..k][j] && es[j] == es[..k][j]; }
    if k <= j < |es| { assert es'[j + 1] == es'[k + 1..][j - k] && es[j] == es[k..][j - k]; }
    if k < j < |es'| { assert es'[j] == es'[k + 1..][j - k - 1] && es[j - 1] == es[k..][j - 1 - k]; }
  }

  lemma GainedLeft<E>(x: seq<E>, x': seq<E>, y: seq<E>, e: E)
    requires Gained(x, x', e)
    ensures Gained(x + y, x' + y, e)
  {
    var k :| GainedAt(x, x', k, e);
    assert GainedAt(x + y, x' + y, k, e);
  }

  lemma GainedRight<E>(y: seq<E>, x: seq<E>, x': seq<E>, e: E)
    requires Gained(x, x', e)
    ensures Gained(y + x, y + x', e)
  {
    var k :| GainedAt(x, x', k, e);
    assert GainedAt(y + x, y + x', |y| + k, e);
  }

  lemma RewriteGains<E>(r: Reading<E>, r': Reading<E>, n: nat, p: nat, q: nat, e: E)
    requires Rewritten(r, r', n, p, q) && Before(r', n, p, q) == r(p).live + [e]
    ensures Tiles(r', n, 0) && Gained(Entries(r, n, 0), Entries(r', n, 0), e)
  {
    RewriteLocal(r, r', n, p, q);
    var x, h, y := Before(r, n, 0, p), r(p).live, Entries(r, n, q);
    Assoc(x, h, [e]);
    Inserted(x + h, e, y);
  }

  lemma RewriteLoses<E>(r: Reading<E>, r': Reading<E>, n: nat, p: nat, q: nat, e: E)
    requires Rewritten(r, r', n, p, q) && Before(r', n, p, q) == [] && r(p).live == [e]
    ensures Tiles(r', n, 0) && Lost(Entries(r, n, 0), Entries(r', n, 0), e)
  {
    RewriteLocal(r, r', n, p, q);
    Empty(Before(r, n, 0, p));
    Inserted(Before(r, n, 0, p), e, Entries(r, n, q));
  }

  // ----- the edits a record admits

  /** The old reading up to q, where record p ends, and everything outside p..q kept. */
  ghost predicate OnlyRecord<E>(r: Reading<E>, r': Reading<E>, n: nat, p: nat) {
    && Tiles(r, n, 0) && Reaches(r, n, 0, p) && Ok(r, n, p)
    && Agree(r, r', n, 0, p) && Agree(r, r', n, p + r(p).len, n)
  }

  /** An unused record of the same length now carries an entry. */
  lemma ReusedGains<E>(r: Reading<E>, r': Reading<E>, n: nat, p: nat, e: E)
    requires OnlyRecord(r, r', n, p) && r(p).live == [] && r'(p) == Rec(r(p).len, [e])
    ensures Tiles(r', n, 0) && Gained(Entries(r, n, 0), Entries(r', n, 0), e)
  {
    OneRecord(r', n, p);
    RewriteGains(r, r', n, p, p + r(p).len, e);
  }

  /** A used record of the same length no longer carries its entry. */
  lemma ClearedLoses<E>(r: Reading<E>, r': Reading<E>, n: nat, p: nat, e: E)
    requires OnlyRecord(r, r', n, p) && r(p).live == [e] && r'(p) == Rec(r(p).len, [])
    ensures Tiles(r', n, 0) && Lost(Entries(r, n, 0), Entries(r', n, 0), e)
  {
    OneRecord(r', n, p);
    RewriteLoses(r, r', n, p, p + r(p).len, e);
  }

  /** A record cut at m, its slack a record of its own with an entry. */
  lemma SplitGains<E>(r: Reading<E>, r': Reading<E>, n: nat, p: nat, m: nat, e: E)
    requires OnlyRecord(r, r', n, p) && p < m < p + r(p).len
    requires r'(p) == Rec(m - p, r(p).live) && r'(m) == Rec(p + r(p).len - m, [e])
    ensures Tiles(r', n, 0) && Gained(Entries(r, n, 0), Entries(r', n, 0), e)
  {
    var q := p + r(p).len;
    OneRecord(r', n, p);
    OneRecord(r', n, m);
    ReachesTrans(r', n, p, m, q);
    RewriteGains(r, r', n, p, q, e);
  }

  /** Nothing lies behind the last record. */
  lemma EndOfBlock<E>(r: Reading<E>, n: nat)
    requires Tiles(r, n, n) && Reaches(r, n, 0, n)
    ensures Tiles(r, n, 0) && Entries(r, n, 0) == Before(r, n, 0, n)
  {
    SplitAt(r, n, 0, n);
    assert !Ok(r, n, n);
    Empty(Before(r, n, 0, n));
  }

  lemma TwoRecordBlock<E>(r: Reading<E>, n: nat, m: nat)
    requires Ok(r, n, 0) && r(0).len == m && Ok(r, n, m) && m + r(m).len == n
    ensures Tiles(r, n, 0) && Entries(r, n, 0) == r(0).live + r(m).live
  {
    OneRecord(r, n, 0);
    OneRecord(r, n, m);
    ReachesTrans(r, n, 0, m, n);
    EndOfBlock(r, n);
  }
}
