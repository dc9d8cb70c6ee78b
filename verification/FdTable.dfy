/** The kernel runtime's descriptor table: one slot of a group of duplicates owns the object and
    counts the group, the others point at it, and ownership moves on when the owner is closed.
    What a table shows to processes is a map from (pid, fd) to objects. */
module FdTable {
  const SLOTS := 32
  const FIRST_FD := 3

  type Key = (int, int)   // owning pid, local descriptor number

  datatype Obj = File(handle: nat) | PipeEnd(pipe: nat, write: bool)

  datatype Slot = Slot(used: bool, pid: int, fd: int, owner: int, refs: int, obj: Obj)

  type Names = map<Key, Obj>

  const EMPTY := Slot(false, 0, 0, 0, 0, File(0))

  // ----- what a sound table is

  predicate Used(s: seq<Slot>, i: int) { 0 <= i < |s| && s[i].used }

  /** A slot that some process can find. */
  predicate Named(s: seq<Slot>, i: int) { Used(s, i) && s[i].pid >= 0 }

  predicate Owner(s: seq<Slot>, o: int) { Used(s, o) && s[o].owner == o }

  function KeyOf(s: seq<Slot>, i: int): Key
    requires 0 <= i < |s|
  {
    (s[i].pid, s[i].fd)
  }

  ghost function Group(s: seq<Slot>, o: int): set<int> {
    set i | 0 <= i < |s| && Named(s, i) && s[i].owner == o
  }

  /** A used slot points at an owner of the same object, which owns itself; only slot `x` may have
      lost its name. */
  ghost predicate Attached(s: seq<Slot>, i: int, x: int) {
    Used(s, i) ==>
      && Owner(s, s[i].owner)
      && s[s[i].owner].obj == s[i].obj
      && (Named(s, i) || i == x)
      && (Named(s, i) ==> 0 <= s[i].fd < SLOTS)
  }

  /** An owner counts its group, but slot `x` counts one more than there are. */
  ghost predicate Counts(s: seq<Slot>, o: int, x: int) {
    Owner(s, o) ==> s[o].refs == |Group(s, o)| + if o == x then 1 else 0
  }

  ghost predicate OneOwner(s: seq<Slot>, o: int, p: int) {
    Owner(s, o) && Owner(s, p) && s[o].obj == s[p].obj ==> o == p
  }

  ghost predicate OneKey(s: seq<Slot>, i: int, j: int) {
    Named(s, i) && Named(s, j) && KeyOf(s, i) == KeyOf(s, j) ==> i == j
  }

  /** Sound, except that owner `x` holds one reference too many; -1 means no exception. */
  ghost predicate SoundBut(s: seq<Slot>, x: int) {
    && |s| == SLOTS
    && (x == -1 || Owner(s, x))
    && (forall i: int :: Attached(s, i, x))
    && (forall o: int :: Counts(s, o, x))
    && (forall o: int, p: int :: OneOwner(s, o, p))
    && (forall i: int, j: int :: OneKey(s, i, j))
  }

  ghost predicate Sound(s: seq<Slot>) { SoundBut(s, -1) }

  /** The map from (pid, fd) to objects that the table shows. */
  ghost predicate Shows(s: seq<Slot>, names: Names) {
    && (forall i :: Named(s, i) ==> KeyOf(s, i) in names && names[KeyOf(s, i)] == s[i].obj)
    && (forall k :: k in names ==> exists i :: Named(s, i) && KeyOf(s, i) == k)
  }

  lemma ShowsOne(s: seq<Slot>, a: Names, b: Names)
    requires Shows(s, a) && Shows(s, b)
    ensures a == b
  {
    forall k | k in a ensures k in b && a[k] == b[k] {
      var i :| Named(s, i) && KeyOf(s, i) == k;
    }
    forall k | k in b ensures k in a {
      var i :| Named(s, i) && KeyOf(s, i) == k;
    }
  }

  // ----- closing a slot

  /** The first other slot of the group that slot `i` owns, or `|s|`. */
  function FirstAlias(s: seq<Slot>, i: int, from: nat): (p: int)
    requires from <= |s|
    ensures from <= p <= |s|
    ensures p < |s| ==> p != i && s[p].used && s[p].owner == i
    ensures forall j :: from <= j < p && j != i ==> !(s[j].used && s[j].owner == i)
    decreases |s| - from
  {
    if from == |s| then |s|
    else if from != i && s[from].used && s[from].owner == i then from
    else FirstAlias(s, i, from + 1)
  }

  /** Slot `i` passes its object and its count, less one, to its alias `p`. */
  function Handover(s: seq<Slot>, i: int, p: int): (r: seq<Slot>)
    requires 0 <= i < |s| && 0 <= p < |s|
    ensures |r| == |s|
  {
    seq(|s|, j requires 0 <= j < |s| =>
      if j == i then EMPTY
      else if j == p then s[p].(owner := p, refs := s[i].refs - 1)
      else if s[j].used && s[j].owner == i then s[j].(owner := p)
      else s[j])
  }

  function Unref(r: Slot): Slot {
    if r.used && r.refs > 0 then r.(refs := r.refs - 1) else r
  }

  predicate IsAlias(s: seq<Slot>, i: int)
    requires 0 <= i < |s|
  {
    s[i].owner != i && 0 <= s[i].owner < |s|
  }

  function CloseAt(s: seq<Slot>, i: int): (r: seq<Slot>)
    requires 0 <= i < |s|
    ensures |r| == |s|
  {
    if !s[i].used then s
    else if IsAlias(s, i) then s[s[i].owner := Unref(s[s[i].owner])][i := EMPTY]
    else if s[i].refs > 1 then
      var p := FirstAlias(s, i, 0);
      if p < |s| then Handover(s, i, p)
      else s[i := s[i].(refs := s[i].refs - 1, fd := -1, pid := -1)]
    else s[i := EMPTY]
  }

  /** The object of slot `i` is closed with it. */
  predicate Final(s: seq<Slot>, i: int)
    requires 0 <= i < |s|
  {
    s[i].used && !IsAlias(s, i) && s[i].refs <= 1
  }

  /** Where the surplus reference of `x` is once slot `i` is closed. */
  function Heir(s: seq<Slot>, i: int, x: int): int
    requires 0 <= i < |s|
  {
    if i == x && FirstAlias(s, i, 0) < |s| then FirstAlias(s, i, 0) else x
  }

  lemma InGroup(s: seq<Slot>, i: int)
    requires Named(s, i)
    ensures i in Group(s, s[i].owner) && |Group(s, s[i].owner)| >= 1
  {
    assert Group(s, s[i].owner) == {i} + (Group(s, s[i].owner) - {i});
  }

  // --- an alias

  lemma AliasGroup(s: seq<Slot>, i: int, x: int, o: int)
    requires SoundBut(s, x) && Named(s, i) && IsAlias(s, i)
    ensures Group(CloseAt(s, i), o) == Group(s, o) - {i}
  {}

  lemma CloseAliasCounts(s: seq<Slot>, i: int, x: int, o: int)
    requires SoundBut(s, x) && Named(s, i) && IsAlias(s, i)
    ensures Counts(CloseAt(s, i), o, x)
  {
    AliasGroup(s, i, x, o);
    assert Attached(s, i, x) && Counts(s, o, x) && Counts(s, s[i].owner, x);
    InGroup(s, i);
  }

  lemma CloseAlias(s: seq<Slot>, i: int, x: int)
    requires SoundBut(s, x) && Named(s, i) && IsAlias(s, i)
    ensures SoundBut(CloseAt(s, i), x)
  {
    var t := CloseAt(s, i);
    assert Attached(s, i, x);
    forall j: int ensures Attached(t, j, x) { assert Attached(s, j, x); }
    forall o: int ensures Counts(t, o, x) { CloseAliasCounts(s, i, x, o); }
    forall o: int, p: int ensures OneOwner(t, o, p) { assert OneOwner(s, o, p); }
    forall j: int, k: int ensures OneKey(t, j, k) { assert OneKey(s, j, k); }
  }

  // --- an owner with aliases

  lemma HandoverGroup(s: seq<Slot>, i: int, x: int, o: int)
    requires SoundBut(s, x) && Owner(s, i) && Named(s, i)
    requires FirstAlias(s, i, 0) < |s|
    ensures var p := FirstAlias(s, i, 0);
            Group(Handover(s, i, p), o) ==
            if o == p then Group(s, i) - {i} else if o == i then {} else Group(s, o)
  {
    var p := FirstAlias(s, i, 0);
    var t := Handover(s, i, p);
    assert Attached(s, p, x);
    forall j: int
      ensures j in Group(t, o) <==> j in if o == p then Group(s, i) - {i} else if o == i then {} else Group(s, o)
    {
      assert Attached(s, j, x);
    }
  }

  lemma HandoverCounts(s: seq<Slot>, i: int, x: int, o: int)
    requires SoundBut(s, x) && Owner(s, i) && Named(s, i)
    requires FirstAlias(s, i, 0) < |s|
    ensures Counts(Handover(s, i, FirstAlias(s, i, 0)), o, Heir(s, i, x))
  {
    HandoverGroup(s, i, x, o);
    assert Counts(s, o, x) && Counts(s, i, x);
    InGroup(s, i);
  }

  lemma HandoverSound(s: seq<Slot>, i: int, x: int)
    requires SoundBut(s, x) && Owner(s, i) && Named(s, i)
    requires FirstAlias(s, i, 0) < |s|
    ensures SoundBut(Handover(s, i, FirstAlias(s, i, 0)), Heir(s, i, x))
  {
    var p := FirstAlias(s, i, 0);
    var t := Handover(s, i, p);
    var h := Heir(s, i, x);
    assert Attached(s, i, x) && Attached(s, p, x);
    forall j: int ensures Attached(t, j, h) { assert Attached(s, j, x); }
    forall o: int ensures Counts(t, o, h) { HandoverCounts(s, i, x, o); }
    forall o: int, q: int ensures OneOwner(t, o, q) {
      assert OneOwner(s, o, q) && OneOwner(s, i, q) && OneOwner(s, o, i);
    }
    forall j: int, k: int ensures OneKey(t, j, k) { assert OneKey(s, j, k); }
  }

  // --- an owner alone

  lemma AloneGroup(s: seq<Slot>, i: int, x: int, o: int)
    requires SoundBut(s, x) && Owner(s, i) && Named(s, i)
    requires FirstAlias(s, i, 0) == |s|
    ensures Group(s, i) == {i}
    ensures Group(CloseAt(s, i), o) == if o == i then {} else Group(s, o)
    ensures s[i].refs == if i == x then 2 else 1
  {
    forall j: int ensures j in Group(s, i) <==> j == i {}
    assert Counts(s, i, x);
  }

  lemma CloseAlone(s: seq<Slot>, i: int, x: int)
    requires SoundBut(s, x) && Owner(s, i) && Named(s, i)
    requires FirstAlias(s, i, 0) == |s|
    ensures SoundBut(CloseAt(s, i), x)
  {
    var t := CloseAt(s, i);
    AloneGroup(s, i, x, i);
    forall j: int ensures Attached(t, j, x) {
      assert Attached(s, j, x);
    }
    forall o: int ensures Counts(t, o, x) {
      AloneGroup(s, i, x, o);
      assert Counts(s, o, x);
    }
    forall o: int, p: int ensures OneOwner(t, o, p) { assert OneOwner(s, o, p); }
    forall j: int, k: int ensures OneKey(t, j, k) { assert OneKey(s, j, k); }
  }

  /** Closing a descriptor keeps the table as sound as it was. */
  lemma CloseKeepsSound(s: seq<Slot>, i: int, x: int)
    requires SoundBut(s, x) && Named(s, i)
    ensures SoundBut(CloseAt(s, i), Heir(s, i, x))
  {
    assert Attached(s, i, x) && Counts(s, i, x);
    if IsAlias(s, i) {
      CloseAlias(s, i, x);
    } else if FirstAlias(s, i, 0) < |s| {
      SecondMember(s, i, x);
      HandoverSound(s, i, x);
    } else {
      CloseAlone(s, i, x);
    }
  }

  lemma SecondMember(s: seq<Slot>, i: int, x: int)
    requires SoundBut(s, x) && Named(s, i) && Owner(s, i) && FirstAlias(s, i, 0) < |s|
    ensures s[i].refs > 1
  {
    var p := FirstAlias(s, i, 0);
    assert Attached(s, p, x) && Attached(s, i, x) && Counts(s, i, x);
    assert Group(s, i) == {i, p} + (Group(s, i) - {i, p});
  }

  /** What the table shows after the close: the same names less the one closed. */
  lemma CloseShows(s: seq<Slot>, i: int, x: int, names: Names)
    requires SoundBut(s, x) && Named(s, i) && Shows(s, names)
    ensures Shows(CloseAt(s, i), names - {KeyOf(s, i)})
  {
    var t := CloseAt(s, i);
    CloseKeepsSlots(s, i, x);
    forall j | Named(t, j) ensures KeyOf(t, j) in names - {KeyOf(s, i)} && names[KeyOf(t, j)] == t[j].obj {
      assert Same(s, t, j, i);
      assert OneKey(s, i, j);
    }
    forall k | k in names - {KeyOf(s, i)} ensures exists j :: Named(t, j) && KeyOf(t, j) == k {
      var j :| Named(s, j) && KeyOf(s, j) == k;
      assert Same(s, t, j, i);
      assert Named(t, j) && KeyOf(t, j) == k;
    }
  }

  predicate Same(s: seq<Slot>, t: seq<Slot>, j: int, i: int) {
    Named(t, j) == (Named(s, j) && j != i) &&
      (Named(t, j) ==> |s| == |t| && KeyOf(t, j) == KeyOf(s, j) && t[j].obj == s[j].obj)
  }

  lemma CloseKeepsSlots(s: seq<Slot>, i: int, x: int)
    requires SoundBut(s, x) && Named(s, i)
    ensures forall j: int :: Same(s, CloseAt(s, i), j, i)
  {
    assert Attached(s, i, x) && Counts(s, i, x);
    if !IsAlias(s, i) && FirstAlias(s, i, 0) < |s| { SecondMember(s, i, x); }
  }

  /** The object is closed exactly with its last name, and never while a surplus reference is
      counted on it. */
  lemma FinalIffLast(s: seq<Slot>, i: int, x: int, names: Names)
    requires SoundBut(s, x) && Named(s, i) && Shows(s, names)
    ensures Final(s, i) <==> s[i].obj !in (names - {KeyOf(s, i)}).Values && !(x >= 0 && s[x].obj == s[i].obj)
  {
    assert Attached(s, i, x) && Counts(s, s[i].owner, x);
    var rest := names - {KeyOf(s, i)};
    if IsAlias(s, i) {
      OwnerShows(s, i, x, names);
    } else if FirstAlias(s, i, 0) < |s| {
      var p := FirstAlias(s, i, 0);
      SecondMember(s, i, x);
      assert Attached(s, p, x) && OneKey(s, i, p);
      assert rest[KeyOf(s, p)] == s[i].obj;
    } else {
      AloneGroup(s, i, x, i);
      if s[i].obj in rest.Values {
        var k :| k in rest && rest[k] == s[i].obj;
        SameObject(s, i, x, names, k);
      }
      if x >= 0 { assert OneOwner(s, x, i); }
    }
  }

  lemma OwnerShows(s: seq<Slot>, i: int, x: int, names: Names)
    requires SoundBut(s, x) && Named(s, i) && Shows(s, names) && IsAlias(s, i)
    ensures s[i].obj in (names - {KeyOf(s, i)}).Values || (x >= 0 && s[x].obj == s[i].obj)
  {
    var o := s[i].owner;
    assert Attached(s, i, x) && Attached(s, o, x) && OneKey(s, i, o);
    if Named(s, o) {
      assert KeyOf(s, o) in names - {KeyOf(s, i)};
      assert (names - {KeyOf(s, i)})[KeyOf(s, o)] == s[i].obj;
    }
  }

  lemma SameObject(s: seq<Slot>, i: int, x: int, names: Names, k: Key)
    requires SoundBut(s, x) && Named(s, i) && Owner(s, i) && Shows(s, names)
    requires k in names && names[k] == s[i].obj && k != KeyOf(s, i)
    ensures FirstAlias(s, i, 0) < |s|
  {
    var j :| Named(s, j) && KeyOf(s, j) == k;
    assert Attached(s, j, x);
    assert OneOwner(s, s[j].owner, i);
  }

  // ----- adding a slot

  /** The first unused slot from `from` on, or `|s|`. */
  function FirstFree(s: seq<Slot>, from: nat): (p: int)
    requires from <= |s|
    ensures from <= p <= |s|
    ensures p < |s| ==> !s[p].used
    ensures forall j :: from <= j < p ==> s[j].used
    decreases |s| - from
  {
    if from == |s| then |s| else if !s[from].used then from else FirstFree(s, from + 1)
  }

  /** The slot that finds `fd` for `pid`, or -1; globals belong to pid 0. */
  function FindSlot(s: seq<Slot>, fd: int, pid: int, globals: bool, i: nat, found: int): int
    requires i <= |s|
    decreases |s| - i
  {
    if i == |s| then found
    else if s[i].used && s[i].fd == fd && s[i].pid == pid then i
    else FindSlot(s, fd, pid, globals, i + 1,
                  if s[i].used && s[i].fd == fd && globals && s[i].pid == 0 then i else found)
  }

  function Find(s: seq<Slot>, fd: int, pid: int, globals: bool): int {
    if fd < 0 then -1 else FindSlot(s, fd, pid, globals, 0, -1)
  }

  datatype Option<T> = None | Some(value: T)

  /** The key that a descriptor number means to a process: its own first, then a global one. */
  function Resolve(names: Names, pid: int, fd: int, globals: bool): Option<Key> {
    if fd < 0 then None
    else if (pid, fd) in names then Some((pid, fd))
    else if globals && (0, fd) in names then Some((0, fd))
    else None
  }

  /** Nothing before slot `i` is the process's own, and `found` is a global if there was one. */
  ghost predicate Scanned(s: seq<Slot>, fd: int, pid: int, globals: bool, i: nat, found: int) {
    && (forall j: int :: 0 <= j < i && Named(s, j) ==> KeyOf(s, j) != (pid, fd))
    && (found == -1 || (globals && 0 <= found < i && Named(s, found) && KeyOf(s, found) == (0, fd)))
    && (found == -1 && globals ==> forall j: int :: 0 <= j < i && Named(s, j) ==> KeyOf(s, j) != (0, fd))
  }

  lemma FindSlotResolves(s: seq<Slot>, fd: int, pid: int, globals: bool, i: nat, found: int, names: Names, x: int)
    requires SoundBut(s, x) && Shows(s, names) && pid >= 0 && i <= |s| && fd >= 0
    requires Scanned(s, fd, pid, globals, i, found)
    ensures var r := FindSlot(s, fd, pid, globals, i, found);
            if r == -1 then Resolve(names, pid, fd, globals) == None
            else Named(s, r) && Resolve(names, pid, fd, globals) == Some(KeyOf(s, r))
    decreases |s| - i
  {
    if i < |s| {
      assert Attached(s, i, x);
      if !(s[i].used && s[i].fd == fd && s[i].pid == pid) {
        FindSlotResolves(s, fd, pid, globals, i + 1,
                         if s[i].used && s[i].fd == fd && globals && s[i].pid == 0 then i else found, names, x);
      }
    }
  }

  /** Searching the slots answers from the map. */
  lemma FindResolves(s: seq<Slot>, fd: int, pid: int, globals: bool, names: Names, x: int)
    requires SoundBut(s, x) && Shows(s, names) && pid >= 0
    ensures var r := Find(s, fd, pid, globals);
            if r == -1 then Resolve(names, pid, fd, globals) == None
            else Named(s, r) && Resolve(names, pid, fd, globals) == Some(KeyOf(s, r))
  {
    if fd >= 0 { FindSlotResolves(s, fd, pid, globals, 0, -1, names, x); }
  }

  // --- the lowest free number

  function LowestFd(s: seq<Slot>, pid: int, c: nat): nat
    requires c <= SLOTS
    decreases SLOTS - c, |s|
  {
    if c == SLOTS || Find(s, c, pid, false) == -1 then c else LowestFd(s, pid, c + 1)
  }

  /** The least number from `c` on, below `limit`, that the process does not use; `limit` if none. */
  function LeastFd(names: Names, pid: int, c: nat, limit: nat): (r: nat)
    requires c <= limit
    ensures c <= r <= limit
    ensures r < limit ==> (pid, r) !in names
    ensures forall d :: c <= d < r ==> (pid, d) in names
    decreases limit - c, |names|
  {
    if c == limit || (pid, c) !in names then c else LeastFd(names, pid, c + 1, limit)
  }

  lemma {:induction false} LowestIsLeast(s: seq<Slot>, pid: int, c: nat, names: Names, x: int)
    requires SoundBut(s, x) && Shows(s, names) && pid >= 0 && c <= SLOTS
    ensures LowestFd(s, pid, c) == LeastFd(names, pid, c, SLOTS)
    decreases SLOTS - c
  {
    if c < SLOTS {
      FindResolves(s, c, pid, false, names, x);
      LowestIsLeast(s, pid, c + 1, names, x);
    }
  }

  // --- placing a record

  function Bump(s: seq<Slot>, o: int): seq<Slot>
    requires 0 <= o < |s|
  {
    s[o := s[o].(refs := s[o].refs + 1)]
  }

  lemma BumpSurplus(s: seq<Slot>, o: int, names: Names)
    requires Sound(s) && Named(s, o) && Owner(s, o) && Shows(s, names)
    ensures SoundBut(Bump(s, o), o) && Shows(Bump(s, o), names)
  {
    var t := Bump(s, o);
    forall p: int ensures Group(t, p) == Group(s, p) {}
    forall j: int ensures Attached(t, j, o) { assert Attached(s, j, -1); }
    forall p: int ensures Counts(t, p, o) { assert Counts(s, p, -1); }
    forall p: int, q: int ensures OneOwner(t, p, q) { assert OneOwner(s, p, q); }
    forall j: int, k: int ensures OneKey(t, j, k) { assert OneKey(s, j, k); }
    forall k | k in names ensures exists i :: Named(t, i) && KeyOf(t, i) == k {
      var i :| Named(s, i) && KeyOf(s, i) == k;
      assert Named(t, i) && KeyOf(t, i) == k;
    }
  }

  /** A surplus reference is never sound. */
  lemma SurplusIsUnsound(s: seq<Slot>, x: int)
    requires SoundBut(s, x) && x >= 0
    ensures !Sound(s)
  {
    assert Counts(s, x, x);
    assert !Counts(s, x, -1);
  }

  lemma PlaceShows(s: seq<Slot>, p: int, r: Slot, names: Names)
    requires 0 <= p < |s| && !s[p].used && r.used && r.pid >= 0 && Shows(s, names) && (r.pid, r.fd) !in names
    ensures Shows(s[p := r], names[(r.pid, r.fd) := r.obj])
  {
    var t := s[p := r];
    var after := names[(r.pid, r.fd) := r.obj];
    forall k | k in after ensures exists i :: Named(t, i) && KeyOf(t, i) == k {
      if k == (r.pid, r.fd) {
        assert Named(t, p) && KeyOf(t, p) == k;
      } else {
        var i :| Named(s, i) && KeyOf(s, i) == k;
        assert Named(t, i) && KeyOf(t, i) == k;
      }
    }
  }

  lemma AliasCounts(s: seq<Slot>, p: int, r: Slot, o: int, q: int)
    requires SoundBut(s, o) && Named(s, o) && 0 <= p < |s| && !s[p].used
    requires r.used && r.pid >= 0 && r.owner == o
    ensures Counts(s[p := r], q, -1)
  {
    assert Group(s[p := r], q) == Group(s, q) + if q == o then {p} else {};
    assert p !in Group(s, o);
    assert Counts(s, q, o);
  }

  /** A new alias takes up the surplus reference of its owner. */
  lemma PlaceAlias(s: seq<Slot>, p: int, r: Slot, o: int, names: Names)
    requires SoundBut(s, o) && Named(s, o) && 0 <= p < |s| && !s[p].used && Shows(s, names)
    requires r.used && r.pid >= 0 && 0 <= r.fd < SLOTS && r.owner == o && r.obj == s[o].obj
    requires (r.pid, r.fd) !in names
    ensures Sound(s[p := r])
  {
    var t := s[p := r];
    forall q: int ensures Counts(t, q, -1) { AliasCounts(s, p, r, o, q); }
    forall j: int ensures Attached(t, j, -1) { assert Attached(s, j, o); }
    forall q: int, q': int ensures OneOwner(t, q, q') { assert OneOwner(s, q, q'); }
    forall j: int, k: int ensures OneKey(t, j, k) { assert OneKey(s, j, k); }
  }

  lemma FreshGroups(s: seq<Slot>, p: int, r: Slot, q: int)
    requires Sound(s) && 0 <= p < |s| && !s[p].used && r.used && r.pid >= 0 && r.owner == p
    ensures Group(s[p := r], q) == if q == p then {p} else Group(s, q)
  {
    var after, grown := Group(s[p := r], q), if q == p then {p} else Group(s, q);
    forall j: int ensures j in after <==> j in grown { assert Attached(s, j, -1); }
  }

  /** A new object gets a slot that owns it. */
  lemma PlaceFresh(s: seq<Slot>, p: int, r: Slot, names: Names)
    requires Sound(s) && 0 <= p < |s| && !s[p].used && Shows(s, names)
    requires r.used && r.pid >= 0 && 0 <= r.fd < SLOTS && r.owner == p && r.refs == 1
    requires (r.pid, r.fd) !in names && r.obj !in names.Values
    ensures Sound(s[p := r])
  {
    var t := s[p := r];
    forall j: int ensures Attached(t, j, -1) { assert Attached(s, j, -1); }
    forall q: int ensures Counts(t, q, -1) { assert Counts(s, q, -1); FreshGroups(s, p, r, q); }
    forall q: int, q': int ensures OneOwner(t, q, q') {
      assert OneOwner(s, q, q') && Attached(s, q, -1) && Attached(s, q', -1);
    }
    forall j: int, k: int ensures OneKey(t, j, k) { assert OneKey(s, j, k); }
  }

  lemma PlaceOwner(s: seq<Slot>, p: int, r: Slot, names: Names)
    requires Sound(s) && 0 <= p < |s| && !s[p].used && Shows(s, names)
    requires r.used && r.pid >= 0 && 0 <= r.fd < SLOTS && r.owner == p && r.refs == 1
    requires (r.pid, r.fd) !in names && r.obj !in names.Values
    ensures Sound(s[p := r]) && Shows(s[p := r], names[(r.pid, r.fd) := r.obj])
  {
    PlaceShows(s, p, r, names);
    PlaceFresh(s, p, r, names);
  }

  // ----- installing a record

  datatype Result = Fd(fd: int) | Done | NoMemory | NotFound | InvalidArgument

  datatype Installed = Installed(table: seq<Slot>, result: Result)

  /** The record goes to the first free slot; a record without an owner owns itself. */
  function Put(s: seq<Slot>, r: Slot, fd: int): (i: Installed)
    ensures |i.table| == |s|
  {
    var p := FirstFree(s, 0);
    if p == |s| then Installed(s, NoMemory)
    else Installed(s[p := Slot(true, r.pid, fd, if r.owner < 0 then p else r.owner, r.refs, r.obj)], Fd(fd))
  }

  function InstallNew(s: seq<Slot>, r: Slot): (i: Installed)
    ensures |i.table| == |s|
  {
    var fd := LowestFd(s, r.pid, FIRST_FD);
    if fd == SLOTS then Installed(s, NoMemory) else Put(s, r, fd)
  }

  /** A descriptor that the process already has at this number is closed first. */
  function InstallAt(s: seq<Slot>, r: Slot, fd: nat): (i: Installed)
    ensures |i.table| == |s|
  {
    if fd >= SLOTS then Installed(s, NoMemory)
    else
      var e := Find(s, fd, r.pid, false);
      Put(if 0 <= e < |s| then CloseAt(s, e) else s, r, fd)
  }

  function OwnerIndex(s: seq<Slot>, i: int): int {
    if !Used(s, i) then -1 else if Used(s, s[i].owner) then s[i].owner else i
  }

  // ----- open

  predicate HasRoom(s: seq<Slot>, names: Names, pid: int) {
    LeastFd(names, pid, FIRST_FD, SLOTS) < SLOTS && FirstFree(s, 0) < |s|
  }

  function Opening(pid: int, obj: Obj): Slot { Slot(true, pid, -1, -1, 1, obj) }

  /** Opening adds the object at the process's lowest free number; without a free number or slot
      the table is left alone. */
  lemma OpenInstalls(s: seq<Slot>, names: Names, pid: int, obj: Obj)
    requires Sound(s) && Shows(s, names) && pid >= 0 && obj !in names.Values
    ensures var r := InstallNew(s, Opening(pid, obj));
            var fd := LeastFd(names, pid, FIRST_FD, SLOTS);
            if HasRoom(s, names, pid)
            then r.result == Fd(fd) && Sound(r.table) && Shows(r.table, names[(pid, fd) := obj])
            else r.result == NoMemory && r.table == s
  {
    LowestIsLeast(s, pid, FIRST_FD, names, -1);
    if HasRoom(s, names, pid) {
      PlaceOwner(s, FirstFree(s, 0), Slot(true, pid, LeastFd(names, pid, FIRST_FD, SLOTS), FirstFree(s, 0), 1, obj),
          names);
    }
  }

  /** Room for two names of a process: two free slots and two free numbers. */
  predicate RoomForTwo(s: seq<Slot>, names: Names, pid: int) {
    && HasRoom(s, names, pid) && FirstFree(s, FirstFree(s, 0) + 1) < |s|
    && LeastFd(names, pid, LeastFd(names, pid, FIRST_FD, SLOTS) + 1, SLOTS) < SLOTS
  }

  lemma OpenLeavesRoom(s: seq<Slot>, names: Names, pid: int, obj: Obj)
    requires Sound(s) && Shows(s, names) && pid >= 0 && obj !in names.Values && HasRoom(s, names, pid)
    ensures HasRoom(InstallNew(s, Opening(pid, obj)).table, names[(pid, LeastFd(names, pid, FIRST_FD, SLOTS)) := obj],
              pid)
            <==> RoomForTwo(s, names, pid)
  {
    LowestIsLeast(s, pid, FIRST_FD, names, -1);
    NextRoom(s, InstallNew(s, Opening(pid, obj)).table, names, pid, obj);
  }

  lemma NextRoom(s: seq<Slot>, t: seq<Slot>, names: Names, pid: int, obj: Obj)
    requires HasRoom(s, names, pid) && |t| == |s|
    requires t[FirstFree(s, 0)].used && forall j :: 0 <= j < |s| && j != FirstFree(s, 0) ==> t[j] == s[j]
    ensures HasRoom(t, names[(pid, LeastFd(names, pid, FIRST_FD, SLOTS)) := obj], pid) <==> RoomForTwo(s, names, pid)
  {
    var i, fd := FirstFree(s, 0), LeastFd(names, pid, FIRST_FD, SLOTS);
    assert FirstFree(t, 0) < |t| <==> FirstFree(s, i + 1) < |s|;
    assert LeastFd(names[(pid, fd) := obj], pid, FIRST_FD, SLOTS) < SLOTS <==>
           LeastFd(names, pid, fd + 1, SLOTS) < SLOTS;
  }

  // ----- dup

  function Dup(s: seq<Slot>, pid: int, fd: int): (r: Installed)
    ensures |r.table| == |s|
  {
    var o := OwnerIndex(s, Find(s, fd, pid, true));
    if !(0 <= o < |s|) then Installed(s, NotFound)
    else InstallNew(Bump(s, o), s[o].(owner := o, fd := -1, pid := pid))
  }

  lemma OwnerOf(s: seq<Slot>, i: int)
    requires Sound(s) && Named(s, i)
    ensures OwnerIndex(s, i) == s[i].owner && Owner(s, s[i].owner) && Named(s, s[i].owner) &&
            s[s[i].owner].obj == s[i].obj
  {
    assert Attached(s, i, -1) && Attached(s, s[i].owner, -1);
  }

  /** dup shows the object at the lowest free number. Without a free number or slot it fails and
      leaves a surplus reference behind: the table is sound afterwards exactly when there is room. */
  lemma DupSoundIff(s: seq<Slot>, names: Names, pid: int, fd: int)
    requires Sound(s) && Shows(s, names) && pid >= 0
    ensures var r := Dup(s, pid, fd);
            match Resolve(names, pid, fd, true)
            case None => r == Installed(s, NotFound)
            case Some(k) =>
              && (Sound(r.table) <==> HasRoom(s, names, pid))
              && (var least := LeastFd(names, pid, FIRST_FD, SLOTS);
                  if HasRoom(s, names, pid)
                  then r.result == Fd(least) && Shows(r.table, names[(pid, least) := names[k]])
                  else r.result == NoMemory && Shows(r.table, names)
                       && exists x :: x >= 0 && SoundBut(r.table, x) && s[x].obj == names[k])
  {
    FindResolves(s, fd, pid, true, names, -1);
    var i := Find(s, fd, pid, true);
    if i != -1 {
      OwnerOf(s, i);
      var o := s[i].owner;
      var t := Bump(s, o);
      BumpSurplus(s, o, names);
      LowestIsLeast(t, pid, FIRST_FD, names, o);
      BumpFree(s, o);
      var least := LeastFd(names, pid, FIRST_FD, SLOTS);
      if HasRoom(s, names, pid) {
        var p := FirstFree(t, 0);
        var r := Slot(true, pid, least, o, s[o].refs, s[o].obj);
        PlaceShows(t, p, r, names);
        PlaceAlias(t, p, r, o, names);
      } else {
        SurplusIsUnsound(t, o);
        assert Dup(s, pid, fd).table == t && SoundBut(t, o);
      }
    }
  }

  lemma FreeSame(s: seq<Slot>, t: seq<Slot>, from: nat)
    requires |s| == |t| && from <= |s|
    requires forall j :: 0 <= j < |s| ==> s[j].used == t[j].used
    ensures FirstFree(s, from) == FirstFree(t, from)
    decreases |s| - from
  {
    if from < |s| { FreeSame(s, t, from + 1); }
  }

  lemma BumpFree(s: seq<Slot>, o: int)
    requires 0 <= o < |s|
    ensures FirstFree(Bump(s, o), 0) == FirstFree(s, 0)
  {
    FreeSame(s, Bump(s, o), 0);
  }

  // ----- dup2

  /** Asking for the number it already has answers without looking the descriptor up. */
  function Dup2(s: seq<Slot>, pid: int, fd: int, to: int): (r: Installed)
    ensures |r.table| == |s|
  {
    if to < 0 then Installed(s, InvalidArgument)
    else if fd == to then Installed(s, Fd(to))
    else
      var o := OwnerIndex(s, Find(s, fd, pid, true));
      if !(0 <= o < |s|) then Installed(s, NotFound)
      else InstallAt(Bump(s, o), s[o].(owner := o, fd := to, pid := pid), to)
  }

  lemma BumpFind(s: seq<Slot>, o: int, fd: int, pid: int, globals: bool, i: nat, found: int)
    requires 0 <= o < |s| && i <= |s|
    ensures FindSlot(Bump(s, o), fd, pid, globals, i, found) == FindSlot(s, fd, pid, globals, i, found)
    decreases |s| - i
  {
    if i < |s| {
      BumpFind(s, o, fd, pid, globals, i + 1,
               if s[i].used && s[i].fd == fd && globals && s[i].pid == 0 then i else found);
    }
  }

  /** The target number is free of the descriptor that owns the very object being duplicated, and
      there is a slot for the duplicate. */
  predicate Dup2Room(s: seq<Slot>, pid: int, fd: int, to: int) {
    var e := Find(s, to, pid, false);
    to < SLOTS && e != OwnerIndex(s, Find(s, fd, pid, true)) && (e != -1 || FirstFree(s, 0) < |s|)
  }

  lemma FreedSlot(s: seq<Slot>, e: int, x: int)
    requires SoundBut(s, x) && Named(s, e) && e != x
    ensures FirstFree(CloseAt(s, e), 0) < |s|
  {
    assert Attached(s, e, x) && Counts(s, e, x);
    if !IsAlias(s, e) && FirstAlias(s, e, 0) == |s| { AloneGroup(s, e, x, e); }
  }

  /** The step with the target taken care of: the duplicate replaces what was there. */
  lemma Dup2Replaces(t: seq<Slot>, names: Names, r: Slot, o: int, to: int)
    requires SoundBut(t, o) && Named(t, o) && Shows(t, names) && 0 <= to < SLOTS
    requires r.pid >= 0 && r.owner == o && r.obj == t[o].obj
    requires var e := Find(t, to, r.pid, false); e != o && (e != -1 || FirstFree(t, 0) < |t|)
    ensures var u := InstallAt(t, r, to);
            u.result == Fd(to) && Sound(u.table) && Shows(u.table, names[(r.pid, to) := r.obj])
  {
    var e := Find(t, to, r.pid, false);
    FindResolves(t, to, r.pid, false, names, o);
    var rest := if e == -1 then names else names - {KeyOf(t, e)};
    var v := if e == -1 then t else CloseAt(t, e);
    if e != -1 {
      CloseKeepsSound(t, e, o);
      CloseShows(t, e, o, names);
      CloseKeepsSlots(t, e, o);
      assert Same(t, v, o, e);
      FreedSlot(t, e, o);
    }
    var p := FirstFree(v, 0);
    var q := Slot(true, r.pid, to, o, r.refs, r.obj);
    PlaceShows(v, p, q, rest);
    PlaceAlias(v, p, q, o, rest);
    assert rest[(r.pid, to) := r.obj] == names[(r.pid, to) := r.obj];
  }

  /** When the target is the owner itself, ownership moves to an alias while the duplicate still
      points at the old owner's slot. */
  lemma Dup2OnOwner(t: seq<Slot>, names: Names, r: Slot, o: int, to: int)
    requires SoundBut(t, o) && Named(t, o) && FirstAlias(t, o, 0) < |t| && Shows(t, names) && 0 <= to < SLOTS
    requires r.pid >= 0 && r.owner == o && r.obj == t[o].obj && Find(t, to, r.pid, false) == o
    ensures !Sound(InstallAt(t, r, to).table)
  {
    var v := CloseAt(t, o);
    var h := FirstAlias(t, o, 0);
    assert Attached(t, h, o);
    SecondMember(t, o, o);
    assert v == Handover(t, o, h);
    StrayOwner(v, o, h, FirstFree(v, 0), Slot(true, r.pid, to, o, r.refs, r.obj));
  }

  /** A record that points at the slot the ownership has left. */
  lemma StrayOwner(v: seq<Slot>, o: int, h: int, p: int, r: Slot)
    requires Owner(v, h) && 0 <= o < |v| && !v[o].used && 0 <= p < |v| && !v[p].used
    requires r.used && r.owner == o && r.obj == v[h].obj
    ensures !Sound(v[p := r])
  {
    var u := v[p := r];
    if p == o {
      assert !OneOwner(u, o, h);
    } else {
      assert !Attached(u, p, -1);
    }
  }

  lemma OwnerHasAlias(s: seq<Slot>, i: int, x: int)
    requires SoundBut(s, x) && Named(s, i) && s[i].owner != i
    ensures FirstAlias(s, s[i].owner, 0) < |s|
  {}

  /** The target is the descriptor that owns the object being duplicated. */
  predicate OntoOwner(s: seq<Slot>, pid: int, fd: int, to: int) {
    to < SLOTS && Find(s, to, pid, false) == OwnerIndex(s, Find(s, fd, pid, true))
  }

  /** dup2 replaces what the target number meant. The table is sound afterwards exactly when the
      target number is in range, a slot is free or freed, and the target does not own the object.
      Onto the owner it answers as if it had worked; otherwise it fails and a reference is lost. */
  lemma Dup2SoundIff(s: seq<Slot>, names: Names, pid: int, fd: int, to: int)
    requires Sound(s) && Shows(s, names) && pid >= 0 && to >= 0 && fd != to
    ensures var r := Dup2(s, pid, fd, to);
            match Resolve(names, pid, fd, true)
            case None => r == Installed(s, NotFound)
            case Some(k) =>
              && (Sound(r.table) <==> Dup2Room(s, pid, fd, to))
              && (if Dup2Room(s, pid, fd, to) then r.result == Fd(to) && Shows(r.table, names[(pid, to) := names[k]])
                  else if OntoOwner(s, pid, fd, to) then r.result == Fd(to)
                  else r.result == NoMemory && Shows(r.table, names)
                       && exists x :: x >= 0 && SoundBut(r.table, x) && s[x].obj == names[k])
  {
    FindResolves(s, fd, pid, true, names, -1);
    var i := Find(s, fd, pid, true);
    if i != -1 {
      OwnerOf(s, i);
      var o := s[i].owner;
      var t := Bump(s, o);
      var r := s[o].(owner := o, fd := to, pid := pid);
      BumpSurplus(s, o, names);
      BumpFind(s, o, to, pid, false, 0, -1);
      BumpFree(s, o);
      var e := Find(t, to, pid, false);
      FindResolves(t, to, pid, false, names, o);
      if Dup2Room(s, pid, fd, to) {
        Dup2Replaces(t, names, r, o, to);
      } else if to < SLOTS && e == o {
        OwnerHasAlias(t, i, o);
        Dup2OnOwner(t, names, r, o, to);
        OwnerMoves(t, o);
      } else {
        SurplusIsUnsound(t, o);
        assert Dup2(s, pid, fd, to) == Installed(t, NoMemory) && SoundBut(t, o);
      }
    }
  }

  /** Closing an owner that has an alias frees its slot and makes the alias the owner. */
  lemma OwnerMoves(t: seq<Slot>, o: int)
    requires SoundBut(t, o) && Named(t, o) && FirstAlias(t, o, 0) < |t|
    ensures var v, h := CloseAt(t, o), FirstAlias(t, o, 0);
            && v == Handover(t, o, h) && !v[o].used && FirstFree(v, 0) <= o && Owner(v, h) && v[h].obj == t[o].obj
            && FirstFree(v, 0) == if FirstFree(t, 0) < o then FirstFree(t, 0) else o
  {
    SecondMember(t, o, o);
    var h := FirstAlias(t, o, 0);
    assert Attached(t, h, o);
    var v := Handover(t, o, h);
    FirstFreeIs(v, 0, if FirstFree(t, 0) < o then FirstFree(t, 0) else o);
  }

  lemma {:induction false} FirstFreeIs(s: seq<Slot>, from: nat, p: int)
    requires from <= p < |s| && !s[p].used && forall j :: from <= j < p ==> s[j].used
    ensures FirstFree(s, from) == p
    decreases p - from
  {
    if from < p { FirstFreeIs(s, from + 1, p); }
  }

  lemma {:induction false} FindsFirst(s: seq<Slot>, fd: int, pid: int, i: nat, found: int, p: nat)
    requires i <= p < |s| && s[p].used && s[p].fd == fd && s[p].pid == pid
    requires forall j :: i <= j < |s| && j != p ==> !(s[j].used && s[j].fd == fd && s[j].pid == pid)
    ensures FindSlot(s, fd, pid, false, i, found) == p
    decreases p - i
  {
    if i < p { FindsFirst(s, fd, pid, i + 1, found, p); }
  }

  /** What a descriptor reads and writes: the record of its owner's slot, while that is in use. */
  function ReadThrough(s: seq<Slot>, i: int): Option<Obj> {
    var o := OwnerIndex(s, i);
    if 0 <= o < |s| then Some(s[o].obj) else None
  }

  /** Onto the owner, with a lower slot free: the duplicate points at the slot that is freed. */
  lemma OntoOwnerStrays(s: seq<Slot>, names: Names, pid: int, fd: int, to: int)
    requires Sound(s) && Shows(s, names) && pid >= 0 && to >= 0 && fd != to
    requires Resolve(names, pid, fd, true).Some? && OntoOwner(s, pid, fd, to)
    requires FirstFree(s, 0) < OwnerIndex(s, Find(s, fd, pid, true))
    ensures var o, p, u := OwnerIndex(s, Find(s, fd, pid, true)), FirstFree(s, 0), Dup2(s, pid, fd, to).table;
            && 0 <= o < |u| == SLOTS && p != o && !u[o].used
            && Named(u, p) && KeyOf(u, p) == (pid, to) && u[p].owner == o
  {
    hide Shows;
    FindResolves(s, fd, pid, true, names, -1);
    var i := Find(s, fd, pid, true);
    OwnerOf(s, i);
    var o := s[i].owner;
    var t := Bump(s, o);
    BumpSurplus(s, o, names);
    BumpFind(s, o, to, pid, false, 0, -1);
    BumpFree(s, o);
    FindResolves(t, to, pid, false, names, o);
    OwnerHasAlias(t, i, o);
    OwnerMoves(t, o);
  }

  /** Once something is opened into the slot that was freed, the target stands for it. */
  lemma Dup2OntoOwnerReadsAnother(s: seq<Slot>, names: Names, pid: int, fd: int, to: int, other: int, obj: Obj)
    requires Sound(s) && Shows(s, names) && pid >= 0 && to >= 0 && fd != to && other >= 0
    requires Resolve(names, pid, fd, true).Some? && OntoOwner(s, pid, fd, to)
    requires FirstFree(s, 0) < OwnerIndex(s, Find(s, fd, pid, true))
    requires var u := Dup2(s, pid, fd, to).table;
             FirstFree(u, 0) == OwnerIndex(s, Find(s, fd, pid, true)) && InstallNew(u, Opening(other, obj)).result.Fd?
    ensures var w, p := InstallNew(Dup2(s, pid, fd, to).table, Opening(other, obj)).table, FirstFree(s, 0);
            Named(w, p) && KeyOf(w, p) == (pid, to) && ReadThrough(w, p) == Some(obj)
  {
    hide Sound, Shows, Dup2, Find, FirstFree, Resolve, LowestFd;
    OntoOwnerStrays(s, names, pid, fd, to);
  }

  // ----- cloning a process's descriptors

  function CloneFrom(s: seq<Slot>, parent: int, child: int, i: nat): (c: Installed)
    requires |s| == SLOTS && i <= SLOTS
    ensures |c.table| == SLOTS
    decreases SLOTS - i, |s|
  {
    if i == SLOTS then Installed(s, Done)
    else if !(s[i].used && s[i].pid == parent) then CloneFrom(s, parent, child, i + 1)
    else
      var o := OwnerIndex(s, i);
      var r := if s[i].fd < 0 then Installed(Bump(s, o), NoMemory)
               else InstallAt(Bump(s, o), s[i].(pid := child, owner := o, refs := 1), s[i].fd);
      if r.result.Fd? then CloneFrom(r.table, parent, child, i + 1) else r
  }

  ghost function Unused(s: seq<Slot>): set<int> { set i | 0 <= i < |s| && !s[i].used }

  /** The slots of `pid` from `i` on. */
  ghost function SlotsOf(s: seq<Slot>, pid: int, i: nat): set<int> {
    set j | i <= j < |s| && s[j].used && s[j].pid == pid
  }

  /** The child's names are still to be added for the parent's slots from `i` on. */
  ghost predicate Pending(s: seq<Slot>, names: Names, parent: int, child: int, i: nat, j: int) {
    i <= j && Named(s, j) && s[j].pid == parent ==> (child, s[j].fd) !in names
  }

  ghost predicate AllPending(s: seq<Slot>, names: Names, parent: int, child: int, i: nat) {
    forall j: int :: Pending(s, names, parent, child, i, j)
  }

  /** What the child gets from the parent's slots from `i` on. */
  ghost function Copies(s: seq<Slot>, parent: int, child: int, i: nat, names: Names): Names
    requires i <= |s|
    decreases |s| - i
  {
    if i == |s| then names
    else if s[i].used && s[i].pid == parent then Copies(s, parent, child, i + 1, names[(child, s[i].fd) := s[i].obj])
    else Copies(s, parent, child, i + 1, names)
  }

  lemma FreeIffUnused(s: seq<Slot>, from: nat)
    requires from <= |s|
    ensures FirstFree(s, 0) < |s| <==> Unused(s) != {}
  {
    var p := FirstFree(s, 0);
    if p < |s| { assert p in Unused(s); }
  }

  lemma PutUnused(s: seq<Slot>, t: seq<Slot>, p: int, i: nat, parent: int)
    requires |t| == |s| && 0 <= p < |s| && !s[p].used && t[p].used && t[p].pid != parent
    requires forall j :: 0 <= j < |s| && j != p ==> t[j].used == s[j].used && t[j].pid == s[j].pid
    ensures |Unused(t)| == |Unused(s)| - 1 && SlotsOf(t, parent, i) == SlotsOf(s, parent, i)
  {
    assert Unused(t) == Unused(s) - {p} && p in Unused(s);
  }

  /** One descriptor is cloned: exactly when a slot is free. */
  lemma CloneOne(s: seq<Slot>, names: Names, parent: int, child: int, i: nat)
    requires Sound(s) && Shows(s, names) && child > 0 && parent != child && i < SLOTS
    requires Named(s, i) && s[i].pid == parent && (child, s[i].fd) !in names
    ensures 0 <= s[i].fd < SLOTS && 0 <= OwnerIndex(s, i) < |s|
    ensures var o := OwnerIndex(s, i);
            var r := InstallAt(Bump(s, o), s[i].(pid := child, owner := o, refs := 1), s[i].fd);
            var p := FirstFree(s, 0);
            && |r.table| == SLOTS
            && (if Unused(s) == {} then r.result == NoMemory && !Sound(r.table)
                else && r.result == Fd(s[i].fd) && Sound(r.table) && Shows(r.table, names[(child, s[i].fd) := s[i].obj])
                     && r.table == Bump(s, o)[p := Slot(true, child, s[i].fd, o, 1, s[i].obj)] && p < |s| && !s[p].used)
  {
    OwnerOf(s, i);
    assert Attached(s, i, -1);
    var o := s[i].owner;
    var t := Bump(s, o);
    BumpSurplus(s, o, names);
    BumpFree(s, o);
    FreeIffUnused(s, 0);
    FindResolves(t, s[i].fd, child, false, names, o);
    if Unused(s) == {} {
      SurplusIsUnsound(t, o);
    } else {
      Dup2Replaces(t, names, s[i].(pid := child, owner := o, refs := 1), o, s[i].fd);
    }
  }

  lemma CopiesSame(s: seq<Slot>, t: seq<Slot>, parent: int, child: int, i: nat, names: Names)
    requires |s| == |t| && i <= |s|
    requires forall j :: i <= j < |s| ==> (t[j].used && t[j].pid == parent) == (s[j].used && s[j].pid == parent)
    requires forall j :: i <= j < |s| && s[j].used && s[j].pid == parent ==> t[j].fd == s[j].fd && t[j].obj == s[j].obj
    ensures Copies(s, parent, child, i, names) == Copies(t, parent, child, i, names)
    decreases |s| - i
  {
    if i < |s| {
      CopiesSame(s, t, parent, child, i + 1, names[(child, s[i].fd) := s[i].obj]);
      CopiesSame(s, t, parent, child, i + 1, names);
    }
  }

  /** Cloning from slot `i` on succeeds exactly when there are slots for what is left. */
  ghost predicate ClonesIffRoom(s: seq<Slot>, names: Names, parent: int, child: int, i: nat)
    requires |s| == SLOTS && i <= SLOTS
  {
    var r := CloneFrom(s, parent, child, i);
    && (Sound(r.table) <==> |SlotsOf(s, parent, i)| <= |Unused(s)|)
    && (if Sound(r.table) then r.result == Done && Shows(r.table, Copies(s, parent, child, i, names))
        else r.result == NoMemory)
  }

  lemma CloneFull(s: seq<Slot>, names: Names, parent: int, child: int, i: nat)
    requires Sound(s) && Shows(s, names) && parent > 0 && child > 0 && parent != child && i < SLOTS
    requires AllPending(s, names, parent, child, i) && s[i].used && s[i].pid == parent && Unused(s) == {}
    ensures ClonesIffRoom(s, names, parent, child, i)
  {
    assert Pending(s, names, parent, child, i, i);
    CloneOne(s, names, parent, child, i);
    assert SlotsOf(s, parent, i) == {i} + SlotsOf(s, parent, i + 1);
  }

  lemma CloneSkip(s: seq<Slot>, names: Names, parent: int, child: int, i: nat)
    requires |s| == SLOTS && i < SLOTS && !(s[i].used && s[i].pid == parent)
    requires ClonesIffRoom(s, names, parent, child, i + 1)
    ensures ClonesIffRoom(s, names, parent, child, i)
  {
    assert SlotsOf(s, parent, i) == SlotsOf(s, parent, i + 1);
  }

  lemma SoundSize(s: seq<Slot>)
    requires Sound(s)
    ensures |s| == SLOTS
  {}

  lemma CloneEnd(s: seq<Slot>, names: Names, parent: int, child: int)
    requires Sound(s) && Shows(s, names)
    ensures ClonesIffRoom(s, names, parent, child, SLOTS)
  {
    assert SlotsOf(s, parent, SLOTS) == {};
  }

  lemma {:induction false} CloneSound(s: seq<Slot>, names: Names, parent: int, child: int, i: nat)
    requires Sound(s) && Shows(s, names) && parent > 0 && child > 0 && parent != child && i <= SLOTS
    requires AllPending(s, names, parent, child, i)
    ensures ClonesIffRoom(s, names, parent, child, i)
    decreases SLOTS - i
  {
    hide Sound, Shows, AllPending, ClonesIffRoom, ClonedAt, CloneFrom, Unused;
    SoundSize(s);
    if i == SLOTS {
      CloneEnd(s, names, parent, child);
    } else if !(s[i].used && s[i].pid == parent) {
      PendingLater(s, names, parent, child, i);
      CloneSound(s, names, parent, child, i + 1);
      CloneSkip(s, names, parent, child, i);
    } else if Unused(s) == {} {
      CloneFull(s, names, parent, child, i);
    } else {
      ClonedAtKeeps(s, names, parent, child, i);
      ClonedAtPends(s, names, parent, child, i);
      SoundSize(ClonedAt(s, child, i));
      CloneSound(ClonedAt(s, child, i), names[(child, s[i].fd) := s[i].obj], parent, child, i + 1);
      CloneNext(s, names, parent, child, i);
    }
  }

  lemma PendingLater(s: seq<Slot>, names: Names, parent: int, child: int, i: nat)
    requires AllPending(s, names, parent, child, i)
    ensures AllPending(s, names, parent, child, i + 1)
  {
    var n := i + 1;
    forall j: int ensures Pending(s, names, parent, child, n, j) { assert Pending(s, names, parent, child, i, j); }
  }

  /** The table once the descriptor in slot `i` is cloned. */
  function ClonedAt(s: seq<Slot>, child: int, i: nat): seq<Slot>
    requires i < |s|
  {
    var o := OwnerIndex(s, i);
    var p := FirstFree(s, 0);
    if 0 <= o < |s| && p < |s| then Bump(s, o)[p := Slot(true, child, s[i].fd, o, 1, s[i].obj)] else s
  }

  lemma ClonedAtKeeps(s: seq<Slot>, names: Names, parent: int, child: int, i: nat)
    requires Sound(s) && Shows(s, names) && parent > 0 && child > 0 && parent != child && i < SLOTS
    requires AllPending(s, names, parent, child, i) && s[i].used && s[i].pid == parent && Unused(s) != {}
    ensures var t := ClonedAt(s, child, i);
            var after := names[(child, s[i].fd) := s[i].obj];
            && Sound(t) && Shows(t, after) && CloneFrom(s, parent, child, i) == CloneFrom(t, parent, child, i + 1)
            && |Unused(t)| == |Unused(s)| - 1 && SlotsOf(t, parent, i + 1) == SlotsOf(s, parent, i + 1)
  {
    assert Pending(s, names, parent, child, i, i);
    CloneOne(s, names, parent, child, i);
    PutUnused(s, ClonedAt(s, child, i), FirstFree(s, 0), i + 1, parent);
  }

  lemma ClonedAtIs(s: seq<Slot>, names: Names, parent: int, child: int, i: nat, j: int)
    requires Sound(s) && parent != child && i < SLOTS
    requires Named(s, i) && Unused(s) != {}
    ensures var t := ClonedAt(s, child, i);
            |t| == |s| &&
            (0 <= j < |s| && t[j].used && t[j].pid != child ==>
                s[j].used && t[j].pid == s[j].pid && t[j].fd == s[j].fd && t[j].obj == s[j].obj) &&
            (0 <= j < |s| && s[j].used && s[j].pid == parent ==> t[j].used && t[j].pid == parent)
  {
    FreeIffUnused(s, 0);
  }

  lemma ClonedAtPends(s: seq<Slot>, names: Names, parent: int, child: int, i: nat)
    requires Sound(s) && parent > 0 && child > 0 && parent != child && i < SLOTS
    requires AllPending(s, names, parent, child, i) && s[i].used && s[i].pid == parent && Unused(s) != {}
    ensures AllPending(ClonedAt(s, child, i), names[(child, s[i].fd) := s[i].obj], parent, child, i + 1)
  {
    var t := ClonedAt(s, child, i);
    var after := names[(child, s[i].fd) := s[i].obj];
    var n := i + 1;
    forall j: int ensures Pending(t, after, parent, child, n, j) {
      ClonedAtIs(s, names, parent, child, i, j);
      assert Pending(s, names, parent, child, i, j) && OneKey(s, i, j);
    }
  }

  lemma ClonedAtCopies(s: seq<Slot>, names: Names, parent: int, child: int, i: nat)
    requires Sound(s) && parent > 0 && child > 0 && parent != child && i < SLOTS
    requires s[i].used && s[i].pid == parent && Unused(s) != {}
    ensures |ClonedAt(s, child, i)| == |s|
    ensures Copies(s, parent, child, i + 1, names) == Copies(ClonedAt(s, child, i), parent, child, i + 1, names)
  {
    forall j: int ensures |ClonedAt(s, child, i)| == |s| &&
      (0 <= j < |s| ==>
          (ClonedAt(s, child, i)[j].used && ClonedAt(s, child, i)[j].pid == parent) ==
          (s[j].used && s[j].pid == parent))
    {
      ClonedAtIs(s, names, parent, child, i, j);
    }
    forall j: int | 0 <= j < |s| && s[j].used && s[j].pid == parent
      ensures ClonedAt(s, child, i)[j].fd == s[j].fd && ClonedAt(s, child, i)[j].obj == s[j].obj
    {
      ClonedAtIs(s, names, parent, child, i, j);
    }
    CopiesSame(s, ClonedAt(s, child, i), parent, child, i + 1, names);
  }

  lemma CloneNext(s: seq<Slot>, names: Names, parent: int, child: int, i: nat)
    requires Sound(s) && Shows(s, names) && parent > 0 && child > 0 && parent != child && i < SLOTS
    requires AllPending(s, names, parent, child, i) && s[i].used && s[i].pid == parent && Unused(s) != {}
    requires |ClonedAt(s, child, i)| == SLOTS
    requires ClonesIffRoom(ClonedAt(s, child, i), names[(child, s[i].fd) := s[i].obj], parent, child, i + 1)
    ensures ClonesIffRoom(s, names, parent, child, i)
  {
    hide Shows, AllPending, ClonedAt, CloneFrom, Attached, Counts, OneOwner, OneKey;
    ClonedAtKeeps(s, names, parent, child, i);
    ClonedAtCopies(s, names[(child, s[i].fd) := s[i].obj], parent, child, i);
    assert SlotsOf(s, parent, i) == {i} + SlotsOf(s, parent, i + 1);
  }

  /** Slot `j` is one of the parent's from `i` on, and its copy is known as `k`. */
  predicate CopyOf(s: seq<Slot>, parent: int, child: int, i: nat, j: int, k: Key) {
    i <= j && Named(s, j) && s[j].pid == parent && k == (child, s[j].fd)
  }

  lemma {:induction false} CopiesMean(s: seq<Slot>, parent: int, child: int, i: nat, m: Names, k: Key)
    requires Sound(s) && parent > 0 && i <= |s| && AllPending(s, m, parent, child, i)
    ensures var c := Copies(s, parent, child, i, m);
            && (k in c <==> k in m || exists j: int :: CopyOf(s, parent, child, i, j, k))
            && (k in m ==> k in c && c[k] == m[k])
            && (forall j: int :: CopyOf(s, parent, child, i, j, k) ==> k in c && c[k] == s[j].obj)
    decreases |s| - i
  {
    if i < |s| {
      var mine := s[i].used && s[i].pid == parent;
      var next := if mine then m[(child, s[i].fd) := s[i].obj] else m;
      PendingNext(s, parent, child, i, m);
      CopiesMean(s, parent, child, i + 1, next, k);
      CopySplit(s, parent, child, i, k);
      assert Pending(s, m, parent, child, i, i);
      assert CopyOf(s, parent, child, i, i, k) <==> mine && k == (child, s[i].fd);
      var n := i + 1;
      if j: int :| CopyOf(s, parent, child, n, j, k) { assert CopyOf(s, parent, child, i, j, k); }
    }
  }

  lemma CopySplit(s: seq<Slot>, parent: int, child: int, i: nat, k: Key)
    requires i < |s| && parent > 0
    ensures forall j: int :: CopyOf(s, parent, child, i, j, k) <==>
                             CopyOf(s, parent, child, i + 1, j, k) || (j == i && CopyOf(s, parent, child, i, i, k))
  {}

  lemma PendingNext(s: seq<Slot>, parent: int, child: int, i: nat, m: Names)
    requires Sound(s) && i < |s| && AllPending(s, m, parent, child, i) && parent > 0
    ensures AllPending(s, if s[i].used && s[i].pid == parent then m[(child, s[i].fd) := s[i].obj] else m,
                       parent, child, i + 1)
  {
    var next := if s[i].used && s[i].pid == parent then m[(child, s[i].fd) := s[i].obj] else m;
    var n := i + 1;
    forall j: int ensures Pending(s, next, parent, child, n, j) {
      assert Pending(s, m, parent, child, i, j) && OneKey(s, i, j);
    }
  }

  /** The child sees what the parent sees; nothing else changes. */
  predicate ClonedNames(names: Names, after: Names, parent: int, child: int) {
    && (forall k | k in after :: if k.0 == child then (parent, k.1) in names && after[k] == names[(parent, k.1)]
                                 else k in names && after[k] == names[k])
    && (forall k | k in names :: k in after && (k.0 == parent ==> (child, k.1) in after))
  }

  lemma CopiesClone(s: seq<Slot>, names: Names, parent: int, child: int)
    requires Sound(s) && Shows(s, names) && parent > 0 && child > 0 && parent != child
    requires forall k :: k in names ==> k.0 != child
    ensures AllPending(s, names, parent, child, 0)
    ensures ClonedNames(names, Copies(s, parent, child, 0, names), parent, child)
  {
    var c := Copies(s, parent, child, 0, names);
    forall j: int ensures Pending(s, names, parent, child, 0, j) {}
    forall k | k in c
      ensures if k.0 == child then (parent, k.1) in names && c[k] == names[(parent, k.1)]
              else k in names && c[k] == names[k]
    {
      CopiesMean(s, parent, child, 0, names, k);
      if k.0 == child {
        var j: int :| CopyOf(s, parent, child, 0, j, k);
        assert KeyOf(s, j) == (parent, k.1);
      }
    }
    forall k | k in names ensures k in c && (k.0 == parent ==> (child, k.1) in c) {
      CopiesMean(s, parent, child, 0, names, k);
      if k.0 == parent {
        var j :| Named(s, j) && KeyOf(s, j) == k;
        assert CopyOf(s, parent, child, 0, j, (child, k.1));
        CopiesMean(s, parent, child, 0, names, (child, k.1));
      }
    }
  }

  /** A clone that fails has taken a reference that no descriptor stands for. */
  lemma {:induction false} CloneLoses(s: seq<Slot>, names: Names, parent: int, child: int, i: nat)
    requires Sound(s) && Shows(s, names) && parent > 0 && child > 0 && parent != child && i <= SLOTS
    requires AllPending(s, names, parent, child, i)
    ensures var r := CloneFrom(s, parent, child, i);
            r.result == NoMemory ==> exists x :: x >= 0 && SoundBut(r.table, x)
    decreases SLOTS - i
  {
    if i == SLOTS {
    } else if !(s[i].used && s[i].pid == parent) {
      PendingLater(s, names, parent, child, i);
      CloneLoses(s, names, parent, child, i + 1);
    } else if Unused(s) == {} {
      assert Pending(s, names, parent, child, i, i) && Attached(s, i, -1);
      OwnerOf(s, i);
      var o := s[i].owner;
      BumpSurplus(s, o, names);
      BumpFree(s, o);
      FreeIffUnused(s, 0);
      FindResolves(Bump(s, o), s[i].fd, child, false, names, o);
      assert CloneFrom(s, parent, child, i).table == Bump(s, o) && SoundBut(Bump(s, o), o);
    } else {
      ClonedAtKeeps(s, names, parent, child, i);
      ClonedAtPends(s, names, parent, child, i);
      CloneLoses(ClonedAt(s, child, i), names[(child, s[i].fd) := s[i].obj], parent, child, i + 1);
    }
  }

  function CloneFds(s: seq<Slot>, parent: int, child: int): (r: Installed)
    requires |s| == SLOTS
    ensures |r.table| == SLOTS
  {
    if parent <= 0 || child <= 0 || parent == child then Installed(s, InvalidArgument)
    else CloneFrom(s, parent, child, 0)
  }

  /** Cloning into a process without descriptors gives it the parent's. The table is sound
      afterwards exactly when there are free slots for all of them. */
  lemma CloneSoundIff(s: seq<Slot>, names: Names, parent: int, child: int)
    requires Sound(s) && Shows(s, names) && parent > 0 && child > 0 && parent != child
    requires forall k :: k in names ==> k.0 != child
    ensures var r := CloneFds(s, parent, child);
            && (Sound(r.table) <==> |SlotsOf(s, parent, 0)| <= |Unused(s)|)
            && (if Sound(r.table)
                then r.result == Done && exists after ::
                  Shows(r.table, after) && ClonedNames(names, after, parent, child)
                else r.result == NoMemory && exists x :: x >= 0 && SoundBut(r.table, x))
  {
    CopiesClone(s, names, parent, child);
    CloneSound(s, names, parent, child, 0);
    CloneLoses(s, names, parent, child, 0);
  }

  // ----- a lost reference

  /** Closes the descriptors in the given slots, one after another, skipping slots nobody can name.
      Returns the table and the objects closed on the way. */
  function CloseMany(s: seq<Slot>, slots: seq<int>): (r: (seq<Slot>, seq<Obj>))
    decreases |slots|
  {
    if slots == [] then (s, [])
    else if !Named(s, slots[0]) then CloseMany(s, slots[1..])
    else
      var rest := CloseMany(CloseAt(s, slots[0]), slots[1..]);
      (rest.0, (if Final(s, slots[0]) then [s[slots[0]].obj] else []) + rest.1)
  }

  lemma HeirHolds(s: seq<Slot>, i: int, x: int)
    requires SoundBut(s, x) && x >= 0 && Named(s, i)
    ensures var t := CloseAt(s, i);
            var h := Heir(s, i, x);
            h >= 0 && SoundBut(t, h) && t[h].obj == s[x].obj
  {
    CloseKeepsSound(s, i, x);
    assert Attached(s, i, x) && Attached(s, x, x) && Counts(s, i, x);
    if !IsAlias(s, i) && FirstAlias(s, i, 0) < |s| {
      SecondMember(s, i, x);
      assert Attached(s, FirstAlias(s, i, 0), x);
    }
  }

  /** After a dup, dup2 or clone that failed, whatever is closed from then on, the object whose
      reference was lost is not. */
  lemma {:induction false} LostReferenceNeverCloses(s: seq<Slot>, x: int, slots: seq<int>, names: Names)
    requires SoundBut(s, x) && x >= 0 && Shows(s, names)
    ensures s[x].obj !in CloseMany(s, slots).1
    decreases |slots|
  {
    if slots != [] {
      var i := slots[0];
      if !Named(s, i) {
        LostReferenceNeverCloses(s, x, slots[1..], names);
      } else {
        HeirHolds(s, i, x);
        CloseShows(s, i, x, names);
        FinalIffLast(s, i, x, names);
        LostReferenceNeverCloses(CloseAt(s, i), Heir(s, i, x), slots[1..], names - {KeyOf(s, i)});
      }
    }
  }
}
